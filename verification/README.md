# Verification of the Camelid Enterprise core

A Dafny 4.11 model of the parts of this repository that carry unbounded
promises, with proofs of those promises. `dafny verify dfyconfig.toml` checks all
of it.

| area | modules |
|---|---|
| Tokenizer: byte-pair merging, the pre-tokenizer, both vocabulary families, whole and incremental decoding | `Utf8`, `BpeMerge`, `Regex`, `PreTokenizer`, `ByteAlphabet`, `Vocabulary`, `Decoding`, `BpeEncoding`, `SpmEncoding`, `SpmRoundTrip`, `Encoding` |
| Gateway: per-process quota, selector admission, the log's flush protocol | `InProcessQuota`, `SelectorAdmission`, `GatewayLog` |
| Shared platform store: quota statements and evidence ingestion | `SharedQuota`, `Evidence` |
| Identity store: tokens, rotation, the migration chain under racing openers | `Identity`, `Migration` |
| Shared definitions, facts about sequences and powers of two | `Wrappers`, `Sequences`, `PowersOfTwo` |
| Formats and kernels: GGUF parsing, the Q8_0 dot product and quantizers, half precision | `GgufBytes`, `GgufLayout`, `GgufHeader`, `GgufRoundTrip`, `Gguf`, `Q8Format`, `Q8Dot`, `Q8Quantize`, `Q8Block`, `HalfFloat` |

Operations the source performs step by step are methods over fields and loops,
each proved against a function that says what it computes; the properties are
lemmas about those functions. Concurrent protocols are state machines whose steps
are the source's atomic ones, and the lemmas speak of every reachable state of
every interleaving.

## Reading the model

- Text is a sequence of Unicode scalar values, and positions count characters
  where the source counts bytes; positions order alike either way. Bytes appear
  where the source works on them.
- Character classes (letter, number, whitespace, mark) are parameters. Newlines
  are whitespace. `is_alphabetic` and `is_numeric` overlap on letter-numbers, so
  disjointness is an explicit premise, and `PreTokenizer.OnlySplitsIffDisjoint`
  shows where it matters.
- The comment on `bpe_pretokenize_with` writes `(?i:...)`; the code folds ASCII
  only. The model follows the code, and `PreTokenizer.UnicodeFoldingDiffersAtLongS`
  says exactly where the two part.
- Scores are reals, so they are ordered totally; NaN scores are not modelled.
- The vocabulary comes from a GGUF array and so has at most 1,000,000 entries.
- In-process quota times are those read just before the lock, in natural numbers.
  They may reach the lock out of order; a bound on how far one lags those before it
  is a parameter where a statement needs one.
- In `GatewayLog` a step is what happens under the lock or one channel operation;
  relaxed counters read their latest value; dropping the sender is part of taking
  it.
- `SharedQuota` takes the window start as the greatest multiple of the window not
  after a statement's instant, which is that of its transaction's beginning: it may
  lag the clock, and a sweep, by the retention span less a window plus one second, and
  `SharedQuota.LongerLagLosesACount` shows that no longer lag is safe. Replicas restart with a
  window newly recorded. Rounding of the database's floating-point clock is not
  modelled.
- A line of evidence carries what its text decides: whether it is blank, the keys
  it reads as, whether the database can hold it. A statement that fails may have been
  committed, its answer lost. The digest that identifies a row is taken to be
  injective.
- Identity tokens appear by their hashes; random ids and hashes and each reading
  of the clock are parameters. A collision of drawn values is a storage error, as
  in the source. The documentation of `PrincipalId::new` promises a storage error
  for unknown principals; the code, and the model, say `UnknownPrincipal`. The
  documentation of `rotate_token` says the caller then holds a working token;
  `Identity.ReplacementResolvesIff` says exactly when it works.
- A database file is its version and the shape and contents of its tables.
  Principals are migrated in any order, the source's being by id.
- GGUF floating-point values are their bits. The writer is that of the parser's
  tests, for values of every type.
- The module comment of the Windows kernel names -128 times -128 as the one input
  the byte idiom gets wrong; `Q8Dot.IdiomIsExactIff` shows it is every negative
  weight against -128.
- The floating-point operations of the row reduction and of scaling a block are
  parameters, so the kernels' equality does not depend on what they round to. A
  quantizer's values are exact reals with NaN and the infinities beside them; the sign
  of zero decides nothing there.
- The layout of Q5_1 gives its block 22 bytes, the size of a Q5_0 block; the decoder of
  the same repository reads 24. `GgufLayout.LayoutIsItsFieldsIff` shows it is the only type
  on which the two differ.
- The documentation of the macOS kernels says their quantizer agrees with the portable
  reference on every input. `FMAX` keeps NaN where the reference's maximum passes it over;
  `Q8Block.NeonIsReferenceIff` says exactly when the two agree.

## Model

| member | source | states |
|---|---|---|
| `Utf8.FirstCharEncodesBack` | crates/engine-core/src/tokenizer.rs:1395-1408 | a character read off the front of a byte sequence encodes back to exactly the bytes it was read from (UTF-8, section 4 of RFC 3629) |
| `Utf8.EncodeCharIsOneChar` | crates/engine-core/src/tokenizer.rs:1395-1408 | the encoding of a character, whatever bytes follow, is read as that character and no longer |
| `Utf8.ValidTextOfEncoded` | crates/engine-core/src/tokenizer.rs:691-705 | encoded text is valid and decodes to itself |
| `Utf8.ValidTextIsPrefix` | crates/engine-core/src/tokenizer.rs:1395-1408 | what `valid_up_to` keeps re-encodes to a prefix of the bytes |
| `Utf8.ValidTextIsLongest` | crates/engine-core/src/tokenizer.rs:1395-1408 | every text whose encoding starts the bytes is a prefix of what is kept, so the prefix kept is the longest |
| `Utf8.ValidTextMonotone` | crates/engine-core/src/tokenizer.rs:1395-1408 | appending bytes only adds to the text kept |
| `BpeMerge.SplitOnceCuts` | crates/engine-core/src/tokenizer.rs:134-144 | a line gives a pair exactly when it has a space, and is then cut at the first one |
| `BpeMerge.RanksAreLastLines` | crates/engine-core/src/tokenizer.rs:134-144 | the table holds exactly the pairs listed, each under the index of the last line that lists it |
| `BpeMerge.RanksOfAreDistinct` | crates/engine-core/src/tokenizer.rs:134-144 | two pairs never share a rank |
| `BpeMerge.PopBest` | crates/engine-core/src/tokenizer.rs:167-210 | the heap order pops the leftmost pair of lowest rank |
| `BpeMerge.MergeSymbols` | crates/engine-core/src/tokenizer.rs:167-193 | the loop ends, and returns what batched merging defines, for every symbol list and table |
| `BpeMerge.MergeEveryLoop` | crates/engine-core/src/tokenizer.rs:167-193 | one round replaces exactly the non-overlapping occurrences of the pair, scanned from the left |
| `BpeMerge.RoundsEndIrreducible` | crates/engine-core/src/tokenizer.rs:167-193 | no adjacent pair of the result has a rank |
| `BpeMerge.RoundsKeepText` | crates/engine-core/src/tokenizer.rs:167-193 | the symbols put together are the input symbols put together |
| `BpeMerge.BatchedMergingIsOneByOne` | crates/engine-core/src/tokenizer.rs:167-193 | merging a whole round at once equals merging one lowest-ranked leftmost pair at a time, for every symbol list and every table whose junctions are ordered: a pair that uses the product of a later ranked one only meets it where the symbols side by side before were already mergeable |
| `BpeMerge.ComponentsFirstOrdersJunctions` | crates/engine-core/src/tokenizer.rs:134-144 | junctions are ordered in every table that lists a pair after the pairs that build its components |
| `BpeMerge.RoundsAreRunsIff` | crates/engine-core/src/tokenizer.rs:167-193 | every round of every list leaves what some number of single steps leave exactly when the junctions are ordered |
| `BpeMerge.OutOfOrderTableDiffers` | crates/engine-core/src/tokenizer.rs:167-193 | without that order the final results can differ, on a table and a symbol list given |
| `Regex.MatchOr` | crates/engine-core/src/tokenizer.rs:1105-1120 | an ordered alternation takes its first alternative that matches |
| `Regex.MatchRepeatThen` | crates/engine-core/src/tokenizer.rs:1105-1120 | a greedy repetition takes the longest run from which what follows it still matches |
| `Regex.NoMatchRepeatThen` | crates/engine-core/src/tokenizer.rs:1105-1120 | and fails if what follows matches from no admissible run |
| `PreTokenizer.SegmentEndIsRegexMatch` | crates/engine-core/src/tokenizer.rs:1130-1265 | for every text, cap and position the scanner's segment ends where the backtracking match of the seven-branch expression ends |
| `PreTokenizer.DialectSegmentEnd` | crates/engine-core/src/tokenizer.rs:43-74 | for each of the three dialects and every text the scanner ends each segment where the documented expression matches, written out in the Unicode classes with that dialect's digit cap and marks |
| `PreTokenizer.NextSegmentEnd` | crates/engine-core/src/tokenizer.rs:1130-1158 | the scanner as written returns the end of the expression's match |
| `PreTokenizer.Pretokenize` | crates/engine-core/src/tokenizer.rs:1105-1128 | the loop returns the segments that cutting at every match yields |
| `PreTokenizer.ConsumeRun` | crates/engine-core/src/tokenizer.rs:1315-1351 | the run consumed is the longest one of the class |
| `PreTokenizer.ConsumeDigits` | crates/engine-core/src/tokenizer.rs:1327-1339 | the run consumed is the longest one of digits up to the cap |
| `PreTokenizer.ConsumeOptionalPrefixLetters` | crates/engine-core/src/tokenizer.rs:1171-1187 | ends where the letters branch of the expression ends, or fails where it fails |
| `PreTokenizer.ConsumeOptionalSpacePunctuation` | crates/engine-core/src/tokenizer.rs:1189-1225 | ends where the punctuation branch ends, trailing newlines included, or fails where it fails |
| `PreTokenizer.ConsumeWhitespaceWithNewline` | crates/engine-core/src/tokenizer.rs:1227-1246 | ends after the last newline of the whitespace run, or fails if it has none |
| `PreTokenizer.ConsumeWhitespaceBeforeNonspace` | crates/engine-core/src/tokenizer.rs:1248-1265 | leaves the last space of a run to the word after it |
| `PreTokenizer.UnicodeFoldingDiffersAtLongS` | crates/engine-core/src/tokenizer.rs:1160-1169 | where the apostrophe is neither letter nor number and the long s is a letter: read with Unicode case folding, the comment's expression ends a segment elsewhere exactly when an apostrophe, a long s and a letter come together |
| `PreTokenizer.SegmentsPartitionText` | crates/engine-core/src/tokenizer.rs:1105-1128 | segments are non-empty and put together are the text |
| `PreTokenizer.CapOnlySplitsDigits` | crates/engine-core/src/tokenizer.rs:43-74 | with letters and numbers disjoint and the apostrophe no number, a cap of one gives the larger cap's segments with those of digits split into single characters |
| `PreTokenizer.OnlySplitsIffDisjoint` | crates/engine-core/src/tokenizer.rs:43-74 | where the apostrophe is no number and some number is no letter and some letter no number: caps of one and of two or more differ only so for every text exactly when no character is both |
| `PreTokenizer.OverlapBreaksSplitting` | crates/engine-core/src/tokenizer.rs:1271-1277 | under the same conditions, a text of three characters on which they differ otherwise when one is |
| `ByteAlphabet.ByteToCharInjective` | crates/engine-core/src/tokenizer.rs:1353-1370 | no two bytes share a character |
| `ByteAlphabet.AlphabetWrittenOut` | crates/engine-core/src/tokenizer.rs:1353-1370 | visible Latin-1 characters stand for themselves, the other bytes in order for the 68 characters from U+0100 on |
| `ByteAlphabet.CharToByteInverts` | crates/engine-core/src/tokenizer.rs:1353-1374 | reading the character of a byte gives the byte, and every character read is the character of what it reads as |
| `ByteAlphabet.OneBytePerCharIsVisible` | crates/engine-core/src/tokenizer.rs:1353-1374 | an alphabet text that takes one byte a character in UTF-8 is visible ASCII, and stands for itself |
| `Vocabulary.BuildVocabulary` | crates/engine-core/src/tokenizer.rs:363-440 | succeeds exactly for a non-empty list with enough scores and known kinds; every text is then a key for a token with that text, every byte key a token that stands for the byte, the last of two in either case |
| `Vocabulary.KindsAreNumbered` | crates/engine-core/src/tokenizer.rs:86-104 | token kinds are numbered in the order the format lists them, and no other number is one |
| `Vocabulary.ByteTokenReads` | crates/engine-core/src/tokenizer.rs:1387-1393 | the token that shows a byte in two hexadecimal digits, each in either case, reads as that byte |
| `Vocabulary.ByteTokensAreWritten` | crates/engine-core/src/tokenizer.rs:1387-1393 | nothing else reads as a byte but a plus sign before one digit |
| `Vocabulary.LongestIsLongest` | crates/engine-core/src/tokenizer.rs:851-877 | the special token found at a position is user-defined or, if asked for, control, it starts there, and no other that does is longer |
| `Vocabulary.ControlTextHasId` | crates/engine-core/src/tokenizer.rs:851-877 | it is a key of the vocabulary and not empty, so each match makes progress |
| `Decoding.Decode` | crates/engine-core/src/tokenizer.rs:607-635 | decoding returns the pieces rendered in order, held bytes flushed, or the first bad id or character |
| `Decoding.DecodeBpe` | crates/engine-core/src/tokenizer.rs:708-749 | decoding collects the bytes the ids' characters stand for and keeps their valid text |
| `Decoding.FlushBytes` | crates/engine-core/src/tokenizer.rs:1395-1408 | the text grows by a piece that encodes to a prefix of the held bytes, and by the longest such piece |
| `Decoding.DecodeGrows` | crates/engine-core/src/tokenizer.rs:607-749 | if an id more decodes, the ids before it decode, to a prefix of it |
| `Decoding.RemovalIsFiltering` | crates/engine-core/src/tokenizer.rs:607-749 | decoding with removal is decoding, without it, the ids that have no special role, are not control and no user-defined marker between angle brackets and bars |
| `Decoding.DecodeReportsFirstBad` | crates/engine-core/src/tokenizer.rs:607-749 | decoding fails exactly if some id is out of range or, in a byte-level vocabulary, has a character outside the alphabet, and reports the first such |
| `SpmRoundTrip.WrittenBytesDecode` | crates/engine-core/src/tokenizer.rs:607-635 | the byte tokens that write the bytes of a text decode to it |
| `Decoding.PushStaysInStep` | crates/engine-core/src/tokenizer.rs:279-297 | one push from a state in step appends the id and the delta, or fails with the decoding error and changes nothing; the check on emitted text never fires |
| `Decoding.DeltasAreDecode` | crates/engine-core/src/tokenizer.rs:265-308 | over every sequence of pushes, refused ones included, the deltas put together are the decoding of the accepted ids |
| `Decoding.IncrementalDecoder.Push` | crates/engine-core/src/tokenizer.rs:279-297 | `push` as written is that step on its two fields, and restores them when it fails |
| `Decoding.IncrementalDecoder.constructor` | crates/engine-core/src/tokenizer.rs:351-358 | a new decoder is in step with decoding nothing |
| `BpeEncoding.PartsPartitionText` | crates/engine-core/src/tokenizer.rs:646-682 | the special tokens and the texts between them put together are the text, for every text |
| `BpeEncoding.EncodeSegment` | crates/engine-core/src/tokenizer.rs:684-706 | the ids of a segment are those of what merging its bytes in rounds leaves, or the first text missing |
| `BpeEncoding.EncodeNextPart` | crates/engine-core/src/tokenizer.rs:646-682 | one turn of the scan moves on and adds the ids of one part, or stops with its error |
| `BpeEncoding.EncodeBpeText` | crates/engine-core/src/tokenizer.rs:646-682 | the scan ends and yields the ids of the parts in order, or the first missing symbol |
| `BpeEncoding.PartIsScanned` | crates/engine-core/src/tokenizer.rs:646-682 | at every position the scan takes the longest special token that starts there, or else all text before the next one |
| `BpeEncoding.PartsAreLookedUp` | crates/engine-core/src/tokenizer.rs:646-706 | encoding is looking up, in order, each special token taken and what merging leaves of each segment between them |
| `BpeEncoding.LookupIsExact` | crates/engine-core/src/tokenizer.rs:684-706 | it succeeds exactly if all these texts are in the vocabulary, gives their ids, and else reports the first missing |
| `BpeEncoding.MergedAsStepped` | crates/engine-core/src/tokenizer.rs:684-706 | under ordered junctions the texts of all segments are those of merging one pair at a time |
| `BpeEncoding.MergedToTheEnd` | crates/engine-core/src/tokenizer.rs:684-706 | the texts of a segment spell its bytes and hold no adjacent pair with a rank |
| `BpeEncoding.BpeRoundTrip` | crates/engine-core/src/tokenizer.rs:646-749 | when encoding succeeds, decoding without removal gives the text back if and only if every special token taken is visible ASCII |
| `SpmEncoding.MergeSpmSymbolsByScore` | crates/engine-core/src/tokenizer.rs:990-1017 | merging ends, and in a state that no vocabulary merge avoiding two markers in a row applies to, along best-score leftmost steps |
| `SpmEncoding.BestScorePair` | crates/engine-core/src/tokenizer.rs:990-1017 | the pair merged has the highest score, the leftmost of those |
| `SpmEncoding.SegmentIsMerged` | crates/engine-core/src/tokenizer.rs:950-1017 | a segment without merges ends with no two neighbours that make a word; with merges no two are listed and, under ordered junctions, the symbols are those of merging one pair at a time |
| `SpmEncoding.ScoreMergingKeepsText` | crates/engine-core/src/tokenizer.rs:990-1017 | merging keeps the text |
| `SpmEncoding.EncodePieceGreedy` | crates/engine-core/src/tokenizer.rs:1038-1086 | the ids of the greedy longest-word split, or the first missing byte token |
| `SpmEncoding.LongestWordIsLongest` | crates/engine-core/src/tokenizer.rs:1038-1068 | the word found at a position is in the vocabulary, holds no double marker, and no such word from there is longer; none is found only if there is none |
| `SpmEncoding.GreedyTakesLongest` | crates/engine-core/src/tokenizer.rs:1038-1086 | the greedy split takes the longest word at each place, and a single character where no word starts |
| `SpmEncoding.GreedyKeepsText` | crates/engine-core/src/tokenizer.rs:1038-1086 | the greedy split spells the piece |
| `SpmEncoding.EncodeSpmSegment` | crates/engine-core/src/tokenizer.rs:950-988 | the ids of the merged symbols, the unresolved ones deferred and split greedily together |
| `SpmEncoding.ResolvedStandsAlone` | crates/engine-core/src/tokenizer.rs:950-988 | a symbol in the vocabulary, without a double marker where there are no merges, is a word of its own and parts what is around it |
| `SpmEncoding.UnresolvedSplitTogether` | crates/engine-core/src/tokenizer.rs:950-988 | neighbouring symbols that are not are put together and split greedily |
| `SpmEncoding.SymbolAtomsKeepText` | crates/engine-core/src/tokenizer.rs:950-988 | deferring and splitting keeps the text of the symbols in order |
| `SpmEncoding.EncodePiece` | crates/engine-core/src/tokenizer.rs:879-933 | the ids of the special tokens and segments in order, or the first missing byte token |
| `SpmEncoding.PathByMergesAndParsing` | crates/engine-core/src/tokenizer.rs:879-889 | without merges and without parsing the whole piece is split greedily; otherwise it is scanned |
| `SpmEncoding.SpecialThenDummy` | crates/engine-core/src/tokenizer.rs:886-910 | a special token parsed is one word, then a marker where one is wanted and the vocabulary has it |
| `SpmEncoding.PlainIsASegment` | crates/engine-core/src/tokenizer.rs:912-932 | the text up to the next special token parsed, or to the end, is one segment |
| `SpmEncoding.DummyIffWanted` | crates/engine-core/src/tokenizer.rs:816-846 | a marker follows a special token exactly before text that is not special and has no marker of its own, never between the begin token and "[INST]", always after "[INST]" |
| `SpmEncoding.PieceKeepsText` | crates/engine-core/src/tokenizer.rs:879-933 | without special tokens the pieces spell the normalized text |
| `SpmEncoding.NormalizeSpmText` | crates/engine-core/src/tokenizer.rs:751-814 | the loops yield the marked text with its prefix and the markers after special tokens |
| `SpmEncoding.NormalizedText` | crates/engine-core/src/tokenizer.rs:751-778 | spaces become markers, one marker comes in front unless the vocabulary wants none or parsing finds a special token there |
| `SpmEncoding.SpecialThenMarker` | crates/engine-core/src/tokenizer.rs:780-814 | where specials are not parsed, a special token is kept and a marker follows where one is wanted |
| `SpmEncoding.PlainStays` | crates/engine-core/src/tokenizer.rs:780-814 | ... and a character at which no special token starts stays as it is |
| `SpmEncoding.EncodeUnknownSymbolBytes` | crates/engine-core/src/tokenizer.rs:1019-1036 | the byte tokens of a character's encoding, or the first byte without one |
| `SpmEncoding.ByteIdsAreExact` | crates/engine-core/src/tokenizer.rs:1019-1036 | each byte's id is that of its token or else the unknown token's, and the first byte with neither is reported |
| `SpmRoundTrip.GreedyAtomsFit` | crates/engine-core/src/tokenizer.rs:1038-1086 | bytes are only used for characters the vocabulary does not have |
| `SpmRoundTrip.SpmRoundTrip` | crates/engine-core/src/tokenizer.rs:607-1086 | with all byte tokens and the marker, text free of special-token texts and of byte-token texts the vocabulary holds encodes and decodes to itself behind the configured space, its markers read as spaces; so it is exact if and only if the text has no marker |
| `Encoding.Encode` | crates/engine-core/src/tokenizer.rs:569-602 | begin and end tokens around the body in the model's way, for both models, or the first error |
| `Encoding.BodyDecodes` | crates/engine-core/src/tokenizer.rs:569-603 | each family's ids decode to the text: byte-level exactly when the special tokens taken are visible ASCII, SentencePiece behind the configured space |
| `InProcessQuota.Quota.AdmitRequest` | crates/gateway/src/lib.rs:953-988 | one request updates its entry, after a sweep if the organization is unknown, and answers as the table says |
| `InProcessQuota.SweepChangesNoAnswer` | crates/gateway/src/lib.rs:953-975 | over any run whose readings come in order every answer is that of a table never swept |
| `InProcessQuota.SweepChangesNoAnswerIff` | crates/gateway/src/lib.rs:953-975 | for every limit and window the sweep changes no answer of any run exactly when no reading may lag those that took the lock before it |
| `InProcessQuota.AdmissionsAreSpaced` | crates/gateway/src/lib.rs:977-988 | the first and last of any 2 * limit admissions in a row are a window apart, less a slack: the lag if that is zero or the limit one, else twice the lag less one |
| `InProcessQuota.FewerThanTwiceTheLimit` | crates/gateway/src/lib.rs:928-988 | over any run whose readings lag by at most some bound an organization is admitted fewer than 2 * limit times in any half-open interval shorter than a window by the slack, and at most limit times in each of its windows |
| `InProcessQuota.FewerThanTwiceTheLimitIff` | crates/gateway/src/lib.rs:928-988 | for every limit, window and lag that holds of exactly the interval lengths so bounded: for any longer one there is a run that admits 2 * limit times |
| `InProcessQuota.RetryAfterIsExact` | crates/gateway/src/lib.rs:977-988 | for every table and reading a refused organization is admitted exactly from the end of its window on, and the time reported leads there from the refusal, or from the start of the window if the reading lies before it |
| `SelectorAdmission.NewLimits` | crates/gateway/src/lib.rs:481-523 | limits exist exactly when twice the body fits the machine word and the budget; then the largest number of selectors that fits is allowed |
| `SelectorAdmission.ReachableInv` | crates/gateway/src/lib.rs:859-921 | in every reachable state free and held permits add up for every semaphore, a task's semaphore is its organization's entry, and the global slots add up |
| `SelectorAdmission.OrgHoldsAtMostLimit` | crates/gateway/src/lib.rs:889-920 | in every reachable state an organization's requests hold at most its limit, though entries are dropped and made again |
| `SelectorAdmission.OrgSelectsAtMostLimit` | crates/gateway/src/lib.rs:889-920 | of the requests that hold a global slot at most the limit belong to one organization: none with an identity comes past its semaphore |
| `SelectorAdmission.IdleEntriesGo` | crates/gateway/src/lib.rs:903-920 | a new organization's first request drops exactly the entries no unfinished request uses |
| `SelectorAdmission.ReservedFitsBudget` | crates/gateway/src/lib.rs:481-577 | in every reachable state the bytes reserved by bodies being read fit the budget |
| `SelectorAdmission.DefaultLeavesHalf` | crates/gateway/src/lib.rs:562-577 | with the default limit and at least two slots no organization holds more than half of them |
| `SelectorAdmission.DefaultIsHalf` | crates/gateway/src/lib.rs:562-577 | the default is half the slots rounded down, and at least one |
| `SelectorAdmission.OrgSelectionAdmission.Slot` | crates/gateway/src/lib.rs:903-920 | drops every idle entry but no entry in use, and returns the organization's own |
| `SelectorAdmission.OrgSelectionAdmission.BeginSelection` | crates/gateway/src/lib.rs:889-920 | a new request references its organization's entry before it waits, so a sweep cannot drop it |
| `SelectorAdmission.OrgSelectionAdmission.AcquireOrg` | crates/gateway/src/lib.rs:889-901 | takes a permit exactly when one is free, and changes nothing otherwise |
| `SelectorAdmission.OrgSelectionAdmission.AcquireGlobal` | crates/gateway/src/lib.rs:1554-1590 | takes a slot after the organization's permit exactly when one is free |
| `SelectorAdmission.OrgSelectionAdmission.Drop` | crates/gateway/src/lib.rs:1554-1590 | gives back what the request's phase holds, on success, timeout and cancellation alike |
| `GatewayLog.ReachableInv` | crates/gateway/src/lib.rs:161-363 | the protocol's invariant holds in every reachable state of every interleaving |
| `GatewayLog.RecordsAreConserved` | crates/gateway/src/lib.rs:299-363 | finished, held and queued records are the accepted ones in acceptance order; accepted and dropped add up to the completed writes |
| `GatewayLog.ExactlyOneFlushOwns` | crates/gateway/src/lib.rs:267-291 | once a flush took the channel exactly one flush is not told the log was already stopped |
| `GatewayLog.DrainedMeansFinished` | crates/gateway/src/lib.rs:267-291 | a flush reports the log drained only when every accepted record was finished |
| `GatewayLog.PendingNeverUnderflows` | crates/gateway/src/lib.rs:267-291 | when it is reported, the number pending is that of the accepted records not finished, never saturated |
| `GatewayLog.PendingBoundsTheLoss` | crates/gateway/src/lib.rs:197-204 | in every reachable state from the report on, whatever the writer does, at most as many accepted records are unfinished |
| `GatewayLog.NothingAcceptedAfterFlush` | crates/gateway/src/lib.rs:299-322 | no record is accepted after the channel was taken |
| `GatewayLog.AcceptedIff` | crates/gateway/src/lib.rs:299-334 | a record is accepted exactly if no flush has begun, the writer runs and the queue has room, else dropped |
| `GatewayLog.WrittenCanLeadQueued` | crates/gateway/src/lib.rs:299-322 | the writer may count a record before its sender does, in a reachable state given |
| `GatewayLog.Log.Write` | crates/gateway/src/lib.rs:299-334 | one write queues the record or drops it, and counts it either way |
| `GatewayLog.Log.TakeChannel` | crates/gateway/src/lib.rs:267-291 | the first flush takes both halves, later ones find them gone |
| `GatewayLog.Log.AwaitWriter` | crates/gateway/src/lib.rs:267-291 | reports drained when the writer signalled, and else the records pending by the two counters |
| `GatewayLog.Log.DrainAndExit` | crates/gateway/src/lib.rs:337-363 | with the sender gone the writer finishes every queued record in order before it exits |
| `SharedQuota.PlatformStore.AdmitRequest` | crates/platform-store/src/lib.rs:971-997 | one admission statement inserts, counts up or refuses |
| `SharedQuota.PlatformStore.ConfigureQuota` | crates/platform-store/src/lib.rs:632-712 | the outcomes of configuring, refusals included, and the table each leaves |
| `SharedQuota.PlatformStore.Sweep` | crates/platform-store/src/lib.rs:724-753 | skips exactly when another sweep holds the lock; else deletes only rows of windows past the retention span, whose product saturates, all of them unless the batches run out, and counts them |
| `SharedQuota.WindowIsUnique` | crates/platform-store/src/lib.rs:94-130 | the window start is the only multiple of the window that has begun and not ended |
| `SharedQuota.CountsAreAdmissions` | crates/platform-store/src/lib.rs:94-136 | for any interleaving of replicas, lagging statements, changes of limit and window, sweeps and clock steps the count stored for a window still open to a request is the number of admissions in it since the window was recorded |
| `SharedQuota.LongerLagLosesACount` | crates/platform-store/src/lib.rs:724-753 | the bound on the lag is tight: for every window and every longer lag there is a run in which a limit of one admits twice |
| `SharedQuota.RunHoldsInForce` | crates/platform-store/src/lib.rs:632-712 | in any run store and replicas hold the last configuration asked for that was not refused |
| `SharedQuota.AdmittedIffBelowLimit` | crates/platform-store/src/lib.rs:971-997 | a request is admitted exactly when the admissions of the window are below the limit of that configuration |
| `SharedQuota.ConfiguringReports` | crates/platform-store/src/lib.rs:632-712 | which of the six outcomes configuring reports, and exactly when |
| `SharedQuota.SweptOnceLongOver` | crates/platform-store/src/lib.rs:724-735 | a row is expired exactly when two more windows have passed since its own ended, or the longest span the store can hold |
| `SharedQuota.AdmissionsWithinSomeLimit` | crates/platform-store/src/lib.rs:94-136 | the admissions of a window never exceed the largest limit in force for one of them |
| `SharedQuota.RetryReachesNextWindow` | crates/platform-store/src/lib.rs:971-997 | the retry time of a refusal lies in (0, window] and leads to the next window's first instant, unless that is further off than 32 bits of seconds |
| `SharedQuota.RefusalLeavesNoTrace` | crates/platform-store/src/lib.rs:632-712 | a helper beside `CountsAreAdmissions`: a refused configuration may be struck from any run |
| `SharedQuota.WindowChangeStartsOver` | crates/platform-store/src/lib.rs:632-712 | a helper beside `CountsAreAdmissions`: from a window newly recorded on a run goes on, and counts, as one from an empty store |
| `Evidence.BatchIsEach` | crates/platform-store/src/lib.rs:844-900 | a batch statement stores and counts what one insert a line does, duplicates in the batch and in the table included |
| `Evidence.PlatformStore.InsertEvidence` | crates/platform-store/src/lib.rs:774-804 | one insert, and what it reports; a statement whose answer is lost has done all of it if it was committed, and else nothing |
| `Evidence.PlatformStore.IngestSingly` | crates/platform-store/src/lib.rs:844-900 | the refused batch, retried a line at a time, leaves and counts what single inserts do; on failure a prefix of it is stored, the line whose answer was lost included or not |
| `Evidence.PlatformStore.IngestBatch` | crates/platform-store/src/lib.rs:844-900 | a batch, retried line by line if one record is refused, leaves and counts what single lines do; on failure, a lost answer to a committed batch included, a prefix of it is stored |
| `Evidence.PlatformStore.IngestEvidence` | crates/platform-store/src/lib.rs:811-835 | for every file and batch size the rows and the summary are those of one statement a line; on failure the rows are those of a prefix of the file |
| `Evidence.CountsAddUp` | crates/platform-store/src/lib.rs:811-835 | the counts add up to the lines that are not blank |
| `Evidence.StoredAreRowsGained` | crates/platform-store/src/lib.rs:762-804 | the lines counted as stored are the rows gained |
| `Evidence.UnreadableAreCounted` | crates/platform-store/src/lib.rs:811-900 | the lines counted as unreadable are those, not blank, that are no record or one the database cannot hold |
| `Evidence.RowsAfter` | crates/platform-store/src/lib.rs:762-804 | afterwards the table holds what it held, unchanged, and a row with its own keys for every storable record of the file |
| `Evidence.IngestAgainConverges` | crates/platform-store/src/lib.rs:811-900 | ingesting a file again after any part of it was stored leaves what one ingestion leaves and stores exactly the records missing |
| `Identity.RunKeepsScopes` | crates/identity/src/lib.rs:365-655 | over any run of operations token scopes stay inside memberships and memberships inside users and organizations |
| `Identity.IssueOutcome` | crates/identity/src/lib.rs:509-552 | issuing without an organization fails as unknown, belonging nowhere or ambiguous exactly when the principal is no user, has no membership or has two |
| `Identity.IssueTakesTheOnlyMembership` | crates/identity/src/lib.rs:509-536 | issuing without an organization is issuing in the only one |
| `Identity.ScopedIssueOutcome` | crates/identity/src/lib.rs:763-797 | issuing in an organization fails as unknown principal, unknown organization or no member in this order, and exactly then or on a hash drawn before |
| `Identity.IssuedResolvesIff` | crates/identity/src/lib.rs:763-797 | the token issued resolves exactly while its lifetime lasts, every other as before |
| `Identity.UserCreationOutcome` | crates/identity/src/lib.rs:365-385 | a user created is the only member of one new organization; it fails only on an id drawn before |
| `Identity.UserInOrganizationOutcome` | crates/identity/src/lib.rs:400-420 | a user created in an organization that exists belongs to it alone |
| `Identity.OrganizationOutcome` | crates/identity/src/lib.rs:389-397 | an organization created has no members |
| `Identity.MembershipOutcome` | crates/identity/src/lib.rs:424-503 | adding succeeds exactly for a user and an organization that exist and twice is once; removing exactly for a member, and adding undoes it |
| `Identity.RevokedNeverResolves` | crates/identity/src/lib.rs:648-655 | a revoked token never resolves, every other as before |
| `Identity.WithoutMembershipInvalid` | crates/identity/src/lib.rs:741-761 | a token whose membership is gone neither resolves nor rotates |
| `Identity.RotationOutcome` | crates/identity/src/lib.rs:598-634 | a rotation succeeds exactly for a stored, unexpired token and a fresh secret, and says which of the first two failed |
| `Identity.RotationSwapsOneRow` | crates/identity/src/lib.rs:598-634 | a successful rotation swaps exactly the presented row for one of the same scope; no other table changes |
| `Identity.AtMostOneWinner` | crates/identity/src/lib.rs:598-634 | in any run, whatever comes between, one token is rotated at most once and is gone afterwards |
| `Identity.RaceHasOneWinner` | crates/identity/src/lib.rs:598-634 | of racing rotations of one token exactly one succeeds if any could, and the number of tokens stays |
| `Identity.TokenOutlivesOthers` | crates/identity/src/lib.rs:365-655 | a token's row stays as it was through every operation that names neither the token nor its membership |
| `Identity.TokenKeepsResolving` | crates/identity/src/lib.rs:638-645 | so it resolves at every instant as before |
| `Identity.RemovalRevokesExactly` | crates/identity/src/lib.rs:482-503 | removing a membership invalidates the tokens scoped to it and no other |
| `Identity.RenewalKeepsSpanIff` | crates/identity/src/lib.rs:704-736 | a preserved lifetime's span shrinks by exactly the gap between the two clock readings if and only if no instant leaves the 64-bit range |
| `Identity.ChainShrinksByGaps` | crates/identity/src/lib.rs:598-634 | over any chain of renewals the span shrinks by the sum of the gaps and the scope stays |
| `Identity.ChainKeepsSpan` | crates/identity/src/lib.rs:245-269 | when the readings agree any chain keeps the span |
| `Identity.ReplacementResolvesIff` | crates/identity/src/lib.rs:598-645 | the replacement expires as asked for or, preserved, as long after the reading as the presented token did after its creation, clamped to 64 bits; it resolves exactly until then, the presented token never again |
| `Identity.IdentityStore.Create` | crates/identity/src/lib.rs:365-385 | user, organization and membership appear together or not at all |
| `Identity.IdentityStore.Remove` | crates/identity/src/lib.rs:482-503 | the membership and its tokens go together, or the error says why not and nothing changes |
| `Identity.IdentityStore.IssueToken` | crates/identity/src/lib.rs:509-536 | one row is added or nothing changes, with the error of the first check that fails |
| `Identity.IdentityStore.IssueTokenForOrganization` | crates/identity/src/lib.rs:763-797 | the checks in order: principal, organization, membership |
| `Identity.IdentityStore.RotateToken` | crates/identity/src/lib.rs:598-634 | issue and delete commit together or not at all |
| `Migration.MigrateV1ToV2` | crates/identity/src/lib.rs:949-1024 | runs through exactly when the tables are the legacy ones, no token is orphaned and no two drawn ids collide; then every principal has an organization of its own and its tokens are scoped to it, else the error says which |
| `Migration.RunChain` | crates/identity/src/lib.rs:819-892 | for every file: whether the chain commits, what it leaves, and which error it gives |
| `Migration.ValidUpgrades` | crates/identity/src/lib.rs:819-848 | a file some release left upgrades to a valid version 3 file unless drawn ids collide |
| `Migration.EachPrincipalGainsOne` | crates/identity/src/lib.rs:949-1024 | from legacy and version 1 every principal gains exactly one organization, of which it is the only member |
| `Migration.OldTokensResolve` | crates/identity/src/lib.rs:937-1024 | every token from before expiry keeps hash, principal and creation instant and resolves at every instant; none is added |
| `Migration.LastStepIsUnchecked` | crates/identity/src/lib.rs:937-943 | a version 2 file is marked version 3 whatever its other tables; it validates only if all were there |
| `Migration.ValidatesIffShaped` | crates/identity/src/lib.rs:1037-1067 | a current file validates exactly if it has the shape of one newly made |
| `Migration.CommitsIff` | crates/identity/src/lib.rs:819-892 | for every version, exactly which files the chain commits |
| `Migration.RefusalReasons` | crates/identity/src/lib.rs:819-892 | and why it refuses the others: unsupported, failed integrity or storage |
| `Migration.NewerIsRefused` | crates/identity/src/lib.rs:819-848 | in any run a newer file is refused before the lock is asked for, and left as it is |
| `Migration.OpenersUpgradeOnce` | crates/identity/src/lib.rs:819-848 | for any number of racing openers and any aborts the chain is applied at most once and whole, and whoever is open sees a valid version 3 file |
| `Migration.RacingRefusesNobody` | crates/identity/src/lib.rs:819-870 | with no aborted transaction and no colliding draw no opener is refused |
| `GgufBytes.LeRoundTrip` | crates/engine-core/src/gguf.rs:574-616 | a number written in little-endian order reads back |
| `GgufBytes.StringInverts` | crates/engine-core/src/gguf.rs:618-626 | a string within the limit reads back wherever it stands |
| `GgufLayout.MaskClears` | crates/engine-core/src/gguf.rs:514-520 | in words of any width the mask of a power of two rounds down to its multiple |
| `GgufLayout.AlignsToLeastMultiple` | crates/engine-core/src/gguf.rs:514-520 | the masked alignment is the least multiple not below its input, and fails exactly on overflow |
| `GgufLayout.TensorNBytes` | crates/engine-core/src/gguf.rs:490-512 | succeeds exactly when the type is known, the first dimension is whole blocks and every product on the way fits; then bytes times block size is elements times block bytes, with no remainder |
| `GgufLayout.LayoutIsItsFieldsIff` | crates/engine-core/src/gguf.rs:123-158 | a block's size is the sum of its fields, as the decoders take it apart, for every type but Q5_1 |
| `GgufLayout.Q5_1IsSizedShort` | crates/engine-core/src/gguf.rs:123-158 | so a Q5_1 tensor that is not empty gets fewer bytes than its blocks take |
| `GgufLayout.SizeErrors` | crates/engine-core/src/gguf.rs:490-512 | which of the four checks on a size fails first |
| `GgufLayout.PlaceTensor` | crates/engine-core/src/gguf.rs:403-438 | one descriptor's checks: exactly when it is accepted, and which error it gives |
| `GgufLayout.PlacementErrors` | crates/engine-core/src/gguf.rs:403-438 | which check on a descriptor fails first |
| `GgufRoundTrip.HeaderRoundTrip` | crates/engine-core/src/gguf.rs:313-388 | reading a written header gives back its counts, metadata and descriptors and stops at its end, whatever follows |
| `GgufRoundTrip.HeaderIsLocal` | crates/engine-core/src/gguf.rs:524-626 | reading depends on no byte past the descriptors |
| `GgufRoundTrip.ValueInverts` | crates/engine-core/src/gguf.rs:452-488 | every value within the limits, arrays of one scalar type included, reads back |
| `GgufRoundTrip.RepeatInverts` | crates/engine-core/src/gguf.rs:340-388 | a reading loop gives back the items written one after the other |
| `GgufRoundTrip.RepeatIsLocal` | crates/engine-core/src/gguf.rs:340-388 | a loop whose turns depend only on the bytes they consume does so too |
| `Gguf.PrefixParsesAlike` | crates/engine-core/src/gguf.rs:306-320 | a header prefix parses, with the declared length, as the whole file |
| `Gguf.ParseRoundTrip` | crates/engine-core/src/gguf.rs:313-450 | parsing a written file gives what its header and the declared length determine: metadata and descriptors, or the error about the layout |
| `Gguf.AcceptedFileTiles` | crates/engine-core/src/gguf.rs:390-450 | in every accepted file the data starts at the first aligned place after the descriptors and the tensors tile it: aligned, in order, with gaps below the alignment, inside the declared length |
| `GgufLayout.TilingIsAccepted` | crates/engine-core/src/gguf.rs:400-438 | whatever tiles the region under distinct names is accepted |
| `Gguf.HeaderInLimits` | crates/engine-core/src/gguf.rs:313-388 | a header read begins with the magic and a known version and holds as many entries and descriptors as it says, all within the limits a writer keeps |
| `Gguf.OtherFilesAreRefused` | crates/engine-core/src/gguf.rs:313-325 | another magic or version is refused as such whatever follows |
| `Gguf.AnyOtherByteIsTrue` | crates/engine-core/src/gguf.rs:452-465 | any byte but zero reads as true |
| `Gguf.AlignmentIs` | crates/engine-core/src/gguf.rs:347-359 | the alignment is 32, or an unsigned power of two the metadata gives, and else the error says which it is not |
| `Gguf.AcceptedTensorsAreDisjoint` | crates/engine-core/src/gguf.rs:390-438 | no two tensors of an accepted file share a byte or a name |
| `Gguf.AlignmentFits` | crates/engine-core/src/gguf.rs:347-359 | the alignment read fits 64 bits |
| `Gguf.ReadMetadataWithLen` | crates/engine-core/src/gguf.rs:313-450 | the parser as written returns what the format's definition says, for every byte string |
| `Gguf.Cursor.TakeArray` | crates/engine-core/src/gguf.rs:466-482 | reads an array as defined, with the checks in the source's order |
| `Gguf.Cursor.TakeMetadata` | crates/engine-core/src/gguf.rs:340-346 | reads the entries and refuses the first key met twice |
| `Gguf.PlaceTensors` | crates/engine-core/src/gguf.rs:400-438 | accepts the descriptors exactly when they tile the data, else with the first error |
| `Q8Dot.MaddExact` | crates/engine-windows/src/q8_dot.rs:224-252 | pairs of products never wrap a 32-bit lane, -128 times -128 twice included |
| `Q8Dot.HorizontalSumExact` | crates/engine-windows/src/q8_dot.rs:209-222 | the shuffles and adds end with the sum of all lanes in the first |
| `Q8Dot.Avx2IsExact` | crates/engine-windows/src/q8_dot.rs:237-252 | the AVX2 block kernel computes the plain sum of products for all signed bytes |
| `Q8Dot.DotprodIsExact` | crates/engine-macos/src/q8_dot.rs:144-171 | so does the SDOT kernel, with its groups of four |
| `Q8Dot.NeonMulIsExact` | crates/engine-macos/src/q8_dot.rs:179-212 | and the widening multiply, with its 16-bit products and pairwise sums |
| `Q8Dot.IdiomIsExactIff` | crates/engine-windows/src/q8_dot.rs:32-53 | the byte idiom not used is right on exactly the pairs with no negative weight against an input of -128 |
| `Q8Dot.DotRowsAvx2` | crates/engine-windows/src/q8_dot.rs:277-287 | rows of any lengths reduce, in order from the left, over their common prefix |
| `Q8Dot.DotRowsDotprod` | crates/engine-macos/src/q8_dot.rs:223-236 | to the same value |
| `Q8Dot.DotRowsNeonMul` | crates/engine-macos/src/q8_dot.rs:241-250 | and the same again |
| `Q8Dot.RowSumAddsTerms` | crates/engine-core/src/tensor/q8_dot.rs:169-178 | each block adds one term after those before it, from its integer product, the weight's scale and the input's in this order |
| `Q8Quantize.RoundingIsHalfAway` | crates/engine-windows/src/q8_dot.rs:311-380 | clamp, round to even and fix-up give round-half-away, then clamp, for every real, NaN and infinity |
| `Q8Quantize.NeverSaturates` | crates/engine-windows/src/q8_dot.rs:430-447 | bytes pass both packs unchanged |
| `Q8Quantize.StoredInOrder` | crates/engine-windows/src/q8_dot.rs:430-447 | the permutation puts the packed bytes in the order of the values |
| `Q8Quantize.EveryByteIsItsQuant` | crates/engine-windows/src/q8_dot.rs:430-447 | from the scaled values on, byte j stored is the rounded and clamped value j |
| `Q8Block.QuantizeBlock` | crates/engine-core/src/tensor/q8_dot.rs:104-122 | the reference: the loops give the block of the largest magnitude among the numbers |
| `Q8Block.ReferenceWrittenOut` | crates/engine-core/src/tensor/q8_dot.rs:104-122 | the scale stored is that of the largest magnitude through f16, the bytes are made with the reciprocal of the scale before it, or with zero if that is zero |
| `Q8Block.ZerosStayZero` | crates/engine-core/src/tensor/q8_dot.rs:112-116 | a block of zeros gives zero bytes whatever the reciprocal of zero is |
| `Q8Block.QuantizeBlockAvx2` | crates/engine-windows/src/q8_dot.rs:404-466 | for every block and whatever the arithmetic rounds to, the AVX2 kernel returns the reference's scale and bytes |
| `Q8Block.MaxAbsIsMax` | crates/engine-core/src/tensor/q8_dot.rs:106-108 | the fold gives the greatest magnitude of the numbers, or zero, whatever their order |
| `Q8Block.NeonByteIsQuant` | crates/engine-macos/src/q8_dot.rs:336-374 | the clamp, the convert and the two narrowings give the reference's byte for every value |
| `Q8Block.NeonMaxAgreesIff` | crates/engine-macos/src/q8_dot.rs:280-299 | the NEON maximum is the reference's exactly when NaN at even positions, if any, meets none at odd ones and a number there at least as large, and the other way round |
| `Q8Block.NeonIsReferenceIff` | crates/engine-macos/src/q8_dot.rs:258-376 | the whole NEON block is the reference's for every arithmetic exactly then, and so for every block of numbers |
| `Q8Block.NeonLosesTheBlock` | crates/engine-macos/src/q8_dot.rs:258-376 | with NaN at an even and at an odd position the NEON scale is NaN and all bytes zero, while the reference's scale is a number |
| `HalfFloat.ToHalfIsNearestEven` | crates/engine-core/src/tensor/blocks.rs:53-92 | conversion to 16 bits keeps the sign and takes every finite magnitude to the nearest half, ties to even, subnormals and overflow included (binary16 and binary32 of IEEE 754) |
| `HalfFloat.ToHalfKeepsSpecials` | crates/engine-core/src/tensor/blocks.rs:58-66 | infinity stays infinity and NaN stays NaN, with their sign |
| `HalfFloat.ToFloatBits` | crates/engine-core/src/tensor/blocks.rs:96-124 | the loop that normalizes a subnormal half ends, and the conversion as written is the one the next two rows speak of |
| `HalfFloat.ToFloatIsExact` | crates/engine-core/src/tensor/blocks.rs:96-124 | conversion to 32 bits keeps the sign and every finite magnitude exactly |
| `HalfFloat.HalfRoundTripIff` | crates/engine-core/src/tensor/blocks.rs:53-124 | all 65536 halves come back from 32 bits unchanged, except that a signaling NaN comes back quiet |

## Left out

- HTTP handlers, routing, request validation, TLS, connection pools, the command line and error bodies: plumbing without a deep invariant.
- The forward pass, key-value cache and tensor kernels: not part of this model.
- Rounding of 32-bit division, reciprocal and product, and the sign of zero: Dafny has no IEEE arithmetic.
- Blocks of another length than 32: the callers cut the input into whole blocks, and a kernel hands any other to the reference.
- Unicode tables and CPU feature detection: constant data.
- SHA-256, randomness, the operating system's clock: given as parameters.
- Fairness and wake-up order of the semaphores, and acquisition timeouts as times: any order is allowed.
- Durability and I/O errors of the log writer: a record finished is a record the writer is done with.
- Replicas that keep running with a window another one has replaced: the shared quota is proved for replicas that hold the recorded one.
- The SQL text itself: statements are atomic relational steps.
- Creation instants of users, organizations and memberships, listing users and organizations, and their order: they decide nothing here.
- Identity operations of one or two statements (adding a member, creating an organization, a user in one, revoking) are functions of a run only, without a method.
- Storage failures inside an identity transaction: a transaction commits whole or leaves the tables as they were.
- WAL mode, busy timeouts and the reading of a file that is being replaced: the write lock is exclusive and waiting for it ends.
- Typed metadata accessors, chat-template and special-token configuration: each is one look-up in the metadata parsed here.
- SpmRoundTrip.SpmRoundTrip: is stated for non-empty text; the empty text encodes to nothing and has no space to decode.
- Vocabulary.BuildVocabulary: special-token ids and configuration flags read after the loop are inputs.
- Q8Quantize.EveryByteIsItsQuant: is about the values after scaling; `Q8Block.QuantizeBlockAvx2` is about the block.
