/** The byte-level BPE pre-tokenizer: a hand-written scanner that cuts text into
    the segments an ordered seven-branch regular expression would match. The
    Unicode character classes are parameters. */
module PreTokenizer {
  import opened Wrappers
  import opened BpeMerge
  import opened Regex

  /** `is_alphabetic`, `is_numeric`, `is_whitespace` and the generated mark table. */
  datatype Classes = Classes(letter: Class, number: Class, whitespace: Class, mark: Class)

  datatype Dialect = Llama3 | Qwen2 | Qwen35 {
    function DigitGroupMax(): nat {
      if Llama3? then 3 else 1
    }

    predicate FoldMarks() {
      Qwen35?
    }

    function RulesFor(classes: Classes): Rules {
      Rules(classes, FoldMarks())
    }
  }

  predicate IsNewline(c: char) {
    c == '\r' || c == '\n'
  }

  predicate IsSpaceChar(c: char) {
    c == ' '
  }

  datatype Rules = Rules(classes: Classes, foldMarks: bool) {
    predicate Letter(c: char) {
      classes.letter(c) || (foldMarks && classes.mark(c))
    }

    predicate Number(c: char) {
      classes.number(c)
    }

    predicate Whitespace(c: char) {
      classes.whitespace(c)
    }

    predicate Punctuation(c: char) {
      !Whitespace(c) && !Letter(c) && !Number(c)
    }

    predicate NotWhitespace(c: char) {
      !Whitespace(c)
    }

    /** The optional character before letters; marks stay out of its exclusions. */
    predicate MayPrefixLetters(c: char) {
      !IsNewline(c) && !classes.letter(c) && !Number(c)
    }

    /** The space and the two newline characters are whitespace. */
    ghost predicate Sound() {
      Whitespace(' ') && Whitespace('\r') && Whitespace('\n')
    }
  }

  // ------------------------------------------------------------- contractions

  function AsciiLower(c: char): char {
    if 'A' <= c <= 'Z' then (c as int + 32) as char else c
  }

  function AsciiLowerText(s: string): string {
    seq(|s|, i requires 0 <= i < |s| => AsciiLower(s[i]))
  }

  const CONTRACTIONS: seq<string> := ["'s", "'t", "'re", "'ve", "'m", "'ll", "'d"]

  /** An apostrophe and lower-case letters, none an s except in "'s". */
  predicate IsSuffix(s: string) {
    && 2 <= |s|
    && s[0] == '\''
    && (forall k :: 1 <= k < |s| ==> 'a' <= s[k] <= 'z')
    && ('s' in s ==> s == "'s")
  }

  predicate AreSuffixes(suffixes: seq<string>) {
    forall k :: 0 <= k < |suffixes| ==> IsSuffix(suffixes[k])
  }

  lemma ContractionsAreSuffixes()
    ensures AreSuffixes(CONTRACTIONS)
  {
  }

  predicate EqualsAt(text: string, i: nat, suffix: string) {
    i + |suffix| <= |text| && AsciiLowerText(text[i..i + |suffix|]) == AsciiLowerText(suffix)
  }

  function FirstContraction(text: string, i: nat, suffixes: seq<string>): (end: Option<nat>)
    requires forall k :: 0 <= k < |suffixes| ==> suffixes[k] != ""
    ensures end.Some? ==> i < end.value <= |text|
  {
    if suffixes == [] then None
    else if EqualsAt(text, i, suffixes[0]) then Some(i + |suffixes[0]|)
    else FirstContraction(text, i, suffixes[1..])
  }

  function ConsumeContraction(text: string, i: nat): (end: Option<nat>)
    ensures end.Some? ==> i < end.value <= |text|
  {
    FirstContraction(text, i, CONTRACTIONS)
  }

  // ----------------------------------------- where each branch ends a segment

  function PrefixLettersEnd(rules: Rules, text: string, i: nat): (end: Option<nat>)
    requires i < |text|
    ensures end.Some? ==> i < end.value <= |text|
  {
    if rules.Letter(text[i]) then Some(Run(rules.Letter, text, i))
    else if IsNewline(text[i]) || rules.Number(text[i]) then None
    else if i + 1 < |text| && rules.Letter(text[i + 1]) then Some(Run(rules.Letter, text, i + 1))
    else None
  }

  function SpacePunctuationEnd(rules: Rules, text: string, i: nat): (end: Option<nat>)
    requires i < |text|
    ensures end.Some? ==> i < end.value <= |text|
  {
    var start := if text[i] == ' ' then i + 1 else i;
    if start < |text| && rules.Punctuation(text[start])
    then Some(Run(IsNewline, text, Run(rules.Punctuation, text, start))) else None
  }

  /** The end of the last newline before `high`. */
  function LastNewlineEnd(text: string, i: nat, high: nat): (end: Option<nat>)
    requires i <= high <= |text|
    ensures end.Some? ==> i < end.value <= high && IsNewline(text[end.value - 1])
    ensures var from := if end.Some? then end.value else i;
            forall j :: from <= j < high ==> !IsNewline(text[j])
    decreases high
  {
    if high == i then None
    else if IsNewline(text[high - 1]) then Some(high)
    else LastNewlineEnd(text, i, high - 1)
  }

  function WhitespaceEnd(rules: Rules, text: string, i: nat): (end: nat)
    requires i < |text| && rules.Whitespace(text[i])
    ensures i < end <= |text|
  {
    var run := Run(rules.Whitespace, text, i);
    if run == |text| then run else if run - i > 1 then run - 1 else run
  }

  /** The branches for text that starts with neither a letter nor a number. */
  function SpacesEnd(rules: Rules, text: string, i: nat): (end: nat)
    requires i < |text| && rules.Sound()
    ensures i < end <= |text|
  {
    var newline := LastNewlineEnd(text, i, Run(rules.Whitespace, text, i));
    if SpacePunctuationEnd(rules, text, i).Some? then SpacePunctuationEnd(rules, text, i).value
    else if newline.Some? then newline.value
    else if rules.Whitespace(text[i]) then WhitespaceEnd(rules, text, i)
    else i + 1
  }

  function SegmentEnd(rules: Rules, cap: nat, text: string, i: nat): (end: nat)
    requires i < |text| && rules.Sound() && cap >= 1
    ensures i < end <= |text|
  {
    var contraction := ConsumeContraction(text, i);
    var letters := PrefixLettersEnd(rules, text, i);
    if contraction.Some? then contraction.value
    else if letters.Some? then letters.value
    else if rules.Number(text[i]) then CappedRun(rules.Number, text, i, cap)
    else SpacesEnd(rules, text, i)
  }

  // ------------------------------------------------- the regular expression

  /** How a letter of a contraction matches regardless of case. */
  function AsciiFold(c: char): Class {
    x => AsciiLower(x) == AsciiLower(c)
  }

  function Literal(fold: char -> Class, s: string): Regex
    requires s != ""
  {
    if |s| == 1 then One(fold(s[0])) else Then(One(fold(s[0])), Literal(fold, s[1..]))
  }

  function AnyOf(fold: char -> Class, suffixes: seq<string>): Regex
    requires suffixes != [] && forall k :: 0 <= k < |suffixes| ==> suffixes[k] != ""
  {
    if |suffixes| == 1 then Literal(fold, suffixes[0])
    else Or(Literal(fold, suffixes[0]), AnyOf(fold, suffixes[1..]))
  }

  function ContractionsRegex(fold: char -> Class): Regex {
    AnyOf(fold, CONTRACTIONS)
  }

  /** [^\r\n\p{L}\p{N}]?\p{L}+, the letters joined by marks when they fold. */
  function LettersRegex(rules: Rules): Regex {
    Then(Maybe(rules.MayPrefixLetters), Plus(rules.Letter))
  }

  /** \p{N}{1,cap} */
  function DigitsRegex(rules: Rules, cap: nat): Regex {
    Repeat(rules.Number, 1, Some(cap))
  }

  /** ` ?[^\s\p{L}\p{N}]+[\r\n]*` */
  function PunctuationRegex(rules: Rules): Regex {
    Then(Maybe(IsSpaceChar), Then(Plus(rules.Punctuation), Star(IsNewline)))
  }

  /** \s*[\r\n]+ */
  function NewlinesRegex(rules: Rules): Regex {
    Then(Star(rules.Whitespace), Plus(IsNewline))
  }

  /** \s+(?!\S) */
  function TrailingSpaceRegex(rules: Rules): Regex {
    Then(Plus(rules.Whitespace), NotBefore(rules.NotWhitespace))
  }

  function SpacesRegex(rules: Rules): Regex {
    Or(PunctuationRegex(rules), Or(NewlinesRegex(rules), Or(TrailingSpaceRegex(rules), Plus(rules.Whitespace))))
  }

  /** The seven branches in order; `fold` says how contractions ignore case. */
  function SegmentRegex(rules: Rules, cap: nat, fold: char -> Class): Regex {
    Or(ContractionsRegex(fold), Or(LettersRegex(rules), Or(DigitsRegex(rules, cap), SpacesRegex(rules))))
  }

  // ------------------------------------------- the scanner is the expression

  predicate FoldedAt(fold: char -> Class, text: string, i: nat, s: string) {
    i + |s| <= |text| && forall k :: 0 <= k < |s| ==> fold(s[k])(text[i + k])
  }

  lemma {:induction false} LiteralMatch(fold: char -> Class, s: string, text: string, i: nat)
    requires s != "" && i <= |text|
    ensures Match(Literal(fold, s), text, i) == if FoldedAt(fold, text, i, s) then Some(i + |s|) else None
  {
    if |s| == 1 {
      MatchRepeat(fold(s[0]), 1, Some(1), text, i);
      assert CappedRun(fold(s[0]), text, i, 1) == if i < |text| && fold(s[0])(text[i]) then i + 1 else i;
    } else {
      MatchOneThen(fold(s[0]), Literal(fold, s[1..]), text, i);
      if i < |text| && fold(s[0])(text[i]) {
        LiteralMatch(fold, s[1..], text, i + 1);
        FoldedAtTail(fold, text, i, s);
      }
    }
  }

  lemma FoldedAtTail(fold: char -> Class, text: string, i: nat, s: string)
    requires s != "" && i < |text| && fold(s[0])(text[i])
    ensures FoldedAt(fold, text, i, s) <==> FoldedAt(fold, text, i + 1, s[1..])
  {
    if FoldedAt(fold, text, i + 1, s[1..]) {
      forall k | 0 <= k < |s| ensures fold(s[k])(text[i + k]) {
        assert k > 0 ==> fold(s[1..][k - 1])(text[i + 1 + (k - 1)]);
      }
    } else if FoldedAt(fold, text, i, s) {
      forall k | 0 <= k < |s| - 1 ensures fold(s[1..][k])(text[i + 1 + k]) {
        assert fold(s[k + 1])(text[i + (k + 1)]);
      }
    }
  }

  lemma FoldedIsEquals(text: string, i: nat, s: string)
    ensures FoldedAt(AsciiFold, text, i, s) <==> EqualsAt(text, i, s)
  {
    if i + |s| <= |text| {
      var low, want := AsciiLowerText(text[i..i + |s|]), AsciiLowerText(s);
      assert forall k :: 0 <= k < |s| ==> (low[k] == want[k] <==> AsciiFold(s[k])(text[i + k]));
      assert low == want <==> forall k :: 0 <= k < |s| ==> low[k] == want[k];
    }
  }

  lemma {:induction false} ContractionMatch(suffixes: seq<string>, text: string, i: nat)
    requires suffixes != [] && forall k :: 0 <= k < |suffixes| ==> suffixes[k] != ""
    requires i <= |text|
    ensures Match(AnyOf(AsciiFold, suffixes), text, i) == FirstContraction(text, i, suffixes)
  {
    LiteralMatch(AsciiFold, suffixes[0], text, i);
    FoldedIsEquals(text, i, suffixes[0]);
    if |suffixes| > 1 {
      ContractionMatch(suffixes[1..], text, i);
      MatchOr(Literal(AsciiFold, suffixes[0]), AnyOf(AsciiFold, suffixes[1..]), text, i);
    }
  }

  lemma LettersMatch(rules: Rules, text: string, i: nat)
    requires i < |text|
    ensures Match(LettersRegex(rules), text, i) == PrefixLettersEnd(rules, text, i)
  {
    MatchMaybeThen(rules.MayPrefixLetters, Plus(rules.Letter), text, i);
    MatchRepeat(rules.Letter, 1, None, text, i);
    MatchRepeat(rules.Letter, 1, None, text, i + 1);
    RunStep(rules.Letter, text, i);
  }

  lemma RunStep(cls: Class, text: string, i: nat)
    requires i < |text|
    ensures Run(cls, text, i) == if cls(text[i]) then Run(cls, text, i + 1) else i
  {
  }

  lemma DigitsMatch(rules: Rules, cap: nat, text: string, i: nat)
    requires i < |text| && rules.Sound() && cap >= 1
    ensures Match(DigitsRegex(rules, cap), text, i) ==
            if rules.Number(text[i]) then Some(CappedRun(rules.Number, text, i, cap)) else None
  {
    MatchRepeat(rules.Number, 1, Some(cap), text, i);
  }

  lemma PunctuationMatch(rules: Rules, text: string, i: nat)
    requires i < |text| && rules.Sound()
    ensures Match(PunctuationRegex(rules), text, i) == SpacePunctuationEnd(rules, text, i)
  {
    var tail := Then(Plus(rules.Punctuation), Star(IsNewline));
    MatchMaybeThen(IsSpaceChar, tail, text, i);
    PunctuationRunMatch(rules, text, i);
    PunctuationRunMatch(rules, text, i + 1);
  }

  lemma PunctuationRunMatch(rules: Rules, text: string, i: nat)
    requires i <= |text|
    ensures Match(Then(Plus(rules.Punctuation), Star(IsNewline)), text, i) ==
            if i < |text| && rules.Punctuation(text[i])
            then Some(Run(IsNewline, text, Run(rules.Punctuation, text, i))) else None
  {
    var run := Run(rules.Punctuation, text, i);
    MatchRepeat(IsNewline, 0, None, text, run);
    if i < |text| && rules.Punctuation(text[i]) {
      MatchRepeatThen(rules.Punctuation, 1, Star(IsNewline), text, i, run);
    } else {
      NoMatchRepeatThen(rules.Punctuation, 1, Star(IsNewline), text, i);
    }
  }

  lemma NewlineRunMatch(text: string, e: nat)
    requires e <= |text|
    ensures Match(Plus(IsNewline), text, e) ==
            if e < |text| && IsNewline(text[e]) then Some(Run(IsNewline, text, e + 1)) else None
  {
    MatchRepeat(IsNewline, 1, None, text, e);
    if e < |text| {
      RunStep(IsNewline, text, e);
    }
  }

  lemma NoNewlineRunIn(text: string, from: nat, high: nat)
    requires high <= |text| && forall j :: from <= j < high ==> !IsNewline(text[j])
    requires high < |text| ==> !IsNewline(text[high])
    ensures forall e: nat :: from <= e <= high ==> Match(Plus(IsNewline), text, e).None?
  {
    forall e: nat | from <= e <= high ensures Match(Plus(IsNewline), text, e).None? {
      NewlineRunMatch(text, e);
    }
  }

  lemma NewlinesMatch(rules: Rules, text: string, i: nat)
    requires i < |text| && rules.Sound()
    ensures Match(NewlinesRegex(rules), text, i) == LastNewlineEnd(text, i, Run(rules.Whitespace, text, i))
  {
    var run := Run(rules.Whitespace, text, i);
    var last := LastNewlineEnd(text, i, run);
    assert run < |text| ==> !IsNewline(text[run]);
    if last.Some? {
      var at := last.value - 1;
      NoNewlineRunIn(text, at + 1, run);
      NewlineRunMatch(text, at);
      RunExtends(IsNewline, text, at + 1, at + 1);
      MatchRepeatThen(rules.Whitespace, 0, Plus(IsNewline), text, i, at);
    } else {
      NoNewlineRunIn(text, i, run);
      NoMatchRepeatThen(rules.Whitespace, 0, Plus(IsNewline), text, i);
    }
  }

  lemma RunExtends(cls: Class, text: string, i: nat, j: nat)
    requires i <= j <= |text| && forall k :: i <= k < j ==> cls(text[k])
    requires j == |text| || !cls(text[j])
    ensures Run(cls, text, i) == j
  {
  }

  lemma TrailingSpaceMatch(rules: Rules, text: string, i: nat)
    requires i < |text|
    ensures var run := Run(rules.Whitespace, text, i);
            Match(TrailingSpaceRegex(rules), text, i) ==
            if run == |text| then Some(run) else if run - i > 1 then Some(run - 1) else None
  {
    var ahead := NotBefore(rules.NotWhitespace);
    var run := Run(rules.Whitespace, text, i);
    forall e: nat | i <= e <= run
      ensures Match(ahead, text, e) == if e < |text| && e == run then None else Some(e)
    {
    }
    if run == |text| {
      MatchRepeatThen(rules.Whitespace, 1, ahead, text, i, run);
    } else if run - i > 1 {
      MatchRepeatThen(rules.Whitespace, 1, ahead, text, i, run - 1);
    } else {
      NoMatchRepeatThen(rules.Whitespace, 1, ahead, text, i);
    }
  }

  lemma SpacesMatch(rules: Rules, text: string, i: nat)
    requires i < |text| && rules.Sound()
    requires !rules.Number(text[i]) && !rules.Letter(text[i])
    ensures Match(SpacesRegex(rules), text, i) == Some(SpacesEnd(rules, text, i))
  {
    var blank := Or(TrailingSpaceRegex(rules), Plus(rules.Whitespace));
    MatchOr(PunctuationRegex(rules), Or(NewlinesRegex(rules), blank), text, i);
    MatchOr(NewlinesRegex(rules), blank, text, i);
    MatchOr(TrailingSpaceRegex(rules), Plus(rules.Whitespace), text, i);
    PunctuationMatch(rules, text, i);
    NewlinesMatch(rules, text, i);
    TrailingSpaceMatch(rules, text, i);
    MatchRepeat(rules.Whitespace, 1, None, text, i);
    if !rules.Whitespace(text[i]) {
      assert rules.Punctuation(text[i]);
    }
  }

  /** The branches after the contractions. */
  lemma LaterBranchesMatch(rules: Rules, cap: nat, text: string, i: nat)
    requires i < |text| && rules.Sound() && cap >= 1 && ConsumeContraction(text, i).None?
    ensures Match(Or(LettersRegex(rules), Or(DigitsRegex(rules, cap), SpacesRegex(rules))), text, i)
         == Some(SegmentEnd(rules, cap, text, i))
  {
    MatchOr(LettersRegex(rules), Or(DigitsRegex(rules, cap), SpacesRegex(rules)), text, i);
    MatchOr(DigitsRegex(rules, cap), SpacesRegex(rules), text, i);
    LettersMatch(rules, text, i);
    DigitsMatch(rules, cap, text, i);
    if !rules.Number(text[i]) && PrefixLettersEnd(rules, text, i).None? {
      SpacesMatch(rules, text, i);
    }
  }

  /** The scanner ends every segment where the expression's match ends, and the
      expression always matches. */
  lemma SegmentEndIsRegexMatch(rules: Rules, cap: nat, text: string, i: nat)
    requires i < |text| && rules.Sound() && cap >= 1
    ensures Match(SegmentRegex(rules, cap, AsciiFold), text, i) == Some(SegmentEnd(rules, cap, text, i))
  {
    var later := Or(LettersRegex(rules), Or(DigitsRegex(rules, cap), SpacesRegex(rules)));
    MatchOr(ContractionsRegex(AsciiFold), later, text, i);
    ContractionMatch(CONTRACTIONS, text, i);
    if ConsumeContraction(text, i).None? {
      LaterBranchesMatch(rules, cap, text, i);
    }
  }

  // ------------------------------------------------ the expression of a dialect

  /** An ASCII letter, given in lower case, in either case; anything else as it is. */
  function EitherCase(c: char): Class {
    x => x == c || ('a' <= c <= 'z' && x as int + 32 == c as int)
  }

  function Apostrophe(letters: string): Regex
    requires 1 <= |letters| <= 2
  {
    if |letters| == 1 then Then(One(EitherCase('\'')), One(EitherCase(letters[0])))
    else Then(One(EitherCase('\'')), Then(One(EitherCase(letters[0])), One(EitherCase(letters[1]))))
  }

  function AnyApostrophe(words: seq<string>): Regex
    requires words != [] && forall k :: 0 <= k < |words| ==> 1 <= |words[k]| <= 2
  {
    if |words| == 1 then Apostrophe(words[0]) else Or(Apostrophe(words[0]), AnyApostrophe(words[1..]))
  }

  function ContractionsWritten(): Regex {
    AnyApostrophe(["s", "t", "re", "ve", "m", "ll", "d"])
  }

  /** \p{L}, with \p{M} where the dialect folds marks. */
  function DialectLetter(dialect: Dialect, c: Classes): Class {
    x => c.letter(x) || (dialect == Qwen35 && c.mark(x))
  }

  /** An optional character that is no newline, letter or number, and letters. */
  function DialectLetters(dialect: Dialect, c: Classes): Regex {
    Then(Repeat((x: char) => x != '\r' && x != '\n' && !c.letter(x) && !c.number(x), 0, Some(1)),
         Repeat(DialectLetter(dialect, c), 1, None))
  }

  /** One to three numbers, or one. */
  function DialectDigits(dialect: Dialect, c: Classes): Regex {
    Repeat(c.number, 1, Some(if dialect == Llama3 then 3 else 1))
  }

  function NewlineClass(): Class {
    x => x == '\r' || x == '\n'
  }

  /** An optional space, characters of none of the classes, and newlines. */
  function DialectPunctuation(dialect: Dialect, c: Classes): Regex {
    Then(Repeat((x: char) => x == ' ', 0, Some(1)),
         Then(Repeat((x: char) => !c.whitespace(x) && !DialectLetter(dialect, c)(x) && !c.number(x), 1, None),
              Repeat(NewlineClass(), 0, None)))
  }

  /** Whitespace up to newlines, whitespace not before other text, whitespace. */
  function DialectSpaces(c: Classes): Regex {
    Or(Then(Repeat(c.whitespace, 0, None), Repeat(NewlineClass(), 1, None)),
       Or(Then(Repeat(c.whitespace, 1, None), NotBefore((x: char) => !c.whitespace(x))),
          Repeat(c.whitespace, 1, None)))
  }

  function DialectBranches(dialect: Dialect, c: Classes): Regex {
    Or(DialectLetters(dialect, c), Or(DialectDigits(dialect, c), Or(DialectPunctuation(dialect, c), DialectSpaces(c))))
  }

  /** The expression each dialect is documented with, in the Unicode classes. */
  function DialectRegex(dialect: Dialect, c: Classes): Regex {
    Or(ContractionsWritten(), DialectBranches(dialect, c))
  }

  ghost predicate SameClass(a: Class, b: Class) {
    forall c :: a(c) == b(c)
  }

  /** The same expression, in classes that hold the same characters. */
  ghost predicate SameRegex(a: Regex, b: Regex) {
    match (a, b)
    case (Repeat(c, m, x), Repeat(d, n, y)) => SameClass(c, d) && m == n && x == y
    case (Then(c, d), Then(x, y)) => SameRegex(c, x) && SameRegex(d, y)
    case (Or(c, d), Or(x, y)) => SameRegex(c, x) && SameRegex(d, y)
    case (NotBefore(c), NotBefore(d)) => SameClass(c, d)
    case _ => false
  }

  lemma {:induction false} SameRun(a: Class, b: Class, text: string, i: nat, max: nat)
    requires SameClass(a, b) && i <= |text|
    ensures CappedRun(a, text, i, max) == CappedRun(b, text, i, max)
    decreases max
  {
    if max > 0 && i < |text| && a(text[i]) {
      SameRun(a, b, text, i + 1, max - 1);
    }
  }

  lemma {:induction false} SameEnds(a: Regex, b: Regex, text: string, i: nat)
    requires SameRegex(a, b) && i <= |text|
    ensures Ends(a, text, i) == Ends(b, text, i)
    decreases a, 0
  {
    match a
    case Repeat(cls, _, max) => SameRun(cls, b.cls, text, i, if max.None? then |text| - i else max.value);
    case Then(first, second) =>
      SameEnds(first, b.first, text, i);
      SameEndsAfter(second, b.second, text, i, Ends(first, text, i));
    case Or(first, second) =>
      SameEnds(first, b.first, text, i);
      SameEnds(second, b.second, text, i);
    case NotBefore(_) =>
  }

  lemma {:induction false} SameEndsAfter(a: Regex, b: Regex, text: string, i: nat, starts: seq<nat>)
    requires SameRegex(a, b) && i <= |text| && Within(starts, i, |text|)
    ensures EndsAfter(a, text, i, starts) == EndsAfter(b, text, i, starts)
    decreases a, 1 + |starts|
  {
    if starts != [] {
      SameEnds(a, b, text, starts[0]);
      SameEndsAfter(a, b, text, i, starts[1..]);
    }
  }

  lemma SameOr(a: Regex, b: Regex, c: Regex, d: Regex)
    requires SameRegex(a, c) && SameRegex(b, d)
    ensures SameRegex(Or(a, b), Or(c, d)) && SameRegex(Then(a, b), Then(c, d))
  {
  }

  lemma SameRepeat(a: Class, b: Class, min: nat, max: Option<nat>)
    requires SameClass(a, b)
    ensures SameRegex(Repeat(a, min, max), Repeat(b, min, max)) && SameRegex(NotBefore(a), NotBefore(b))
  {
  }

  lemma SameOne(c: char)
    requires c == '\'' || 'a' <= c <= 'z'
    ensures SameRegex(One(EitherCase(c)), One(AsciiFold(c)))
  {
    SameRepeat(EitherCase(c), AsciiFold(c), 1, Some(1));
  }

  lemma SameApostrophe(letters: string, s: string)
    requires 1 <= |letters| <= 2 && s == "'" + letters && forall k :: 0 <= k < |letters| ==> 'a' <= letters[k] <= 'z'
    ensures SameRegex(Apostrophe(letters), Literal(AsciiFold, s))
  {
    SameOne('\'');
    SameOne(letters[0]);
    assert s[1..] == letters;
    var first, rest := One(EitherCase('\'')), One(EitherCase(letters[0]));
    if |letters| == 2 {
      SameOne(letters[1]);
      assert letters[1..] == [letters[1]];
      SameOr(rest, One(EitherCase(letters[1])), One(AsciiFold(letters[0])), One(AsciiFold(letters[1])));
      rest := Then(rest, One(EitherCase(letters[1])));
      assert Literal(AsciiFold, letters[1..]) == One(AsciiFold(letters[1]));
    }
    SameOr(first, rest, One(AsciiFold('\'')), Literal(AsciiFold, letters));
  }

  lemma {:induction false} SameContractions(words: seq<string>, suffixes: seq<string>)
    requires words != [] && |words| == |suffixes|
    requires forall k :: 0 <= k < |words| ==> 1 <= |words[k]| <= 2 && suffixes[k] == "'" + words[k]
    requires forall k, j :: 0 <= k < |words| && 0 <= j < |words[k]| ==> 'a' <= words[k][j] <= 'z'
    ensures SameRegex(AnyApostrophe(words), AnyOf(AsciiFold, suffixes))
  {
    SameApostrophe(words[0], suffixes[0]);
    if |words| > 1 {
      SameContractions(words[1..], suffixes[1..]);
    }
  }

  lemma SameBranches(dialect: Dialect, classes: Classes)
    ensures var rules := dialect.RulesFor(classes);
            && SameRegex(DialectLetters(dialect, classes), LettersRegex(rules))
            && SameRegex(DialectDigits(dialect, classes), DigitsRegex(rules, dialect.DigitGroupMax()))
            && SameRegex(DialectPunctuation(dialect, classes), PunctuationRegex(rules))
  {
  }

  lemma SameSpaces(rules: Rules)
    ensures SameRegex(DialectSpaces(rules.classes),
                      Or(NewlinesRegex(rules), Or(TrailingSpaceRegex(rules), Plus(rules.Whitespace))))
  {
    var c := rules.classes;
    var some, any, newlines := Repeat(c.whitespace, 1, None), Repeat(c.whitespace, 0, None),
                               Repeat(NewlineClass(), 1, None);
    var ahead := NotBefore((x: char) => !c.whitespace(x));
    SameRepeat(c.whitespace, rules.Whitespace, 1, None);
    SameRepeat(c.whitespace, rules.Whitespace, 0, None);
    SameRepeat(NewlineClass(), IsNewline, 1, None);
    SameRepeat((x: char) => !c.whitespace(x), rules.NotWhitespace, 0, None);
    SameOr(any, newlines, Star(rules.Whitespace), Plus(IsNewline));
    SameOr(some, ahead, Plus(rules.Whitespace), NotBefore(rules.NotWhitespace));
    SameOr(Then(some, ahead), some, TrailingSpaceRegex(rules), Plus(rules.Whitespace));
    SameOr(Then(any, newlines), Or(Then(some, ahead), some), NewlinesRegex(rules),
           Or(TrailingSpaceRegex(rules), Plus(rules.Whitespace)));
  }

  lemma ContractionsWrittenOut()
    ensures SameRegex(ContractionsWritten(), ContractionsRegex(AsciiFold))
  {
    SameContractions(["s", "t", "re", "ve", "m", "ll", "d"], CONTRACTIONS);
  }

  /** For each dialect the scanner, given that dialect's rules and digit cap, ends every
      segment where the match of the documented expression ends. */
  lemma DialectSegmentEnd(dialect: Dialect, classes: Classes, text: string, i: nat)
    requires i < |text| && dialect.RulesFor(classes).Sound()
    ensures Match(DialectRegex(dialect, classes), text, i) ==
            Some(SegmentEnd(dialect.RulesFor(classes), dialect.DigitGroupMax(), text, i))
  {
    var rules, cap := dialect.RulesFor(classes), dialect.DigitGroupMax();
    SegmentEndIsRegexMatch(rules, cap, text, i);
    SameDialect(dialect, classes);
    SameEnds(DialectRegex(dialect, classes), SegmentRegex(rules, cap, AsciiFold), text, i);
  }

  lemma SameDialect(dialect: Dialect, classes: Classes)
    ensures SameRegex(DialectRegex(dialect, classes),
                      SegmentRegex(dialect.RulesFor(classes), dialect.DigitGroupMax(), AsciiFold))
  {
    var rules, cap := dialect.RulesFor(classes), dialect.DigitGroupMax();
    ContractionsWrittenOut();
    SameLaterBranches(dialect, classes, rules, cap);
    SameOr(ContractionsWritten(), DialectBranches(dialect, classes),
           ContractionsRegex(AsciiFold), Or(LettersRegex(rules), Or(DigitsRegex(rules, cap), SpacesRegex(rules))));
  }

  lemma SameLaterBranches(dialect: Dialect, classes: Classes, rules: Rules, cap: nat)
    requires rules == dialect.RulesFor(classes) && cap == dialect.DigitGroupMax()
    ensures SameRegex(DialectBranches(dialect, classes),
                      Or(LettersRegex(rules), Or(DigitsRegex(rules, cap), SpacesRegex(rules))))
  {
    var punctuation, spaces := DialectPunctuation(dialect, classes), DialectSpaces(classes);
    var letters, digits := DialectLetters(dialect, classes), DialectDigits(dialect, classes);
    SameBranches(dialect, classes);
    SameSpaces(rules);
    SameOr(punctuation, spaces, PunctuationRegex(rules),
           Or(NewlinesRegex(rules), Or(TrailingSpaceRegex(rules), Plus(rules.Whitespace))));
    SameOr(digits, Or(punctuation, spaces), DigitsRegex(rules, cap), SpacesRegex(rules));
    SameOr(letters, Or(digits, Or(punctuation, spaces)), LettersRegex(rules),
           Or(DigitsRegex(rules, cap), SpacesRegex(rules)));
  }

  // ------------------------------------- contractions under Unicode case folding

  const LONG_S: char := '\U{017F}'

  /** Simple case folding also takes the long s for an s; no other letter of a
      contraction has a partner outside ASCII. */
  function UnicodeFold(c: char): Class {
    x => AsciiLower(x) == AsciiLower(c) || (c == 's' && x == LONG_S)
  }

  predicate LongSAt(text: string, i: nat) {
    i + 1 < |text| && text[i] == '\'' && text[i + 1] == LONG_S
  }

  lemma UnicodeFoldedIsEquals(text: string, i: nat, s: string)
    requires IsSuffix(s)
    ensures FoldedAt(UnicodeFold, text, i, s) <==> EqualsAt(text, i, s) || (s == "'s" && LongSAt(text, i))
  {
    FoldedIsEquals(text, i, s);
    if s == "'s" {
      assert AsciiLower('\'') == '\'' && (forall x :: AsciiLower(x) == '\'' ==> x == '\'');
      assert FoldedAt(UnicodeFold, text, i, s) <==>
        i + 2 <= |text| && UnicodeFold(s[0])(text[i + 0]) && UnicodeFold(s[1])(text[i + 1]);
      assert FoldedAt(AsciiFold, text, i, s) <==>
        i + 2 <= |text| && AsciiFold(s[0])(text[i + 0]) && AsciiFold(s[1])(text[i + 1]);
    } else {
      assert forall k :: 0 <= k < |s| ==> s[k] != 's';
    }
  }

  lemma {:induction false} UnicodeContractionMatch(suffixes: seq<string>, text: string, i: nat)
    requires suffixes != [] && i <= |text| && !LongSAt(text, i)
    requires AreSuffixes(suffixes)
    ensures Match(AnyOf(UnicodeFold, suffixes), text, i) == FirstContraction(text, i, suffixes)
  {
    LiteralMatch(UnicodeFold, suffixes[0], text, i);
    UnicodeFoldedIsEquals(text, i, suffixes[0]);
    if |suffixes| > 1 {
      UnicodeContractionMatch(suffixes[1..], text, i);
      MatchOr(Literal(UnicodeFold, suffixes[0]), AnyOf(UnicodeFold, suffixes[1..]), text, i);
    }
  }

  lemma NoLongSContractionMatch(text: string, i: nat)
    requires i <= |text| && !LongSAt(text, i)
    ensures Match(ContractionsRegex(UnicodeFold), text, i) == ConsumeContraction(text, i)
  {
    ContractionsAreSuffixes();
    UnicodeContractionMatch(CONTRACTIONS, text, i);
  }

  lemma LongSContractionMatch(text: string, i: nat)
    requires LongSAt(text, i)
    ensures Match(ContractionsRegex(UnicodeFold), text, i) == Some(i + 2)
  {
    LiteralMatch(UnicodeFold, CONTRACTIONS[0], text, i);
    UnicodeFoldedIsEquals(text, i, CONTRACTIONS[0]);
    MatchOr(Literal(UnicodeFold, CONTRACTIONS[0]), AnyOf(UnicodeFold, CONTRACTIONS[1..]), text, i);
  }

  /** The comment's `(?i:..)`, read with Unicode case folding, ends a segment
      elsewhere exactly when the text has an apostrophe, a long s and a letter. */
  lemma UnicodeFoldingDiffersAtLongS(rules: Rules, cap: nat, text: string, i: nat)
    requires i < |text| && rules.Sound() && cap >= 1
    requires !rules.Letter('\'') && !rules.Number('\'') && rules.Letter(LONG_S)
    ensures Match(SegmentRegex(rules, cap, UnicodeFold), text, i) != Some(SegmentEnd(rules, cap, text, i)) <==>
            LongSAt(text, i) && i + 2 < |text| && rules.Letter(text[i + 2])
  {
    var later := Or(LettersRegex(rules), Or(DigitsRegex(rules, cap), SpacesRegex(rules)));
    MatchOr(ContractionsRegex(UnicodeFold), later, text, i);
    if LongSAt(text, i) {
      LongSContractionMatch(text, i);
      LongSSegmentEnd(rules, cap, text, i);
    } else {
      NoLongSContractionMatch(text, i);
      if ConsumeContraction(text, i).None? {
        LaterBranchesMatch(rules, cap, text, i);
      }
    }
  }

  lemma LongSSegmentEnd(rules: Rules, cap: nat, text: string, i: nat)
    requires LongSAt(text, i) && rules.Sound() && cap >= 1
    requires !rules.Letter('\'') && !rules.Number('\'') && rules.Letter(LONG_S)
    ensures SegmentEnd(rules, cap, text, i) >= i + 2
    ensures SegmentEnd(rules, cap, text, i) == i + 2 <==> i + 2 == |text| || !rules.Letter(text[i + 2])
  {
    ContractionsAreSuffixes();
    NoContractionAtLongS(text, i, CONTRACTIONS);
    RunStep(rules.Letter, text, i + 1);
    if i + 2 < |text| {
      RunStep(rules.Letter, text, i + 2);
    }
  }

  lemma EqualsAtFolds(text: string, i: nat, s: string, k: nat)
    requires k < |s| && EqualsAt(text, i, s)
    ensures AsciiLower(text[i + k]) == AsciiLower(s[k])
  {
    assert AsciiLowerText(text[i..i + |s|])[k] == AsciiLowerText(s)[k];
  }

  lemma {:induction false} NoContractionAtLongS(text: string, i: nat, suffixes: seq<string>)
    requires LongSAt(text, i)
    requires AreSuffixes(suffixes)
    ensures FirstContraction(text, i, suffixes).None?
  {
    if suffixes != [] {
      assert !EqualsAt(text, i, suffixes[0]) by {
        if EqualsAt(text, i, suffixes[0]) {
          EqualsAtFolds(text, i, suffixes[0], 1);
        }
      }
      NoContractionAtLongS(text, i, suffixes[1..]);
    }
  }

  // ------------------------------------------------------------------ segments

  function Segments(rules: Rules, cap: nat, text: string, from: nat): seq<string>
    requires from <= |text| && rules.Sound() && cap >= 1
    decreases |text| - from
  {
    if from == |text| then []
    else
      var end := SegmentEnd(rules, cap, text, from);
      [text[from..end]] + Segments(rules, cap, text, end)
  }

  /** Segments are non-empty and put together are the text. */
  lemma {:induction false} SegmentsPartitionText(rules: Rules, cap: nat, text: string, from: nat)
    requires from <= |text| && rules.Sound() && cap >= 1
    ensures Concat(Segments(rules, cap, text, from)) == text[from..]
    ensures NonEmptySymbols(Segments(rules, cap, text, from))
    decreases |text| - from
  {
    if from < |text| {
      var end := SegmentEnd(rules, cap, text, from);
      SegmentsPartitionText(rules, cap, text, end);
      assert text[from..] == text[from..end] + text[end..];
      assert Segments(rules, cap, text, from)[1..] == Segments(rules, cap, text, end);
    }
  }

  // ---------------------------------------------------------- the digit cap

  function Singles(s: string): (singles: seq<string>)
    ensures |singles| == |s|
  {
    if s == "" then [] else [s[..1]] + Singles(s[1..])
  }

  lemma {:induction false} SinglesAreNonEmpty(s: string)
    ensures NonEmptySymbols(Singles(s))
  {
    if s != "" {
      SinglesAreNonEmpty(s[1..]);
    }
  }

  lemma {:induction false} SinglesConcat(s: string)
    ensures Concat(Singles(s)) == s
  {
    if s != "" {
      SinglesConcat(s[1..]);
      assert s[..1] + s[1..] == s;
    }
  }

  /** Splits every segment of digits into single characters. */
  function Explode(rules: Rules, segments: seq<string>): seq<string> {
    if segments == [] then []
    else
      var first := segments[0];
      (if first != "" && rules.Number(first[0]) then Singles(first) else [first]) + Explode(rules, segments[1..])
  }

  ghost predicate Disjoint(rules: Rules) {
    forall c :: !(rules.Letter(c) && rules.Number(c))
  }

  lemma {:induction false} NoContractionWithout(text: string, i: nat, suffixes: seq<string>)
    requires i < |text| && text[i] != '\''
    requires AreSuffixes(suffixes)
    ensures FirstContraction(text, i, suffixes).None?
  {
    if suffixes != [] {
      assert !EqualsAt(text, i, suffixes[0]) by {
        if EqualsAt(text, i, suffixes[0]) {
          EqualsAtFolds(text, i, suffixes[0], 0);
        }
      }
      NoContractionWithout(text, i, suffixes[1..]);
    }
  }

  /** A segment that starts with a digit is a run of digits. */
  lemma DigitSegment(rules: Rules, cap: nat, text: string, i: nat)
    requires i < |text| && rules.Sound() && cap >= 1 && !rules.Number('\'')
    requires rules.Number(text[i]) && !rules.Letter(text[i])
    ensures SegmentEnd(rules, cap, text, i) == CappedRun(rules.Number, text, i, cap)
  {
    ContractionsAreSuffixes();
    NoContractionWithout(text, i, CONTRACTIONS);
  }

  lemma SinglesStep(text: string, from: nat, end: nat)
    requires from < end <= |text|
    ensures Singles(text[from..end]) == [text[from..from + 1]] + Singles(text[from + 1..end])
  {
    assert text[from..end][1..] == text[from + 1..end] && text[from..end][..1] == text[from..from + 1];
  }

  lemma OneDigitSegment(rules: Rules, text: string, i: nat)
    requires i < |text| && rules.Sound() && !rules.Number('\'')
    requires rules.Number(text[i]) && !rules.Letter(text[i])
    ensures Segments(rules, 1, text, i) == [text[i..i + 1]] + Segments(rules, 1, text, i + 1)
  {
    DigitSegment(rules, 1, text, i);
    assert CappedRun(rules.Number, text, i, 1) == i + 1;
  }

  lemma DigitsSplitStep(rules: Rules, text: string, from: nat, end: nat, rest: seq<string>)
    requires rules.Sound() && !rules.Number('\'') && from < end <= |text|
    requires rules.Number(text[from]) && !rules.Letter(text[from])
    requires Segments(rules, 1, text, from + 1) == Singles(text[from + 1..end]) + rest
    ensures Segments(rules, 1, text, from) == Singles(text[from..end]) + rest
  {
    var head, tail := [text[from..from + 1]], Singles(text[from + 1..end]);
    OneDigitSegment(rules, text, from);
    SinglesStep(text, from, end);
    assert head + (tail + rest) == head + tail + rest;
  }

  lemma {:induction false} DigitsSplitUp(rules: Rules, text: string, from: nat, end: nat)
    requires rules.Sound() && Disjoint(rules) && !rules.Number('\'')
    requires from <= end <= |text| && forall j :: from <= j < end ==> rules.Number(text[j])
    ensures Segments(rules, 1, text, from) == Singles(text[from..end]) + Segments(rules, 1, text, end)
    decreases end - from
  {
    var rest := Segments(rules, 1, text, end);
    if from < end {
      DigitsSplitUp(rules, text, from + 1, end);
      DigitsSplitStep(rules, text, from, end, rest);
    } else {
      assert Singles(text[from..end]) == [] && [] + rest == rest;
    }
  }

  /** With letters and numbers disjoint, a cap of one only splits the segments of
      digits that a larger cap makes. */
  lemma {:induction false} CapOnlySplitsDigits(rules: Rules, cap: nat, text: string, from: nat)
    requires from <= |text| && rules.Sound() && cap >= 1 && Disjoint(rules) && !rules.Number('\'')
    ensures Segments(rules, 1, text, from) == Explode(rules, Segments(rules, cap, text, from))
    decreases |text| - from
  {
    SegmentsPartitionText(rules, cap, text, from);
    if from < |text| {
      var end := SegmentEnd(rules, cap, text, from);
      CapOnlySplitsDigits(rules, cap, text, end);
      assert Segments(rules, cap, text, from)[1..] == Segments(rules, cap, text, end);
      if rules.Number(text[from]) {
        DigitSegment(rules, cap, text, from);
        DigitsSplitUp(rules, text, from, end);
      }
    }
  }

  /** A digit, a character that is both, a letter: the both-character goes with
      the digit under a cap of two, with the letter under a cap of one. */
  lemma OverlapBreaksSplitting(rules: Rules, cap: nat, digit: char, both: char, letter: char)
    requires rules.Sound() && cap >= 2 && !rules.Number('\'')
    requires rules.Number(digit) && !rules.Letter(digit)
    requires rules.Number(both) && rules.Letter(both)
    requires rules.Letter(letter) && !rules.Number(letter)
    ensures var text := [digit, both, letter];
            Segments(rules, 1, text, 0) != Explode(rules, Segments(rules, cap, text, 0))
  {
    var text := [digit, both, letter];
    DigitSegment(rules, cap, text, 0);
    DigitSegment(rules, 1, text, 0);
    assert CappedRun(rules.Number, text, 0, 1) == 1;
    assert CappedRun(rules.Number, text, 2, cap - 2) == 2;
    assert CappedRun(rules.Number, text, 1, cap - 1) == 2;
    ContractionsAreSuffixes();
    NoContractionWithout(text, 1, CONTRACTIONS);
    assert SegmentEnd(rules, 1, text, 1) == 3;
    assert Segments(rules, 1, text, 0) == [text[0..1]] + Segments(rules, 1, text, 1);
    assert Segments(rules, 1, text, 1) == [text[1..3]];
    var wide := Segments(rules, cap, text, 0);
    assert wide[0] == text[0..2] && wide[0][..1] == [digit] && wide[0][1..] == [both];
    assert Singles(wide[0]) == [[digit]] + Singles([both]) && Singles([both])[0] == [both];
    assert Explode(rules, wide)[1] == [both];
  }

  /** The dialects differ only in how digits are split exactly when no character
      is both a letter and a number. */
  lemma OnlySplitsIffDisjoint(rules: Rules, cap: nat, digit: char, letter: char)
    requires rules.Sound() && cap >= 2 && !rules.Number('\'')
    requires rules.Number(digit) && !rules.Letter(digit) && rules.Letter(letter) && !rules.Number(letter)
    ensures Disjoint(rules) <==>
            forall text :: Segments(rules, 1, text, 0) == Explode(rules, Segments(rules, cap, text, 0))
  {
    if Disjoint(rules) {
      forall text ensures Segments(rules, 1, text, 0) == Explode(rules, Segments(rules, cap, text, 0)) {
        CapOnlySplitsDigits(rules, cap, text, 0);
      }
    } else {
      var both :| rules.Letter(both) && rules.Number(both);
      OverlapBreaksSplitting(rules, cap, digit, both, letter);
    }
  }

  // ------------------------------------------------------------- the scanner

  method ConsumeRun(cls: Class, text: string, start: nat) returns (i: nat)
    requires start <= |text|
    ensures i == Run(cls, text, start)
  {
    i := start;
    while i < |text|
      invariant start <= i <= |text| && forall k :: start <= k < i ==> cls(text[k])
    {
      if !cls(text[i]) {
        break;
      }
      i := i + 1;
    }
    RunExtends(cls, text, start, i);
  }

  method ConsumeDigits(rules: Rules, text: string, start: nat, maxDigits: nat) returns (i: nat)
    requires start <= |text|
    ensures i == CappedRun(rules.Number, text, start, maxDigits)
  {
    i := start;
    var count := 0;
    while i < |text| && count < maxDigits
      invariant start <= i <= |text| && count == i - start <= maxDigits
      invariant CappedRun(rules.Number, text, start, maxDigits) ==
                CappedRun(rules.Number, text, i, maxDigits - count)
    {
      if !rules.Number(text[i]) {
        break;
      }
      i := i + 1;
      count := count + 1;
    }
  }

  method ConsumeOptionalPrefixLetters(rules: Rules, text: string, start: nat) returns (end: Option<nat>)
    requires start < |text|
    ensures end == PrefixLettersEnd(rules, text, start)
  {
    if rules.Letter(text[start]) {
      var run := ConsumeRun(rules.Letter, text, start);
      return Some(run);
    }
    if IsNewline(text[start]) || rules.Number(text[start]) || start + 1 == |text| {
      return None;
    }
    if !rules.Letter(text[start + 1]) {
      return None;
    }
    var run := ConsumeRun(rules.Letter, text, start + 1);
    end := Some(run);
  }

  method ConsumeOptionalSpacePunctuation(rules: Rules, text: string, start: nat) returns (end: Option<nat>)
    requires start < |text|
    ensures end == SpacePunctuationEnd(rules, text, start)
  {
    var from := start;
    if text[start] == ' ' {
      from := start + 1;
    }
    if from == |text| || !rules.Punctuation(text[from]) {
      return None;
    }
    var run := ConsumeRun(rules.Punctuation, text, from);
    var newlines := ConsumeRun(IsNewline, text, run);
    end := Some(newlines);
  }

  method ConsumeWhitespaceWithNewline(rules: Rules, text: string, start: nat) returns (lastNewlineEnd: Option<nat>)
    requires start < |text| && rules.Sound()
    ensures lastNewlineEnd == LastNewlineEnd(text, start, Run(rules.Whitespace, text, start))
  {
    lastNewlineEnd := None;
    if !rules.Whitespace(text[start]) {
      RunExtends(rules.Whitespace, text, start, start);
      return;
    }
    var i := start;
    while i < |text|
      invariant start <= i <= |text| && forall k :: start <= k < i ==> rules.Whitespace(text[k])
      invariant lastNewlineEnd == LastNewlineEnd(text, start, i)
    {
      if !rules.Whitespace(text[i]) {
        break;
      }
      i := i + 1;
      if IsNewline(text[i - 1]) {
        lastNewlineEnd := Some(i);
      }
    }
    RunExtends(rules.Whitespace, text, start, i);
  }

  method ConsumeWhitespaceBeforeNonspace(rules: Rules, text: string, start: nat) returns (end: nat)
    requires start < |text| && rules.Whitespace(text[start])
    ensures end == WhitespaceEnd(rules, text, start)
  {
    end := ConsumeRun(rules.Whitespace, text, start);
    if end < |text| && end - start > 1 {
      end := end - 1;
    }
  }

  /** The scanner meets the regular expression at every position of every text. */
  method NextSegmentEnd(rules: Rules, cap: nat, text: string, start: nat) returns (end: nat)
    requires start < |text| && rules.Sound() && cap >= 1
    ensures start < end <= |text|
    ensures Some(end) == Match(SegmentRegex(rules, cap, AsciiFold), text, start)
  {
    SegmentEndIsRegexMatch(rules, cap, text, start);
    var contraction := ConsumeContraction(text, start);
    if contraction.Some? {
      return contraction.value;
    }
    var letters := ConsumeOptionalPrefixLetters(rules, text, start);
    if letters.Some? {
      return letters.value;
    }
    if rules.Number(text[start]) {
      end := ConsumeDigits(rules, text, start, cap);
      return;
    }
    var punctuation := ConsumeOptionalSpacePunctuation(rules, text, start);
    if punctuation.Some? {
      return punctuation.value;
    }
    var newlines := ConsumeWhitespaceWithNewline(rules, text, start);
    if newlines.Some? {
      return newlines.value;
    }
    if rules.Whitespace(text[start]) {
      end := ConsumeWhitespaceBeforeNonspace(rules, text, start);
      return;
    }
    end := start + 1;
  }

  method Pretokenize(rules: Rules, cap: nat, text: string) returns (segments: seq<string>)
    requires rules.Sound() && cap >= 1
    ensures segments == Segments(rules, cap, text, 0)
    ensures Concat(segments) == text && NonEmptySymbols(segments)
  {
    segments := [];
    var start := 0;
    while start < |text|
      invariant start <= |text|
      invariant segments + Segments(rules, cap, text, start) == Segments(rules, cap, text, 0)
    {
      var end := NextSegmentEnd(rules, cap, text, start);
      SegmentEndIsRegexMatch(rules, cap, text, start);
      segments := segments + [text[start..end]];
      start := end;
    }
    SegmentsPartitionText(rules, cap, text, 0);
  }
}
