/** `encode`: the begin and end tokens around what the vocabulary family makes of
    the text. */
module Encoding {
  import opened Wrappers
  import opened Vocabulary
  import opened Decoding
  import opened PreTokenizer
  import BpeEncoding
  import SpmEncoding
  import SpmRoundTrip

  function Wrapper(wanted: bool, id: Option<TokenId>): seq<TokenId> {
    if wanted && id.Some? then [id.value] else []
  }

  /** The ids of the text alone. */
  ghost function EncodedBody(tk: Tokenizer, classes: Classes, text: string, parseSpecial: bool): Result<seq<TokenId>>
    requires Sound(tk) && tk.dialect.RulesFor(classes).Sound()
  {
    if tk.model == LlamaSpm then SpmRoundTrip.EncodedText(tk, text, parseSpecial)
    else BpeEncoding.EncodeParts(tk, classes, BpeEncoding.Parts(tk, text, 0, parseSpecial))
  }

  method Encode(tk: Tokenizer, classes: Classes, text: string, addSpecial: bool, parseSpecial: bool)
    returns (r: Result<seq<TokenId>>)
    requires Sound(tk) && tk.dialect.RulesFor(classes).Sound()
    ensures var body := EncodedBody(tk, classes, text, parseSpecial);
            var bos, eos := tk.special.bos, tk.special.eos;
            && (body.Ok? ==>
                  r == Ok((if addSpecial && tk.config.addBos && bos.Some? then [bos.value] else []) + body.value +
                          (if addSpecial && tk.config.addEos && eos.Some? then [eos.value] else [])))
            && (body.Err? ==> r == body)
  {
    var out := Wrapper(addSpecial && tk.config.addBos, tk.special.bos);
    ghost var before := out;
    match tk.model {
      case LlamaSpm =>
        var normalized := SpmEncoding.NormalizeSpmText(tk, text, parseSpecial);
        if normalized != "" {
          var ids := SpmEncoding.EncodePiece(tk, normalized, parseSpecial);
          if ids.Err? {
            return ids;
          }
          out := out + ids.value;
        } else {
          NothingToEncode(tk, parseSpecial);
        }
      case Gpt2Bpe =>
        if text != "" {
          var ids := BpeEncoding.EncodeBpeText(tk, classes, text, parseSpecial);
          if ids.Err? {
            return ids;
          }
          out := out + ids.value;
        }
    }
    assert out == before + EncodedBody(tk, classes, text, parseSpecial).value;
    r := Ok(out + Wrapper(addSpecial && tk.config.addEos, tk.special.eos));
  }

  /** Each family's ids decode to the text they were made of: those of a byte-level
      vocabulary exactly when the special tokens taken are visible ASCII, those of a
      SentencePiece one behind the configured space, markers read as spaces. */
  lemma BodyDecodes(tk: Tokenizer, classes: Classes, text: string, parseSpecial: bool)
    requires Sound(tk) && tk.dialect.RulesFor(classes).Sound()
    requires EncodedBody(tk, classes, text, parseSpecial).Ok?
    ensures tk.model == Gpt2Bpe ==>
              (DecodeText(tk, EncodedBody(tk, classes, text, parseSpecial).value, false) == Ok(text) <==>
               BpeEncoding.SpecialsVisible(BpeEncoding.Parts(tk, text, 0, parseSpecial)))
    ensures tk.model == LlamaSpm && SpmRoundTrip.IsPlain(tk, text, parseSpecial) ==>
              DecodeText(tk, EncodedBody(tk, classes, text, parseSpecial).value, false) ==
              Ok((if tk.config.addSpacePrefix then " " else "") + MarkersToSpaces(text))
  {
    if tk.model == Gpt2Bpe {
      BpeEncoding.BpeRoundTrip(tk, classes, text, parseSpecial);
    } else if SpmRoundTrip.IsPlain(tk, text, parseSpecial) {
      SpmRoundTrip.SpmRoundTrip(tk, text, parseSpecial);
    }
  }

  lemma NothingToEncode(tk: Tokenizer, parseSpecial: bool)
    requires Sound(tk)
    ensures SpmEncoding.IdsOf(tk, SpmEncoding.EncodedPiece(tk, "", parseSpecial)) == Ok([])
  {
  }
}
