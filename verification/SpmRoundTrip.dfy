/** What decoding a SentencePiece encoding gives back: the text, with a space in
    front when the vocabulary asks for one. */
module SpmRoundTrip {
  import opened Sequences
  import opened Utf8
  import opened Vocabulary
  import opened Decoding
  import opened SpmEncoding

  // ------------------------------------------------------------ fitting atoms

  /** Words are vocabulary texts; bytes stand only for characters that are not. */
  ghost predicate Fits(tk: Tokenizer, atom: Atom) {
    match atom
    case Word(s) => s in tk.tokenToId
    case Fallback(c) => [c] !in tk.tokenToId
  }

  ghost predicate AllFit(tk: Tokenizer, atoms: seq<Atom>) {
    forall k :: 0 <= k < |atoms| ==> Fits(tk, atoms[k])
  }

  lemma {:induction false} GreedyAtomsFit(tk: Tokenizer, piece: string, i: nat)
    requires i <= |piece|
    ensures AllFit(tk, GreedyAtoms(tk, piece, i))
    decreases |piece| - i
  {
    if i < |piece| {
      match LongestWordEnd(tk, piece, i, |piece|)
      case Some(end) => GreedyAtomsFit(tk, piece, end);
      case None =>
        GreedyAtomsFit(tk, piece, i + 1);
        NoWordNoChar(tk, piece, i, |piece|);
    }
  }

  lemma {:induction false} NoWordNoChar(tk: Tokenizer, piece: string, i: nat, high: nat)
    requires i < high <= |piece| && LongestWordEnd(tk, piece, i, high).None?
    ensures [piece[i]] !in tk.tokenToId
    decreases high
  {
    if high == i + 1 {
      assert piece[i..high] == [piece[i]];
      assert !Contains([piece[i]], TWO_MARKERS);
    } else {
      NoWordNoChar(tk, piece, i, high - 1);
    }
  }

  lemma {:induction false} SymbolAtomsFit(tk: Tokenizer, symbols: seq<string>, unresolved: string)
    ensures AllFit(tk, SymbolAtoms(tk, symbols, unresolved))
    decreases symbols
  {
    GreedyAtomsFit(tk, unresolved, 0);
    if symbols != [] {
      SymbolAtomsFit(tk, symbols[1..], unresolved + symbols[0]);
      SymbolAtomsFit(tk, symbols[1..], "");
    }
  }

  lemma PieceAtomsFit(tk: Tokenizer, piece: string, parseSpecial: bool)
    requires Sound(tk) && NoSpecials(tk, piece)
    ensures AllFit(tk, EncodedPiece(tk, piece, parseSpecial))
  {
    if tk.ranks == map[] && !parseSpecial {
      GreedyAtomsFit(tk, piece, 0);
    } else if piece != "" {
      assert SpmPlainEnd(tk, piece, 0, parseSpecial) == |piece|;
      SymbolAtomsFit(tk, SegmentSymbols(tk, piece[0..|piece|]), "");
      assert PieceAtoms(tk, piece, |piece|, parseSpecial) == [];
    }
  }

  // -------------------------------------------------- the ids decode to atoms

  /** Every byte has a token of its own. */
  ghost predicate CompleteBytes(tk: Tokenizer) {
    forall b: Byte :: b in tk.byteTokenToId
  }

  function RawBytes(bytes: seq<Byte>): (pieces: seq<Piece>)
    ensures |pieces| == |bytes|
  {
    seq(|bytes|, i requires 0 <= i < |bytes| => RawByte(bytes[i]))
  }

  function AtomPieces(atom: Atom): seq<Piece> {
    match atom
    case Word(s) => [Text(MarkersToSpaces(s))]
    case Fallback(c) => RawBytes(EncodeChar(c))
  }

  function AllPieces(atoms: seq<Atom>): seq<Piece> {
    if atoms == [] then [] else AtomPieces(atoms[0]) + AllPieces(atoms[1..])
  }

  lemma {:induction false} PiecesConcat(tk: Tokenizer, a: seq<TokenId>, b: seq<TokenId>)
    requires Pieces(tk, a, false).Ok? && Pieces(tk, b, false).Ok?
    ensures Pieces(tk, a + b, false) == Ok(Pieces(tk, a, false).value + Pieces(tk, b, false).value)
    decreases |b|
  {
    var x := Pieces(tk, a, false).value;
    if b == [] {
      assert a + b == a && x + [] == x;
    } else {
      var last := |b| - 1;
      assert (a + b)[..|a| + last] == a + b[..last] && (a + b)[|a| + last] == b[last];
      PiecesConcat(tk, a, b[..last]);
      var y, p := Pieces(tk, b[..last], false).value, PieceOf(tk.tokens[b[last]]);
      assert x + y + [p] == x + (y + [p]);
    }
  }

  lemma OnePiece(tk: Tokenizer, id: TokenId)
    requires id < |tk.tokens|
    ensures Pieces(tk, [id], false) == Ok([PieceOf(tk.tokens[id])])
  {
    assert [id][..0] == [] && [] + [PieceOf(tk.tokens[id])] == [PieceOf(tk.tokens[id])];
  }

  lemma {:induction false} BytePieces(tk: Tokenizer, bytes: seq<Byte>)
    requires Sound(tk) && CompleteBytes(tk)
    ensures ByteIds(tk, bytes).Ok? && Pieces(tk, ByteIds(tk, bytes).value, false) == Ok(RawBytes(bytes))
  {
    if bytes != [] {
      var id, rest := tk.byteTokenToId[bytes[0]], ByteIds(tk, bytes[1..]);
      BytePieces(tk, bytes[1..]);
      OnePiece(tk, id);
      PiecesConcat(tk, [id], rest.value);
      FirstRawByte(bytes);
    }
  }

  lemma FirstRawByte(bytes: seq<Byte>)
    requires bytes != []
    ensures [RawByte(bytes[0])] + RawBytes(bytes[1..]) == RawBytes(bytes)
  {
  }

  /** No word of the atoms is the text of a byte token. */
  ghost predicate NoByteWords(atoms: seq<Atom>) {
    forall k :: 0 <= k < |atoms| && atoms[k].Word? ==> ParseByteToken(atoms[k].text).None?
  }

  lemma AtomDecodes(tk: Tokenizer, atom: Atom)
    requires Sound(tk) && CompleteBytes(tk) && Fits(tk, atom)
    requires atom.Word? ==> ParseByteToken(atom.text).None?
    ensures AtomIds(tk, atom).Ok? && Pieces(tk, AtomIds(tk, atom).value, false) == Ok(AtomPieces(atom))
  {
    match atom
    case Word(s) => OnePiece(tk, tk.tokenToId[s]);
    case Fallback(c) => BytePieces(tk, EncodeChar(c));
  }

  lemma {:induction false} AtomsDecode(tk: Tokenizer, atoms: seq<Atom>)
    requires Sound(tk) && CompleteBytes(tk) && AllFit(tk, atoms) && NoByteWords(atoms)
    ensures IdsOf(tk, atoms).Ok? && Pieces(tk, IdsOf(tk, atoms).value, false) == Ok(AllPieces(atoms))
  {
    if atoms != [] {
      assert Fits(tk, atoms[0]);
      AtomDecodes(tk, atoms[0]);
      AtomsDecode(tk, atoms[1..]);
      PiecesConcat(tk, AtomIds(tk, atoms[0]).value, IdsOf(tk, atoms[1..]).value);
    }
  }

  // ------------------------------------------------------- rendering the atoms

  lemma {:induction false} RenderKeepsWholeText(text: string, pending: seq<Byte>, pieces: seq<Piece>)
    ensures Render(Encode(text) + pending, pieces) == text + Render(pending, pieces)
    decreases pieces
  {
    ValidTextOfEncodedPrefix(text, pending);
    if pieces != [] {
      match pieces[0]
      case RawByte(b) =>
        assert Encode(text) + pending + [b] == Encode(text) + (pending + [b]);
        RenderKeepsWholeText(text, pending + [b], pieces[1..]);
      case Text(s) =>
        assert text + ValidText(pending) + s + Render([], pieces[1..]) ==
          text + (ValidText(pending) + s + Render([], pieces[1..]));
    }
  }

  lemma {:induction false} RenderRawBytes(pending: seq<Byte>, bytes: seq<Byte>, rest: seq<Piece>)
    ensures Render(pending, RawBytes(bytes) + rest) == Render(pending + bytes, rest)
    decreases bytes
  {
    if bytes == [] {
      assert RawBytes(bytes) + rest == rest && pending + bytes == pending;
    } else {
      var pieces := RawBytes(bytes) + rest;
      assert pieces[1..] == RawBytes(bytes[1..]) + rest && pieces[0] == RawByte(bytes[0]);
      RenderRawBytes(pending + [bytes[0]], bytes[1..], rest);
      assert pending + [bytes[0]] + bytes[1..] == pending + bytes;
    }
  }

  /** The tokens that write the bytes of a text, in hexadecimal digits of either case,
      decode to the text. */
  lemma WrittenBytesDecode(tk: Tokenizer, text: string, ids: seq<TokenId>)
    requires tk.model == LlamaSpm && |ids| == |Encode(text)|
    requires forall k :: 0 <= k < |ids| ==> WritesByte(tk, ids[k], Encode(text)[k])
    ensures DecodeText(tk, ids, false) == Ok(text)
  {
    WrittenPieces(tk, Encode(text), ids);
    Neutral(RawBytes(Encode(text)));
    RenderRawBytes([], Encode(text), []);
    ValidTextOfEncoded(text);
    Neutral(Encode(text));
  }

  ghost predicate WritesByte(tk: Tokenizer, id: TokenId, b: Byte) {
    id < |tk.tokens| &&
    exists upperHigh, upperLow :: tk.tokens[id].text == ByteTokenText(b, upperHigh, upperLow)
  }

  lemma {:induction false} WrittenPieces(tk: Tokenizer, bytes: seq<Byte>, ids: seq<TokenId>)
    requires |ids| == |bytes| && forall k :: 0 <= k < |ids| ==> WritesByte(tk, ids[k], bytes[k])
    ensures Pieces(tk, ids, false) == Ok(RawBytes(bytes))
    decreases bytes
  {
    if bytes == [] {
      assert RawBytes(bytes) == [];
    } else {
      var last := |bytes| - 1;
      var before, earlier := bytes[..last], ids[..last];
      forall k | 0 <= k < last ensures WritesByte(tk, earlier[k], before[k]) {
        assert WritesByte(tk, ids[k], bytes[k]);
      }
      WrittenPieces(tk, before, earlier);
      OneWrittenByte(tk, before, earlier, bytes[last], ids[last]);
      LastOff(ids);
      LastOff(bytes);
    }
  }

  lemma OneWrittenByte(tk: Tokenizer, bytes: seq<Byte>, ids: seq<TokenId>, b: Byte, id: TokenId)
    requires Pieces(tk, ids, false) == Ok(RawBytes(bytes)) && WritesByte(tk, id, b)
    ensures Pieces(tk, ids + [id], false) == Ok(RawBytes(bytes + [b]))
  {
    var upperHigh, upperLow :| tk.tokens[id].text == ByteTokenText(b, upperHigh, upperLow);
    ByteTokenReads(b, upperHigh, upperLow);
    PiecesSnoc(tk, ids, id, false);
    assert RawBytes(bytes) + [RawByte(b)] == RawBytes(bytes + [b]);
  }

  lemma RenderAtom(tk: Tokenizer, atom: Atom, rest: seq<Piece>)
    requires Fits(tk, atom) && MARKER in tk.tokenToId
    ensures Render([], AtomPieces(atom) + rest) == MarkersToSpaces(AtomText(atom)) + Render([], rest)
  {
    match atom
    case Word(s) =>
      var pieces := [Text(MarkersToSpaces(s))] + rest;
      assert pieces[1..] == rest && ValidText([]) + MarkersToSpaces(s) == MarkersToSpaces(s);
    case Fallback(c) =>
      RenderRawBytes([], EncodeChar(c), rest);
      RenderKeepsWholeText([c], [], rest);
      assert Encode([c]) + [] == EncodeChar(c) == [] + EncodeChar(c) by {
        assert [c][1..] == "";
      }
      assert MarkersToSpaces([c]) == [c];
  }

  lemma {:induction false} RenderAtoms(tk: Tokenizer, atoms: seq<Atom>)
    requires AllFit(tk, atoms) && MARKER in tk.tokenToId
    ensures Render([], AllPieces(atoms)) == MarkersToSpaces(AtomsText(atoms))
  {
    if atoms == [] {
      assert MarkersToSpaces("") == "";
    } else {
      assert Fits(tk, atoms[0]);
      RenderAtom(tk, atoms[0], AllPieces(atoms[1..]));
      RenderAtoms(tk, atoms[1..]);
      MarkersConcat(AtomText(atoms[0]), AtomsText(atoms[1..]));
    }
  }

  lemma MarkersConcat(a: string, b: string)
    ensures MarkersToSpaces(a + b) == MarkersToSpaces(a) + MarkersToSpaces(b)
  {
  }

  // -------------------------------------------------------------- round trip

  /** No text of a byte token of the vocabulary occurs. */
  ghost predicate NoByteTexts(tk: Tokenizer, text: string) {
    forall i, s :: 0 <= i <= |text| && StartsAt(text, i, s) && s in tk.tokenToId ==> ParseByteToken(s).None?
  }

  lemma {:induction false} AtomsAreParts(tk: Tokenizer, atoms: seq<Atom>, text: string, from: nat)
    requires from <= |text| && AtomsText(atoms) == text[from..] && AllFit(tk, atoms) && NoByteTexts(tk, text)
    ensures NoByteWords(atoms)
    decreases atoms
  {
    if atoms != [] {
      var s, rest := AtomText(atoms[0]), AtomsText(atoms[1..]);
      FirstPart(text, from, s, rest);
      assert Fits(tk, atoms[0]);
      AtomsAreParts(tk, atoms[1..], text, from + |s|);
      NoByteWordsCons(atoms);
    }
  }

  lemma FirstPart(text: string, from: nat, s: string, rest: string)
    requires from <= |text| && text[from..] == s + rest
    ensures from + |s| <= |text| && text[from + |s|..] == rest && StartsAt(text, from, s)
  {
    assert text[from..][..|s|] == s && text[from..][|s|..] == rest;
    assert text[from..][|s|..] == text[from + |s|..];
  }

  lemma NoByteWordsCons(atoms: seq<Atom>)
    requires atoms != [] && NoByteWords(atoms[1..])
    requires atoms[0].Word? ==> ParseByteToken(atoms[0].text).None?
    ensures NoByteWords(atoms)
  {
    assert forall k :: 1 <= k < |atoms| ==> atoms[k] == atoms[1..][k - 1];
  }

  /** The normalized text before special tokens are looked at. */
  function Marked(tk: Tokenizer, text: string): string {
    (if tk.config.addSpacePrefix then MARKER else "") + SpacesToMarkers(text)
  }

  lemma MarkedDecodes(tk: Tokenizer, text: string)
    ensures MarkersToSpaces(Marked(tk, text)) ==
            (if tk.config.addSpacePrefix then " " else "") + MarkersToSpaces(text)
  {
  }

  lemma PlainTextNormalizes(tk: Tokenizer, text: string, parseSpecial: bool)
    requires text != "" && NoSpecials(tk, Marked(tk, text))
    requires parseSpecial ==> LongestControlAt(tk, text, 0, true).None?
    ensures Normalized(tk, text, parseSpecial) == Marked(tk, text)
  {
    var marked := Marked(tk, text);
    NoSpecialsNoDummies(tk, marked, 0);
    assert marked[0..] == marked;
  }

  ghost function EncodedText(tk: Tokenizer, text: string, parseSpecial: bool): Result<seq<TokenId>>
    requires Sound(tk)
  {
    IdsOf(tk, EncodedPiece(tk, Normalized(tk, text, parseSpecial), parseSpecial))
  }

  /** The vocabulary has a token for every byte and for the marker, and the text is not
      empty and holds no special token's or byte token's text. */
  ghost predicate IsPlain(tk: Tokenizer, text: string, parseSpecial: bool) {
    && CompleteBytes(tk) && MARKER in tk.tokenToId
    && text != "" && NoSpecials(tk, Marked(tk, text)) && NoByteTexts(tk, Marked(tk, text))
    && (parseSpecial ==> LongestControlAt(tk, text, 0, true).None?)
  }

  /** With a token for every byte and for the marker, text free of special-token
      and byte-token texts encodes, and decodes to itself behind the space the
      vocabulary asks for, its own markers read as spaces. So it round-trips
      exactly when it has no marker. */
  lemma SpmRoundTrip(tk: Tokenizer, text: string, parseSpecial: bool)
    requires tk.model == LlamaSpm && Sound(tk) && IsPlain(tk, text, parseSpecial)
    ensures var space := if tk.config.addSpacePrefix then " " else "";
            var encoded := EncodedText(tk, text, parseSpecial);
            && encoded.Ok?
            && DecodeText(tk, encoded.value, false) == Ok(space + MarkersToSpaces(text))
            && (DecodeText(tk, encoded.value, false) == Ok(space + text) <==> SPM_SPACE !in text)
  {
    var marked := Marked(tk, text);
    PlainTextNormalizes(tk, text, parseSpecial);
    var atoms := EncodedPiece(tk, marked, parseSpecial);
    PieceAtomsFit(tk, marked, parseSpecial);
    PieceKeepsText(tk, marked, parseSpecial);
    assert marked[0..] == marked;
    AtomsAreParts(tk, atoms, marked, 0);
    AtomsDecode(tk, atoms);
    RenderAtoms(tk, atoms);
    MarkedDecodes(tk, text);
    MarkerlessIsFixed(if tk.config.addSpacePrefix then " " else "", text);
  }

  lemma MarkerlessIsFixed(space: string, text: string)
    ensures space + MarkersToSpaces(text) == space + text <==> SPM_SPACE !in text
  {
    if SPM_SPACE !in text {
      assert MarkersToSpaces(text) == text;
    } else {
      var i :| 0 <= i < |text| && text[i] == SPM_SPACE;
      assert (space + MarkersToSpaces(text))[|space| + i] == ' ' != (space + text)[|space| + i];
    }
  }
}
