/** Exactly which byte strings the framing test calls complete and malformed, and which the decoder decodes to what. */
module ChunkedMeaning {
  import opened Bytes
  import opened Chunked

  // Chunk-size lines

  predicate Blanks(s: seq<byte>) {
    forall i :: 0 <= i < |s| ==> s[i] == 0x20 || s[i] == 9
  }

  /** The line consists of blanks, digits, blanks and nothing or an extension; the digits spell `size`, in 64 bits. */
  ghost predicate SizeText(line: seq<byte>, size: nat) {
    exists a, digits, c, ext :: SizeParts(line, size, a, digits, c, ext)
  }

  ghost predicate SizeParts(line: seq<byte>, size: nat, a: seq<byte>, digits: seq<byte>, c: seq<byte>, ext: seq<byte>) {
    && line == a + digits + c + ext && Blanks(a) && Blanks(c) && digits != [] && AllHex(digits)
    && Value(digits) == size < 0x1_0000_0000_0000_0000 && (ext == [] || ext[0] == 0x3B)
  }

  lemma {:induction false} SkipBlanksMeaning(s: seq<byte>) returns (a: seq<byte>)
    ensures s == a + SkipBlanks(s) && Blanks(a)
    ensures SkipBlanks(s) != [] ==> !Blank(SkipBlanks(s)[0])
  {
    if s != [] && Blank(s[0]) {
      var rest := SkipBlanksMeaning(s[1..]);
      a := [s[0]] + rest;
    } else {
      a := [];
    }
  }

  lemma {:induction false} SkipBlanksIs(a: seq<byte>, t: seq<byte>)
    requires Blanks(a) && (t != [] ==> !Blank(t[0]))
    ensures SkipBlanks(a + t) == t
  {
    if a == [] {
      assert a + t == t;
    } else {
      assert (a + t)[1..] == a[1..] + t;
      SkipBlanksIs(a[1..], t);
    }
  }

  /** Digits before something else: `done` are read, `more` follow. */
  lemma {:induction false} DigitsIs(done: seq<byte>, more: seq<byte>, rest: seq<byte>)
    requires AllHex(done) && AllHex(more) && AllHex(done + more) && (rest != [] ==> Hex(rest[0]).None?)
    requires Value(done) < U64
    ensures Digits(more + rest, Value(done))
         == if Value(done + more) < U64 then Some((Value(done + more), rest)) else None
    decreases |more|
  {
    hide Hex, Value, Digits;
    if more == [] {
      assert more + rest == rest && done + more == done;
      DigitsStop(rest, Value(done));
    } else {
      var d, tail := more[0], more[1..];
      var next := done + [d];
      assert next + tail == done + more;
      FirstDigit(more, rest, Value(done));
      NextValue(done, d);
      NextFits(Value(done), Hex(d).value);
      if Value(next) < U64 {
        DigitsIs(next, tail, rest);
      } else {
        assert (done + more)[..|next|] == next;
        ValueGrows(done + more, |next|);
      }
    }
  }

  lemma {:induction false} DigitsStop(rest: seq<byte>, size: nat)
    requires rest != [] ==> Hex(rest[0]).None?
    ensures Digits(rest, size) == Some((size, rest))
  {
    hide Hex;
  }

  lemma {:induction false} FirstDigit(more: seq<byte>, rest: seq<byte>, size: nat)
    requires more != [] && AllHex(more)
    ensures Hex(more[0]).Some? && AllHex(more[1..])
    ensures Digits(more + rest, size)
         == if size > (U64 - 1 - Hex(more[0]).value) / 16 then None
            else Digits(more[1..] + rest, size * 16 + Hex(more[0]).value)
  {
    hide Hex;
    assert (more + rest)[0] == more[0] && (more + rest)[1..] == more[1..] + rest;
  }

  /** The overflow test of the loop is exact. */
  lemma {:induction false} NextFits(size: nat, v: nat)
    requires v < 16
    ensures size > (U64 - 1 - v) / 16 <==> size * 16 + v >= U64
  {
  }

  lemma {:induction false} DigitsMeaning(s: seq<byte>, done: seq<byte>) returns (digits: seq<byte>)
    requires AllHex(done) && Value(done) < U64 && Digits(s, Value(done)).Some?
    ensures var (size, rest) := Digits(s, Value(done)).value;
            && s == digits + rest && AllHex(digits) && AllHex(done + digits) && size == Value(done + digits) < U64
            && (rest != [] ==> Hex(rest[0]).None?) && (digits == [] <==> s == [] || Hex(s[0]).None?)
    decreases |s|
  {
    hide Hex, Value;
    if s == [] || Hex(s[0]).None? {
      digits := [];
      assert done + digits == done;
    } else {
      var next := done + [s[0]];
      NextValue(done, s[0]);
      NextFits(Value(done), Hex(s[0]).value);
      var more := DigitsMeaning(s[1..], next);
      digits := [s[0]] + more;
      assert next + more == done + digits;
      assert s == [s[0]] + s[1..];
    }
  }

  lemma {:induction false} HexIsNoBlank(c: byte)
    ensures Hex(c).Some? ==> !Blank(c) && c != 0x3B
    ensures Blank(c) || c == 0x3B ==> Hex(c).None?
  {
  }

  /** A size line is accepted exactly in this form. */
  lemma {:induction false} SizeLineMeaning(line: seq<byte>, size: nat)
    ensures SizeLine(line) == Some(size) <==> SizeText(line, size)
  {
    hide SizeLine, SizeParts;
    if SizeLine(line) == Some(size) { var a, digits, c, ext := SizeLineParts(line, size); }
    if a, digits, c, ext :| SizeParts(line, size, a, digits, c, ext) { SizeLineIs(line, size, a, digits, c, ext); }
  }

  lemma {:induction false} SizeLineParts(line: seq<byte>, size: nat)
    returns (a: seq<byte>, digits: seq<byte>, c: seq<byte>, ext: seq<byte>)
    requires SizeLine(line) == Some(size)
    ensures SizeParts(line, size, a, digits, c, ext)
  {
    hide Hex, SkipBlanks, Digits, Value;
    a := SkipBlanksMeaning(line);
    var t := SkipBlanks(line);
    assert AllHex([]) && Value([]) == 0 by { hide *; ValueOfNothing(); }
    digits := DigitsMeaning(t, []);
    assert [] + digits == digits;
    var rest := Digits(t, 0).value.1;
    c := SkipBlanksMeaning(rest);
    ext := SkipBlanks(rest);
    assert line == a + (digits + (c + ext)) == a + digits + c + ext;
  }

  lemma {:induction false} ValueOfNothing()
    ensures AllHex([]) && Value([]) == 0
  {
  }

  lemma {:induction false} SizeLineIs(line: seq<byte>, size: nat, a: seq<byte>, digits: seq<byte>, c: seq<byte>,
                                      ext: seq<byte>)
    requires SizeParts(line, size, a, digits, c, ext)
    ensures SizeLine(line) == Some(size)
  {
    hide Hex, SkipBlanks, Digits, Value;
    var rest := c + ext;
    var t := digits + rest;
    assert line == a + t;
    assert t[0] == digits[0] && Hex(digits[0]).Some?;
    HexIsNoBlank(digits[0]);
    SkipBlanksIs(a, t);
    if rest != [] { HexIsNoBlank(rest[0]); }
    ValueOfNothing();
    assert [] + digits == digits;
    DigitsIs([], digits, rest);
    if ext != [] { NoBlank(ext[0]); }
    SkipBlanksIs(c, ext);
  }

  lemma {:induction false} NoBlank(c: byte)
    requires c == 0x3B
    ensures !Blank(c)
  {
  }

  // Complete messages

  /** A line of text and its line end, CRLF or a bare LF; a CR before a bare LF would be part of the line end. */
  datatype Line = Line(text: seq<byte>, crlf: bool)

  predicate LineOk(l: Line) {
    10 !in l.text && (!l.crlf && l.text != [] ==> l.text[|l.text| - 1] != 13)
  }

  function LineBytes(l: Line): seq<byte> {
    l.text + if l.crlf then [13, 10] else [10]
  }

  /** A size line, as many bytes of data, and a line end. */
  datatype Piece = Piece(size: Line, data: seq<byte>, crlf: bool)

  ghost predicate PieceOk(c: Piece) {
    LineOk(c.size) && SizeText(c.size.text, |c.data|) && c.data != []
  }

  function PieceBytes(c: Piece): seq<byte> {
    LineBytes(c.size) + (c.data + if c.crlf then [13, 10] else [10])
  }

  function PiecesBytes(cs: seq<Piece>): seq<byte> {
    if cs == [] then [] else PieceBytes(cs[0]) + PiecesBytes(cs[1..])
  }

  ghost predicate PiecesOk(cs: seq<Piece>) {
    forall i :: 0 <= i < |cs| ==> PieceOk(cs[i])
  }

  function LinesBytes(ls: seq<Line>): seq<byte> {
    if ls == [] then [] else LineBytes(ls[0]) + LinesBytes(ls[1..])
  }

  /** Trailer lines up to the first empty one. */
  predicate TrailersOk(ls: seq<Line>) {
    ls != [] && forall i :: 0 <= i < |ls| ==> LineOk(ls[i]) && (ls[i].text == [] <==> i == |ls| - 1)
  }

  /** Chunks, a line of size zero, trailers. */
  datatype Message = Message(pieces: seq<Piece>, zero: Line, trailers: seq<Line>)

  ghost predicate MessageOk(m: Message) {
    PiecesOk(m.pieces) && LineOk(m.zero) && SizeText(m.zero.text, 0) && TrailersOk(m.trailers)
  }

  function MessageBytes(m: Message): seq<byte> {
    PiecesBytes(m.pieces) + (LineBytes(m.zero) + LinesBytes(m.trailers))
  }

  lemma {:induction false} LineRead(b: seq<byte>, p: nat, l: Line)
    requires LineOk(l) && At(b, p, LineBytes(l))
    ensures var le := p + |LineBytes(l)| - 1;
            p <= le < |b| && FindLf(b, p) == le && LineEnd(b, p, le) == p + |l.text| && b[p..p + |l.text|] == l.text
  {
    hide At, FindLf;
    var end := if l.crlf then [13, 10] else [10];
    AtConcat(b, p, l.text, end);
    AtInside(b, p, l.text);
    AtElements(b, p, l.text);
    AtElements(b, p + |l.text|, end);
    var le := p + |LineBytes(l)| - 1;
    forall i | p <= i < p + |l.text| ensures b[i] != 10 { assert b[i] == l.text[i - p] && l.text[i - p] in l.text; }
    assert end[|end| - 1] == 10 && b[le] == 10;
    if l.crlf { assert b[p + |l.text|] == end[0] == 13; }
    FindLfIs(b, p, le);
  }

  lemma {:induction false} FindLfIs(b: seq<byte>, p: nat, q: nat)
    requires p <= q < |b| && b[q] == LF && forall i :: p <= i < q ==> b[i] != LF
    ensures FindLf(b, p) == q
    decreases q - p
  {
    if p < q { FindLfIs(b, p + 1, q); }
  }

  /** The line that begins at p, when there is a line feed. */
  lemma {:induction false} LineThere(b: seq<byte>, p: nat) returns (l: Line)
    requires p <= |b| && FindLf(b, p) < |b|
    ensures LineOk(l) && At(b, p, LineBytes(l)) && p + |LineBytes(l)| == FindLf(b, p) + 1
    ensures l.text == b[p..LineEnd(b, p, FindLf(b, p))]
  {
    var le := FindLf(b, p);
    var e := LineEnd(b, p, le);
    l := Line(b[p..e], e < le);
    forall i | 0 <= i < |l.text| ensures l.text[i] != 10 { assert b[p + i] == l.text[i]; }
    assert b[p..le + 1] == LineBytes(l);
  }

  // The framing test

  lemma {:induction false} PieceFramed(b: seq<byte>, p: nat, c: Piece)
    requires PieceOk(c) && At(b, p, PieceBytes(c))
    ensures p + |PieceBytes(c)| <= |b| && FrameTurn(b, p) == Next(p + |PieceBytes(c)|)
  {
    hide SizeLine, SizeText, FindLf, LineEnd, FrameTurn, At, LineOk, AfterData;
    SizeLineMeaning(c.size.text, |c.data|);
    var end := if c.crlf then [13, 10] else [10];
    var q := p + |LineBytes(c.size)|;
    AtConcat(b, p, LineBytes(c.size), c.data + end);
    AtConcat(b, q, c.data, end);
    LineRead(b, p, c.size);
    AtElements(b, q, c.data);
    AtElements(b, q + |c.data|, end);
    TurnIs(b, p, q - 1, p + |c.size.text|, |c.data|);
    EndAfterData(b, q + |c.data|, c.crlf);
  }

  lemma {:induction false} EndAfterData(b: seq<byte>, e: nat, crlf: bool)
    requires var end := if crlf then [13, 10] else [10];
             e + |end| <= |b| && forall i :: e <= i < e + |end| ==> b[i] == end[i - e]
    ensures AfterData(b, e) == Next(e + if crlf then 2 else 1)
  {
  }

  lemma {:induction false} PiecesFramed(b: seq<byte>, p: nat, cs: seq<Piece>)
    requires PiecesOk(cs) && At(b, p, PiecesBytes(cs))
    ensures p + |PiecesBytes(cs)| <= |b| && Frame(b, p) == Frame(b, p + |PiecesBytes(cs)|)
    decreases |cs|
  {
    hide FrameTurn, PieceOk, PieceBytes;
    if cs != [] {
      AtConcat(b, p, PieceBytes(cs[0]), PiecesBytes(cs[1..]));
      PieceFramed(b, p, cs[0]);
      PiecesFramed(b, p + |PieceBytes(cs[0])|, cs[1..]);
    }
  }

  lemma {:induction false} TrailersRead(b: seq<byte>, p: nat, ls: seq<Line>)
    requires TrailersOk(ls) && At(b, p, LinesBytes(ls))
    ensures p <= |b| && Trailers(b, p) == Done(p + |LinesBytes(ls)|)
    decreases |ls|
  {
    hide FindLf, LineEnd, At, LineOk;
    var first, rest := LineBytes(ls[0]), LinesBytes(ls[1..]);
    AtConcat(b, p, first, rest);
    LineRead(b, p, ls[0]);
    if |ls| > 1 {
      forall i | 0 <= i < |ls[1..]| ensures LineOk(ls[1..][i]) && (ls[1..][i].text == [] <==> i == |ls[1..]| - 1) {
        assert ls[1..][i] == ls[i + 1];
      }
      TrailersRead(b, p + |first|, ls[1..]);
    } else {
      assert LinesBytes(ls[1..]) == [];
    }
  }

  lemma {:induction false} MessageFramed(b: seq<byte>, m: Message)
    requires MessageOk(m) && At(b, 0, MessageBytes(m))
    ensures Frame(b, 0) == Done(|MessageBytes(m)|)
  {
    hide SizeLine, SizeText, FindLf, LineEnd, FrameTurn, At, LineOk, PiecesOk, PiecesBytes, LinesBytes, TrailersOk,
         Trailers, Frame;
    var p := |PiecesBytes(m.pieces)|;
    var q := p + |LineBytes(m.zero)|;
    AtConcat(b, 0, PiecesBytes(m.pieces), LineBytes(m.zero) + LinesBytes(m.trailers));
    AtConcat(b, p, LineBytes(m.zero), LinesBytes(m.trailers));
    PiecesFramed(b, 0, m.pieces);
    LineRead(b, p, m.zero);
    SizeLineMeaning(m.zero.text, 0);
    LastIs(b, p, q - 1, p + |m.zero.text|);
    TrailersRead(b, q, m.trailers);
    LastFrames(b, p, q);
  }

  lemma {:induction false} LastFrames(b: seq<byte>, p: nat, q: nat)
    requires p <= |b| && FrameTurn(b, p) == Last(q)
    ensures q <= |b| && Frame(b, p) == Trailers(b, q)
  {
    hide FrameTurn, Trailers;
  }

  lemma {:induction false} TrailersThere(b: seq<byte>, p: nat) returns (ls: seq<Line>)
    requires p <= |b| && Trailers(b, p).Done?
    ensures TrailersOk(ls) && At(b, p, LinesBytes(ls)) && p + |LinesBytes(ls)| == Trailers(b, p).end
    decreases |b| - p
  {
    hide FindLf, At, LineOk, LineEnd, LineBytes, LinesBytes, TrailersOk;
    var l := LineThere(b, p);
    var te := FindLf(b, p);
    MoreTrailers(l, []);
    if LineEnd(b, p, te) == p {
      ls := [l];
    } else {
      var rest := TrailersThere(b, te + 1);
      ls := [l] + rest;
      MoreTrailers(l, rest);
      AtConcat(b, p, LineBytes(l), LinesBytes(rest));
    }
  }

  lemma {:induction false} MoreTrailers(l: Line, rest: seq<Line>)
    requires LineOk(l)
    ensures LinesBytes([l] + rest) == LineBytes(l) + LinesBytes(rest)
    ensures l.text == [] && rest == [] ==> TrailersOk([l]) && LinesBytes([l]) == LineBytes(l)
    ensures l.text != [] && TrailersOk(rest) ==> TrailersOk([l] + rest)
  {
    hide LineOk, LineBytes;
    assert ([l] + rest)[1..] == rest;
    assert LinesBytes([]) == [] && LineBytes(l) + [] == LineBytes(l);
    if rest == [] { assert [l] + rest == [l]; }
    if l.text != [] && TrailersOk(rest) {
      var ls := [l] + rest;
      forall i | 0 <= i < |ls| ensures LineOk(ls[i]) && (ls[i].text == [] <==> i == |ls| - 1) {
        if i > 0 { assert ls[i] == rest[i - 1]; }
      }
    }
  }

  /** What a turn that goes on has read. */
  lemma {:induction false} PieceThere(b: seq<byte>, p: nat) returns (c: Piece)
    requires p <= |b| && FrameTurn(b, p).Next?
    ensures PieceOk(c) && At(b, p, PieceBytes(c)) && p + |PieceBytes(c)| == FrameTurn(b, p).q
  {
    hide FindLf, At, LineOk, SizeLine, SizeText, LineBytes;
    var l := LineThere(b, p);
    hide LineEnd;
    var q := FindLf(b, p) + 1;
    var size := SizeLine(l.text).value;
    SizeLineMeaning(l.text, size);
    var crlf := b[q + size] == CR;
    var data := b[q..q + size];
    var end := if crlf then [13, 10] else [10];
    c := Piece(l, data, crlf);
    DataThere(b, q, size, crlf);
    AtConcat(b, q, data, end);
    AtConcat(b, p, LineBytes(l), data + end);
  }

  lemma {:induction false} DataThere(b: seq<byte>, q: nat, size: nat, crlf: bool)
    requires q + size < |b| && AfterData(b, q + size).Next? && crlf == (b[q + size] == CR)
    ensures At(b, q, b[q..q + size]) && At(b, q + size, if crlf then [13, 10] else [10])
    ensures AfterData(b, q + size).q == q + size + if crlf then 2 else 1
  {
    var e := q + size;
    assert crlf ==> b[e..e + 2] == [13, 10];
    assert !crlf ==> b[e..e + 1] == [10];
  }

  lemma {:induction false} MessageThere(b: seq<byte>, p: nat) returns (m: Message)
    requires p <= |b| && Frame(b, p).Done?
    ensures MessageOk(m) && At(b, p, MessageBytes(m)) && p + |MessageBytes(m)| == Frame(b, p).end
    decreases |b| - p
  {
    hide FrameTurn, At, PieceOk, TrailersOk, SizeText, LineOk, Trailers, PieceBytes, LinesBytes, LineBytes;
    match FrameTurn(b, p)
    case Last(q) =>
      var zero := ZeroThere(b, p);
      var ls := TrailersThere(b, q);
      m := Message([], zero, ls);
      AtConcat(b, p, LineBytes(zero), LinesBytes(ls));
      assert MessageBytes(m) == LineBytes(zero) + LinesBytes(ls);
    case Next(q) =>
      var c := PieceThere(b, p);
      var rest := MessageThere(b, q);
      m := rest.(pieces := [c] + rest.pieces);
      AtConcat(b, p, PieceBytes(c), MessageBytes(rest));
      MorePieces(c, rest);
  }

  lemma {:induction false} MorePieces(c: Piece, m: Message)
    ensures MessageBytes(m.(pieces := [c] + m.pieces)) == PieceBytes(c) + MessageBytes(m)
    ensures PieceOk(c) && PiecesOk(m.pieces) ==> PiecesOk([c] + m.pieces)
  {
    hide PieceBytes, LinesBytes, LineBytes;
    assert ([c] + m.pieces)[1..] == m.pieces;
  }

  lemma {:induction false} ZeroThere(b: seq<byte>, p: nat) returns (l: Line)
    requires p <= |b| && FrameTurn(b, p).Last?
    ensures LineOk(l) && SizeText(l.text, 0) && At(b, p, LineBytes(l)) && p + |LineBytes(l)| == FrameTurn(b, p).q
  {
    hide FindLf, At, LineOk, SizeLine, SizeText, LineBytes;
    l := LineThere(b, p);
    hide LineEnd;
    SizeLineMeaning(l.text, 0);
  }

  /** The framing test says "complete" at n exactly when the first n bytes are such a message. */
  lemma {:induction false} CompleteIff(b: seq<byte>, n: nat)
    ensures Frame(b, 0) == Done(n) <==> exists m :: MessageOk(m) && At(b, 0, MessageBytes(m)) && n == |MessageBytes(m)|
  {
    hide Frame, MessageOk, At, MessageBytes;
    if Frame(b, 0) == Done(n) { var m := MessageThere(b, 0); }
    if m :| MessageOk(m) && At(b, 0, MessageBytes(m)) && n == |MessageBytes(m)| { MessageFramed(b, m); }
  }

  /** Behind some chunks, a whole line that is no size line, or the data of a chunk and then no line end. */
  ghost predicate BadAt(b: seq<byte>, p: nat) {
    || (exists l :: LineOk(l) && At(b, p, LineBytes(l)) && forall size: nat :: !SizeText(l.text, size))
    || (exists l, data :: BadData(b, p, l, data))
  }

  ghost predicate BadData(b: seq<byte>, p: nat, l: Line, data: seq<byte>) {
    && LineOk(l) && data != [] && SizeText(l.text, |data|) && At(b, p, LineBytes(l) + data)
    && var e := p + |LineBytes(l)| + |data|;
       e < |b| && (if b[e] == 13 then e + 1 < |b| && b[e + 1] != 10 else b[e] != 10)
  }

  lemma {:induction false} BadTurn(b: seq<byte>, p: nat)
    requires p <= |b|
    ensures FrameTurn(b, p) == Stop(Malformed) <==> BadAt(b, p)
  {
    hide FindLf, At, LineOk, SizeLine, SizeText, LineBytes, LineEnd, BadData;
    if FindLf(b, p) == |b| {
      NoLine(b, p);
    } else {
      var l := LineThere(b, p);
      OnlyLine(b, p, l);
      forall size: nat ensures SizeLine(l.text) == Some(size) <==> SizeText(l.text, size) {
        SizeLineMeaning(l.text, size);
      }
      match SizeLine(l.text)
      case None => NoBadData(b, p, l);
      case Some(size) =>
        assert SizeText(l.text, size);
        BadDataIff(b, p, l, size);
    }
  }

  lemma {:induction false} NoLine(b: seq<byte>, p: nat)
    requires p <= |b| && FindLf(b, p) == |b|
    ensures forall l :: LineOk(l) ==> !At(b, p, LineBytes(l))
    ensures forall l, data :: !BadData(b, p, l, data)
  {
    hide FindLf, At, LineOk, SizeText, LineBytes;
    forall l | LineOk(l) ensures !At(b, p, LineBytes(l)) { if At(b, p, LineBytes(l)) { LineRead(b, p, l); } }
    forall l, data | LineOk(l) ensures !At(b, p, LineBytes(l) + data) { AtConcat(b, p, LineBytes(l), data); }
  }

  lemma {:induction false} OnlyLine(b: seq<byte>, p: nat, l: Line)
    requires LineOk(l) && At(b, p, LineBytes(l))
    ensures forall k :: LineOk(k) && At(b, p, LineBytes(k)) ==> k == l
  {
    hide At, LineOk, FindLf, LineEnd;
    LineRead(b, p, l);
    forall k | LineOk(k) && At(b, p, LineBytes(k)) ensures k == l { LineRead(b, p, k); }
  }

  lemma {:induction false} NoBadData(b: seq<byte>, p: nat, l: Line)
    requires LineOk(l) && At(b, p, LineBytes(l)) && SizeLine(l.text) == None
    ensures forall k, data :: !BadData(b, p, k, data)
  {
    hide At, LineOk, SizeText, SizeLine, LineBytes;
    OnlyLine(b, p, l);
    forall k, data | LineOk(k) && SizeText(k.text, |data|) ensures !At(b, p, LineBytes(k) + data) {
      AtConcat(b, p, LineBytes(k), data);
      SizeLineMeaning(k.text, |data|);
    }
  }

  lemma {:induction false} BadDataIff(b: seq<byte>, p: nat, l: Line, size: nat)
    requires LineOk(l) && At(b, p, LineBytes(l)) && SizeLine(l.text) == Some(size) && p <= |b|
    ensures (exists k, data :: BadData(b, p, k, data)) <==>
            var e := p + |LineBytes(l)| + size;
            size > 0 && e < |b| && AfterData(b, e) == Stop(Malformed)
  {
    hide At, LineOk, SizeText, SizeLine, LineBytes;
    OnlyLine(b, p, l);
    SizeLineMeaning(l.text, size);
    AtElements(b, p, LineBytes(l));
    var q := p + |LineBytes(l)|;
    forall k, data | BadData(b, p, k, data) ensures k == l && |data| == size {
      AtConcat(b, p, LineBytes(k), data);
      SizeLineMeaning(k.text, |data|);
    }
    if size > 0 && q + size < |b| && AfterData(b, q + size) == Stop(Malformed) {
      var data := b[q..q + size];
      assert At(b, q, data) by { DataIs(b, q, size); }
      AtConcat(b, p, LineBytes(l), data);
      assert BadData(b, p, l, data);
    }
  }

  lemma {:induction false} DataIs(b: seq<byte>, q: nat, size: nat)
    requires q + size <= |b|
    ensures At(b, q, b[q..q + size])
  {
  }

  /** The framing test says "malformed" exactly when such a place follows zero or more whole chunks. */
  lemma {:induction false} MalformedIff(b: seq<byte>)
    ensures Frame(b, 0) == Malformed <==> exists cs :: Spoilt(b, 0, cs)
  {
    hide Frame, Spoilt;
    if Frame(b, 0) == Malformed { var cs := SpoiltThere(b, 0); }
    if cs :| Spoilt(b, 0, cs) { SpoiltFramed(b, 0, cs); }
  }

  ghost predicate Spoilt(b: seq<byte>, p: nat, cs: seq<Piece>) {
    PiecesOk(cs) && At(b, p, PiecesBytes(cs)) && BadAt(b, p + |PiecesBytes(cs)|)
  }

  lemma {:induction false} SpoiltFramed(b: seq<byte>, p: nat, cs: seq<Piece>)
    requires Spoilt(b, p, cs)
    ensures p <= |b| && Frame(b, p) == Malformed
  {
    hide PiecesOk, At, BadAt, FrameTurn, PiecesBytes;
    PiecesFramed(b, p, cs);
    BadTurn(b, p + |PiecesBytes(cs)|);
  }

  lemma {:induction false} SpoiltThere(b: seq<byte>, p: nat) returns (cs: seq<Piece>)
    requires p <= |b| && Frame(b, p) == Malformed
    ensures Spoilt(b, p, cs)
    decreases |b| - p
  {
    hide PieceOk, At, BadAt, FrameTurn, PieceBytes, Trailers;
    match FrameTurn(b, p)
    case Stop(v) =>
      BadTurn(b, p);
      cs := [];
      assert At(b, p, []) by { DataIs(b, p, 0); assert b[p..p] == []; }
    case Last(q) =>
      NeverMalformed(b, q);
    case Next(q) =>
      var c := PieceThere(b, p);
      var rest := SpoiltThere(b, q);
      cs := [c] + rest;
      assert cs[1..] == rest;
      AtConcat(b, p, PieceBytes(c), PiecesBytes(rest));
  }

  lemma {:induction false} NeverMalformed(b: seq<byte>, p: nat)
    requires p <= |b|
    ensures !Trailers(b, p).Malformed?
    decreases |b| - p
  {
    hide FindLf, LineEnd;
    var te := FindLf(b, p);
    if te < |b| && LineEnd(b, p, te) != p { NeverMalformed(b, te + 1); }
  }

  // The decoder

  /** From p to e: digits that spell `size`, at most 1 MiB, and nothing or an extension, up to a CR, an LF or the
      end. */
  ghost predicate SizeField(s: seq<byte>, p: nat, e: nat, size: nat) {
    exists d: nat :: SizeSplit(s, p, d, e, size)
  }

  ghost predicate SizeSplit(s: seq<byte>, p: nat, d: nat, e: nat, size: nat) {
    && p < d <= e <= |s| && AllHex(s[p..d]) && Value(s[p..d]) == size <= 0x10_0000
    && (d == e || s[d] == 0x3B) && (forall i :: d <= i < e ==> s[i] != 13 && s[i] != 10)
    && (e < |s| ==> s[e] == 13 || s[e] == 10)
  }

  /** The loop after the digits from p to d; `digits` counts them. */
  lemma {:induction false} SizeLoopFrom(s: seq<byte>, p: nat, d: nat)
    requires p <= d <= |s| && AllHex(s[p..d]) && Value(s[p..d]) <= MAX_CHUNK
    ensures forall e: nat, size: nat, n: nat :: ReadSize(s, d, Value(s[p..d]), d - p) == Some((e, size, n)) ==>
              p + n <= |s| && n >= d - p && (n > 0 ==> SizeSplit(s, p, p + n, e, size)) && (n == 0 ==> e <= |s|)
    ensures forall x: nat, e: nat, size: nat :: x >= d && SizeSplit(s, p, x, e, size) ==>
              ReadSize(s, d, Value(s[p..d]), d - p) == Some((e, size, x - p))
    decreases |s| - d
  {
    hide Value, Hex;
    if d == |s| || Eol(s[d]) {
      LoopEnds(s, p, d);
    } else if s[d] == SEMI {
      LoopSkips(s, p, d);
    } else if Hex(s[d]).None? {
      LoopFails(s, p, d);
    } else {
      assert s[p..d + 1] == s[p..d] + [s[d]];
      NextValue(s[p..d], s[d]);
      if Value(s[p..d + 1]) <= MAX_CHUNK {
        SizeLoopFrom(s, p, d + 1);
        forall x: nat, e: nat, size: nat | x >= d && SizeSplit(s, p, x, e, size) ensures x != d { HexIsNoBlank(s[d]); }
      } else {
        LoopOverflows(s, p, d);
      }
    }
  }

  lemma {:induction false} NextValue(t: seq<byte>, c: byte)
    requires AllHex(t) && Hex(c).Some?
    ensures AllHex(t + [c]) && Value(t + [c]) == Value(t) * 16 + Hex(c).value
  {
    assert (t + [c])[..|t|] == t;
  }

  lemma {:induction false} LoopEnds(s: seq<byte>, p: nat, d: nat)
    requires p <= d <= |s| && AllHex(s[p..d]) && Value(s[p..d]) <= MAX_CHUNK && (d == |s| || Eol(s[d]))
    ensures ReadSize(s, d, Value(s[p..d]), d - p) == Some((d, Value(s[p..d]), d - p))
    ensures d > p ==> SizeSplit(s, p, d, d, Value(s[p..d]))
    ensures forall x: nat, e: nat, size: nat :: x >= d && SizeSplit(s, p, x, e, size) ==>
              x == d && e == d && size == Value(s[p..d])
  {
    hide Value;
    forall x: nat, e: nat, size: nat | x >= d && SizeSplit(s, p, x, e, size) ensures x == d {
      if x > d { HexAt(s, p, x, d); }
    }
  }

  lemma {:induction false} HexAt(s: seq<byte>, p: nat, x: nat, d: nat)
    requires p <= d < x <= |s| && AllHex(s[p..x])
    ensures Hex(s[d]).Some? && !Eol(s[d]) && s[d] != SEMI
  {
    assert s[p..x][d - p] == s[d];
  }

  lemma {:induction false} LoopSkips(s: seq<byte>, p: nat, d: nat)
    requires p <= d < |s| && AllHex(s[p..d]) && Value(s[p..d]) <= MAX_CHUNK && s[d] == SEMI
    ensures var e := SkipTo(s, d);
            && ReadSize(s, d, Value(s[p..d]), d - p) == Some((e, Value(s[p..d]), d - p))
            && (d > p ==> SizeSplit(s, p, d, e, Value(s[p..d])))
            && (forall x: nat, f: nat, size: nat :: x >= d && SizeSplit(s, p, x, f, size) ==>
                  x == d && f == e && size == Value(s[p..d]))
  {
    hide Value, ReadSize, SkipTo;
    SkipToMeaning(s, d);
    ReadSkips(s, d, Value(s[p..d]), d - p);
    forall x: nat, f: nat, size: nat | x >= d && SizeSplit(s, p, x, f, size) ensures x == d {
      if x > d { HexAt(s, p, x, d); }
    }
  }

  lemma {:induction false} ReadSkips(s: seq<byte>, d: nat, chunk: nat, digits: nat)
    requires d < |s| && s[d] == SEMI
    ensures ReadSize(s, d, chunk, digits) == Some((SkipTo(s, d), chunk, digits))
  {
    hide SkipTo;
  }

  lemma {:induction false} SkipToMeaning(s: seq<byte>, p: nat)
    requires p <= |s|
    ensures var q := SkipTo(s, p); (q < |s| ==> Eol(s[q])) && forall i :: p <= i < q ==> !Eol(s[i])
    decreases |s| - p
  {
    if p < |s| && !Eol(s[p]) { SkipToMeaning(s, p + 1); }
  }

  lemma {:induction false} LoopFails(s: seq<byte>, p: nat, d: nat)
    requires p <= d < |s| && AllHex(s[p..d]) && !Eol(s[d]) && s[d] != SEMI && Hex(s[d]).None?
    ensures ReadSize(s, d, Value(s[p..d]), d - p) == None
    ensures forall x: nat, e: nat, size: nat :: x >= d ==> !SizeSplit(s, p, x, e, size)
  {
    hide Value;
    forall x: nat, e: nat, size: nat | x >= d ensures !SizeSplit(s, p, x, e, size) {
      if x > d && x <= |s| && AllHex(s[p..x]) { HexAt(s, p, x, d); }
    }
  }

  lemma {:induction false} LoopOverflows(s: seq<byte>, p: nat, d: nat)
    requires p <= d < |s| && AllHex(s[p..d]) && Hex(s[d]).Some? && AllHex(s[p..d + 1]) && Value(s[p..d + 1]) > MAX_CHUNK
    requires Value(s[p..d + 1]) == Value(s[p..d]) * 16 + Hex(s[d]).value
    ensures ReadSize(s, d, Value(s[p..d]), d - p) == None
    ensures forall x: nat, e: nat, size: nat :: x >= d ==> !SizeSplit(s, p, x, e, size)
  {
    hide Value, Hex;
    HexAt(s, p, d + 1, d);
    forall x: nat, e: nat, size: nat | x >= d ensures !SizeSplit(s, p, x, e, size) {
      if x > d && x <= |s| && AllHex(s[p..x]) {
        assert s[p..x][..d + 1 - p] == s[p..d + 1];
        ValueGrows(s[p..x], d + 1 - p);
      }
    }
  }

  /** The size loop stops at e with this size and some digits exactly when there is such a field. */
  lemma {:induction false} ReadSizeMeaning(s: seq<byte>, p: nat)
    requires p <= |s|
    ensures forall e: nat, size: nat, n: nat ::
              ReadSize(s, p, 0, 0) == Some((e, size, n)) && n > 0 ==> SizeField(s, p, e, size)
    ensures forall e: nat, size: nat :: SizeField(s, p, e, size) ==>
              var r := ReadSize(s, p, 0, 0); r.Some? && r.value.0 == e && r.value.1 == size && r.value.2 > 0
  {
    hide ReadSize, SizeSplit;
    assert s[p..p] == [];
    ValueOfNothing();
    SizeLoopFrom(s, p, p);
    forall e: nat, size: nat | SizeField(s, p, e, size)
      ensures var r := ReadSize(s, p, 0, 0); r.Some? && r.value.0 == e && r.value.1 == size && r.value.2 > 0
    {
      var d: nat :| SizeSplit(s, p, d, e, size);
      SplitOrder(s, p, d, e, size);
    }
  }

  lemma {:induction false} SplitOrder(s: seq<byte>, p: nat, d: nat, e: nat, size: nat)
    requires SizeSplit(s, p, d, e, size)
    ensures p < d <= e <= |s|
  {
  }

  /** At most one CR and then at most one LF are skipped. */
  lemma {:induction false} SkipNewlineMeaning(s: seq<byte>, p: nat)
    requires p <= |s|
    ensures var q := SkipNewline(s, p);
            || (s[p..q] == [13, 10]) || (s[p..q] == [13] && (q == |s| || s[q] != 10))
            || (s[p..q] == [10] && s[p] != 13) || (q == p && (q == |s| || (s[q] != 13 && s[q] != 10)))
  {
  }

  /** The data of the chunks, by their places in the text. */
  datatype Span = Span(lo: nat, hi: nat)

  /** One chunk behind the other, from p to `end`: a nonzero size, maybe a line end, the data, maybe a line end. */
  ghost predicate Spans(s: seq<byte>, p: nat, spans: seq<Span>, end: nat)
    decreases |spans|
  {
    if spans == [] then p == end
    else
      var c := spans[0];
      && c.lo < c.hi <= |s|
      && (exists e: nat :: SizeField(s, p, e, c.hi - c.lo) && e <= |s| && c.lo == SkipNewline(s, e))
      && Spans(s, SkipNewline(s, c.hi), spans[1..], end)
  }

  /** Nothing more, or a chunk of size zero. */
  ghost predicate Ends(s: seq<byte>, p: nat) {
    p == |s| || exists e: nat :: SizeField(s, p, e, 0)
  }

  function Joined(s: seq<byte>, spans: seq<Span>): seq<byte> {
    if spans == [] then []
    else (if spans[0].lo <= spans[0].hi <= |s| then s[spans[0].lo..spans[0].hi] else []) + Joined(s, spans[1..])
  }

  function Kept(out: seq<byte>, cap: nat): seq<byte>
    requires 0 < cap
  {
    if |out| < cap then out else out[..cap - 1]
  }

  lemma {:induction false} SpansThere(s: seq<byte>, p: nat, out: seq<byte>, cap: nat)
    returns (spans: seq<Span>, end: nat)
    requires p <= |s| && |out| < cap && Decode(s, p, out, cap).Some?
    ensures Spans(s, p, spans, end) && Ends(s, end) && Decode(s, p, out, cap).value == Kept(out + Joined(s, spans), cap)
    decreases |s| - p
  {
    hide SizeField, ReadSize, SkipNewline, Decode, Kept;
    DecodeParts(s, p, out, cap);
    KeptAll(out, cap);
    assert out + [] == out;
    spans, end := [], p;
    if p < |s| {
      ReadSizeMeaning(s, p);
      var (e, chunk, digits) := ReadSize(s, p, 0, 0).value;
      assert SizeField(s, p, e, chunk);
      if chunk > 0 {
        var lo := SkipNewline(s, e);
        var hi := lo + chunk;
        var copy := s[lo..lo + Min(chunk, cap - 1 - |out|)];
        DecodeTurn(s, p, out, cap, e, chunk, digits);
        var rest;
        rest, end := SpansThere(s, SkipNewline(s, hi), out + copy, cap);
        spans := [Span(lo, hi)] + rest;
        assert spans[1..] == rest;
        KeptMore(s, out, cap, lo, hi, Joined(s, rest));
      }
    }
  }

  lemma {:induction false} DecodeParts(s: seq<byte>, p: nat, out: seq<byte>, cap: nat)
    requires p <= |s| && |out| < cap && Decode(s, p, out, cap).Some?
    ensures p == |s| ==> Decode(s, p, out, cap) == Some(out)
    ensures p < |s| ==>
              var r := ReadSize(s, p, 0, 0);
              && r.Some? && r.value.2 > 0 && r.value.0 > p
              && (r.value.1 == 0 ==> Decode(s, p, out, cap) == Some(out))
              && (r.value.1 > 0 ==> r.value.1 <= |s| - SkipNewline(s, r.value.0))
  {
    hide ReadSize, SkipNewline;
  }

  /** Cutting after each piece is cutting once. */
  lemma {:induction false} KeptMore(s: seq<byte>, out: seq<byte>, cap: nat, lo: nat, hi: nat, rest: seq<byte>)
    requires |out| < cap && lo <= hi <= |s|
    ensures Kept(out + s[lo..lo + Min(hi - lo, cap - 1 - |out|)] + rest, cap) == Kept(out + (s[lo..hi] + rest), cap)
  {
    var n := Min(hi - lo, cap - 1 - |out|);
    var d := s[lo..hi];
    assert s[lo..lo + n] == d[..n];
    assert out + (d + rest) == out + d + rest;
  }

  lemma {:induction false} SpansDecode(s: seq<byte>, p: nat, spans: seq<Span>, end: nat, out: seq<byte>, cap: nat)
    requires p <= |s| && |out| < cap && Spans(s, p, spans, end) && Ends(s, end)
    ensures Decode(s, p, out, cap) == Some(Kept(out + Joined(s, spans), cap))
    decreases |spans|
  {
    hide SizeField, ReadSize, SkipNewline, Decode, Kept;
    if spans == [] {
      assert out + [] == out;
      EndDecodes(s, p, out, cap);
      assert Kept(out, cap) == out by { hide *; KeptAll(out, cap); }
    } else {
      var c := spans[0];
      var copy := SpanDecodes(s, p, c, out, cap);
      SpansDecode(s, SkipNewline(s, c.hi), spans[1..], end, out + copy, cap);
      KeptMore(s, out, cap, c.lo, c.hi, Joined(s, spans[1..]));
    }
  }

  lemma {:induction false} KeptAll(out: seq<byte>, cap: nat)
    requires |out| < cap
    ensures Kept(out, cap) == out
  {
  }

  lemma {:induction false} EndDecodes(s: seq<byte>, p: nat, out: seq<byte>, cap: nat)
    requires p <= |s| && |out| < cap && Ends(s, p)
    ensures Decode(s, p, out, cap) == Some(out)
  {
    hide SizeField, ReadSize, SkipNewline;
    if p < |s| {
      ReadSizeMeaning(s, p);
      var e: nat :| SizeField(s, p, e, 0);
      DecodeZero(s, p, out, cap);
    }
  }

  lemma {:induction false} SpanDecodes(s: seq<byte>, p: nat, c: Span, out: seq<byte>, cap: nat)
    returns (copy: seq<byte>)
    requires p <= |s| && |out| < cap && c.lo < c.hi <= |s|
    requires exists e: nat :: SizeField(s, p, e, c.hi - c.lo) && e <= |s| && c.lo == SkipNewline(s, e)
    ensures copy == s[c.lo..c.lo + Min(c.hi - c.lo, cap - 1 - |out|)] && |out + copy| < cap
    ensures Decode(s, p, out, cap) == Decode(s, SkipNewline(s, c.hi), out + copy, cap)
  {
    hide SizeField, ReadSize, SkipNewline, Decode;
    var e: nat :| SizeField(s, p, e, c.hi - c.lo) && e <= |s| && c.lo == SkipNewline(s, e);
    FieldNonempty(s, p, e, c.hi - c.lo);
    ReadSizeMeaning(s, p);
    DecodeTurn(s, p, out, cap, e, c.hi - c.lo, ReadSize(s, p, 0, 0).value.2);
    copy := s[c.lo..c.lo + Min(c.hi - c.lo, cap - 1 - |out|)];
  }

  lemma {:induction false} FieldNonempty(s: seq<byte>, p: nat, e: nat, size: nat)
    requires SizeField(s, p, e, size)
    ensures p < e <= |s|
  {
  }

  lemma {:induction false} DecodeZero(s: seq<byte>, p: nat, out: seq<byte>, cap: nat)
    requires p < |s| && |out| < cap
    requires var r := ReadSize(s, p, 0, 0); r.Some? && r.value.1 == 0 && r.value.2 > 0
    ensures Decode(s, p, out, cap) == Some(out)
  {
    hide ReadSize, SkipNewline;
  }

  /** The decoder succeeds exactly on such texts, with the joined data as far as the buffer keeps it. */
  lemma {:induction false} DecodeIff(s: seq<byte>, cap: nat, r: seq<byte>)
    requires 0 < cap
    ensures Decode(s, 0, [], cap) == Some(r) <==>
            exists spans, end: nat :: Spans(s, 0, spans, end) && Ends(s, end) && r == Kept(Joined(s, spans), cap)
  {
    hide Decode, Spans, Ends, Kept, Joined;
    if Decode(s, 0, [], cap) == Some(r) {
      var spans, end := SpansThere(s, 0, [], cap);
      assert [] + Joined(s, spans) == Joined(s, spans);
    }
    if spans, end: nat :| Spans(s, 0, spans, end) && Ends(s, end) && r == Kept(Joined(s, spans), cap) {
      SpansDecode(s, 0, spans, end, [], cap);
      assert [] + Joined(s, spans) == Joined(s, spans);
    }
  }
}
