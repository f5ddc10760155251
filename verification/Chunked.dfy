/** The two parsers of HTTP chunked bodies (section 7.1 of RFC 9112): the framing test of kernel/tls.c, which decides
    when a message is complete, and the decoder of kernel/net.c. */
module Chunked {
  import opened Bytes

  const CR: byte := 13
  const LF: byte := 10
  const SEMI: byte := 0x3B

  predicate Blank(c: byte) { c == 0x20 || c == 9 }

  predicate Eol(c: byte) { c == CR || c == LF }

  /** Value of a hexadecimal digit of either case. */
  function Hex(c: byte): (v: Option<nat>)
    ensures v.Some? ==> v.value < 16
  {
    if 0x30 <= c <= 0x39 then Some(c as int - 0x30)
    else if 0x61 <= c <= 0x66 then Some(c as int - 0x61 + 10)
    else if 0x41 <= c <= 0x46 then Some(c as int - 0x41 + 10)
    else None
  }

  // The framing test

  /** Incomplete is the code's 0, Malformed its -1, Done its 1 with the position just behind the message. */
  datatype Verdict = Incomplete | Malformed | Done(end: nat)

  /** The first line feed at or after p, or the end. */
  function FindLf(b: seq<byte>, p: nat): (q: nat)
    requires p <= |b|
    ensures p <= q <= |b| && (q < |b| ==> b[q] == LF) && forall i :: p <= i < q ==> b[i] != LF
    decreases |b| - p
  {
    if p == |b| || b[p] == LF then p else FindLf(b, p + 1)
  }

  function SkipBlanks(s: seq<byte>): (r: seq<byte>)
    ensures |r| <= |s|
  {
    if s != [] && Blank(s[0]) then SkipBlanks(s[1..]) else s
  }

  /** Digits from the front of `s`, on top of `size`; None when the value no longer fits 64 bits. */
  function Digits(s: seq<byte>, size: nat): Option<(nat, seq<byte>)> {
    if s == [] || Hex(s[0]).None? then Some((size, s))
    else
      var v := Hex(s[0]).value;
      if size > (U64 - 1 - v) / 16 then None else Digits(s[1..], size * 16 + v)
  }

  /** The chunk-size line without its line end: blanks, digits, blanks, then nothing or an extension. */
  function SizeLine(s: seq<byte>): Option<nat> {
    var t := SkipBlanks(s);
    if t == [] || Hex(t[0]).None? then None
    else
      match Digits(t, 0)
      case None => None
      case Some((size, rest)) =>
        var tail := SkipBlanks(rest);
        if tail == [] || tail[0] == SEMI then Some(size) else None
  }

  /** Where a line that begins at p and ends with the line feed at le stops, an optional CR excluded. */
  function LineEnd(b: seq<byte>, p: nat, le: nat): (e: nat)
    requires p <= le < |b|
    ensures p <= e <= le
  {
    if le > p && b[le - 1] == CR then le - 1 else le
  }

  function Trailers(b: seq<byte>, p: nat): (v: Verdict)
    requires p <= |b|
    ensures v.Done? ==> v.end <= |b|
    decreases |b| - p
  {
    var te := FindLf(b, p);
    if te == |b| then Incomplete
    else if LineEnd(b, p, te) == p then Done(te + 1)
    else Trailers(b, te + 1)
  }

  /** One turn of the chunk loop: a verdict, the trailer section after the last chunk, or the next chunk. */
  datatype Turn = Stop(v: Verdict) | Last(q: nat) | Next(q: nat)

  /** The line end that must follow the chunk data ending at e. */
  function AfterData(b: seq<byte>, e: nat): Turn
    requires e <= |b|
  {
    if e == |b| then Stop(Incomplete)
    else if b[e] == CR then
      if e + 1 == |b| then Stop(Incomplete) else if b[e + 1] != LF then Stop(Malformed) else Next(e + 2)
    else if b[e] == LF then Next(e + 1)
    else Stop(Malformed)
  }

  function FrameTurn(b: seq<byte>, p: nat): (t: Turn)
    requires p <= |b|
    ensures t.Stop? ==> !t.v.Done?
    ensures t.Last? ==> p < t.q <= |b|
    ensures t.Next? ==> p < t.q <= |b|
  {
    var le := FindLf(b, p);
    if le == |b| then Stop(Incomplete)
    else
      match SizeLine(b[p..LineEnd(b, p, le)])
      case None => Stop(Malformed)
      case Some(size) =>
        if size == 0 then Last(le + 1)
        else if size > |b| - (le + 1) then Stop(Incomplete)
        else AfterData(b, le + 1 + size)
  }

  /** `chunked_complete` from position p on. */
  function Frame(b: seq<byte>, p: nat): (v: Verdict)
    requires p <= |b|
    ensures v.Done? ==> v.end <= |b|
    decreases |b| - p
  {
    match FrameTurn(b, p)
    case Stop(v) => v
    case Last(q) => Trailers(b, q)
    case Next(q) => Frame(b, q)
  }

  // More bytes never change a decided verdict

  lemma {:induction false} FindLfStable(b: seq<byte>, c: seq<byte>, p: nat)
    requires p <= |b| && FindLf(b, p) < |b|
    ensures FindLf(b + c, p) == FindLf(b, p)
    decreases |b| - p
  {
    assert (b + c)[p] == b[p];
    if b[p] != LF { FindLfStable(b, c, p + 1); }
  }

  lemma {:induction false} TrailersStable(b: seq<byte>, c: seq<byte>, p: nat)
    requires p <= |b| && !Trailers(b, p).Incomplete?
    ensures Trailers(b + c, p) == Trailers(b, p)
    decreases |b| - p
  {
    FindLfStable(b, c, p);
    var te := FindLf(b, p);
    if LineEnd(b, p, te) != p { TrailersStable(b, c, te + 1); }
  }

  lemma {:induction false} TurnStable(b: seq<byte>, c: seq<byte>, p: nat)
    requires p <= |b| && FrameTurn(b, p) != Stop(Incomplete)
    ensures FrameTurn(b + c, p) == FrameTurn(b, p)
  {
    hide SizeLine, FindLf;
    FindLfStable(b, c, p);
    var le := FindLf(b, p);
    var e := LineEnd(b, p, le);
    assert (b + c)[p..e] == b[p..e];
  }

  /** For all byte strings: once the test answers "complete" or "malformed", appending bytes does not change it. */
  lemma {:induction false} FrameStable(b: seq<byte>, c: seq<byte>, p: nat)
    requires p <= |b| && !Frame(b, p).Incomplete?
    ensures Frame(b + c, p) == Frame(b, p)
    decreases |b| - p
  {
    hide FrameTurn;
    TurnStable(b, c, p);
    match FrameTurn(b, p)
    case Stop(v) =>
    case Last(q) => TrailersStable(b, c, q);
    case Next(q) => FrameStable(b, c, q);
  }

  /** No proper prefix of a message that is complete exactly at its end is complete or malformed. */
  lemma {:induction false} CompleteOnlyAtEnd(b: seq<byte>, k: nat, p: nat)
    requires p <= k < |b| && Frame(b, p) == Done(|b|)
    ensures Frame(b[..k], p).Incomplete?
  {
    hide Frame;
    assert b[..k] + b[k..] == b;
    if !Frame(b[..k], p).Incomplete? { FrameStable(b[..k], b[k..], p); }
  }

  // The grammar both parsers are meant for

  function Newline(crlf: bool): seq<byte> {
    if crlf then [CR, LF] else [LF]
  }

  /** Digits, an optional extension, and the two line ends, each CRLF or a bare LF. */
  datatype Chunk = Chunk(digits: seq<byte>, ext: seq<byte>, crlf: bool, data: seq<byte>, crlfAfter: bool)

  datatype Trailer = Trailer(line: seq<byte>, crlf: bool)

  datatype Body = Body(chunks: seq<Chunk>, zeros: seq<byte>, ext: seq<byte>, crlf: bool, trailers: seq<Trailer>,
                       last: bool)

  const MAX_CHUNK: nat := 0x10_0000

  function Value(s: seq<byte>): nat
    requires AllHex(s)
  {
    if s == [] then 0 else Value(s[..|s| - 1]) * 16 + Hex(s[|s| - 1]).value
  }

  predicate AllHex(s: seq<byte>) {
    forall i :: 0 <= i < |s| ==> Hex(s[i]).Some?
  }

  predicate NoEol(s: seq<byte>) {
    forall i :: 0 <= i < |s| ==> !Eol(s[i])
  }

  /** A chunk-size line: at least one digit, nothing but digits before the extension, a size of at most 1 MiB. */
  predicate SizeOk(digits: seq<byte>, ext: seq<byte>, size: nat) {
    && digits != [] && AllHex(digits) && Value(digits) == size <= MAX_CHUNK
    && (ext == [] || ext[0] == SEMI) && NoEol(ext)
  }

  predicate ChunkOk(c: Chunk) {
    c.data != [] && SizeOk(c.digits, c.ext, |c.data|)
  }

  predicate BodyOk(m: Body) {
    && (forall i :: 0 <= i < |m.chunks| ==> ChunkOk(m.chunks[i]))
    && SizeOk(m.zeros, m.ext, 0)
    && (forall i :: 0 <= i < |m.trailers| ==> m.trailers[i].line != [] && NoEol(m.trailers[i].line))
  }

  function ChunkBytes(c: Chunk): seq<byte> {
    c.digits + c.ext + Newline(c.crlf) + c.data + Newline(c.crlfAfter)
  }

  function ChunksBytes(cs: seq<Chunk>): seq<byte> {
    if cs == [] then [] else ChunkBytes(cs[0]) + ChunksBytes(cs[1..])
  }

  function TrailersBytes(ts: seq<Trailer>): seq<byte> {
    if ts == [] then [] else ts[0].line + Newline(ts[0].crlf) + TrailersBytes(ts[1..])
  }

  function BodyBytes(m: Body): seq<byte> {
    ChunksBytes(m.chunks) + (m.zeros + m.ext + Newline(m.crlf)) + (TrailersBytes(m.trailers) + Newline(m.last))
  }

  /** What the message carries. */
  function Payload(cs: seq<Chunk>): seq<byte> {
    if cs == [] then [] else cs[0].data + Payload(cs[1..])
  }

  predicate At(b: seq<byte>, p: nat, s: seq<byte>) {
    p + |s| <= |b| && b[p..p + |s|] == s
  }

  lemma {:induction false} AtConcat(b: seq<byte>, p: nat, s: seq<byte>, t: seq<byte>)
    ensures At(b, p, s + t) <==> At(b, p, s) && At(b, p + |s|, t)
  {
    if p + |s| + |t| <= |b| {
      assert b[p..p + |s| + |t|] == b[p..p + |s|] + b[p + |s|..p + |s| + |t|];
      assert (s + t)[..|s|] == s && (s + t)[|s|..] == t;
      assert b[p..p + |s| + |t|][..|s|] == b[p..p + |s|];
      assert b[p..p + |s| + |t|][|s|..] == b[p + |s|..p + |s| + |t|];
    }
  }

  // The framing test on the grammar

  lemma {:induction false} FindLfAt(b: seq<byte>, p: nat, q: nat)
    requires p <= q < |b| && b[q] == LF && forall i :: p <= i < q ==> b[i] != LF
    ensures FindLf(b, p) == q
  {
  }

  lemma {:induction false} NewlineAt(b: seq<byte>, p: nat, crlf: bool)
    requires At(b, p, Newline(crlf))
    ensures p < |b| && (if crlf then p + 1 < |b| && b[p] == CR && b[p + 1] == LF else b[p] == LF)
  {
    var s := b[p..p + |Newline(crlf)|];
    assert s[0] == b[p] && (crlf ==> s[1] == b[p + 1]);
  }

  /** A line without line ends inside is found, and its end is recognised in both forms. */
  lemma {:induction false} LineAt(b: seq<byte>, p: nat, line: seq<byte>, crlf: bool)
    requires At(b, p, line + Newline(crlf)) && NoEol(line)
    ensures FindLf(b, p) == p + |line| + |Newline(crlf)| - 1 < |b|
    ensures LineEnd(b, p, FindLf(b, p)) == p + |line|
    ensures b[p..p + |line|] == line
  {
    AtConcat(b, p, line, Newline(crlf));
    NewlineAt(b, p + |line|, crlf);
    forall i | p <= i < p + |line| ensures b[i] == line[i - p] { assert b[p..p + |line|][i - p] == b[i]; }
    FindLfAt(b, p, p + |line| + |Newline(crlf)| - 1);
  }

  lemma {:induction false} ValueNext(s: seq<byte>, k: nat)
    requires AllHex(s) && k < |s|
    ensures AllHex(s[..k]) && AllHex(s[..k + 1]) && Value(s[..k + 1]) == Value(s[..k]) * 16 + Hex(s[k]).value
  {
    assert s[..k + 1][..k] == s[..k];
  }

  lemma {:induction false} DigitsWhole(s: seq<byte>, k: nat, ext: seq<byte>)
    requires AllHex(s) && SizeOk(s, ext, Value(s)) && k <= |s| && AllHex(s[..k])
    ensures Digits(s[k..] + ext, Value(s[..k])) == Some((Value(s), ext))
    decreases |s| - k
  {
    if k == |s| {
      assert s[..k] == s && s[k..] + ext == ext;
    } else {
      var t := s[k..] + ext;
      assert t[0] == s[k] && t[1..] == s[k + 1..] + ext;
      ValueNext(s, k);
      ValueGrows(s, k + 1);
      hide Value;
      DigitsWhole(s, k + 1, ext);
    }
  }

  lemma {:induction false} ValueGrows(s: seq<byte>, k: nat)
    requires AllHex(s) && k <= |s| && AllHex(s[..k])
    ensures Value(s[..k]) <= Value(s)
    decreases |s| - k
  {
    if k == |s| {
      assert s[..k] == s;
    } else {
      assert s[..k + 1][..k] == s[..k];
      ValueGrows(s, k + 1);
    }
  }

  lemma {:induction false} SizeLineOk(digits: seq<byte>, ext: seq<byte>, size: nat)
    requires SizeOk(digits, ext, size)
    ensures SizeLine(digits + ext) == Some(size) && NoEol(digits + ext)
  {
    DigitsWhole(digits, 0, ext);
    assert digits[0..] == digits && digits[..0] == [];
    assert (digits + ext)[0] == digits[0];
    hide Digits, Value;
    assert forall i :: 0 <= i < |digits| ==> Hex(digits[i]).Some?;
  }

  lemma {:induction false} FrameChunk(b: seq<byte>, p: nat, c: Chunk)
    requires ChunkOk(c) && At(b, p, ChunkBytes(c))
    ensures p + |ChunkBytes(c)| <= |b| && FrameTurn(b, p) == Next(p + |ChunkBytes(c)|)
  {
    hide SizeLine, SizeOk, FindLf, LineEnd, FrameTurn, At, NoEol, AfterData;
    SizeLineOk(c.digits, c.ext, |c.data|);
    var line := c.digits + c.ext;
    var q := p + |line| + |Newline(c.crlf)|;
    assert ChunkBytes(c) == line + Newline(c.crlf) + (c.data + Newline(c.crlfAfter));
    AtConcat(b, p, line + Newline(c.crlf), c.data + Newline(c.crlfAfter));
    LineAt(b, p, line, c.crlf);
    AtConcat(b, q, c.data, Newline(c.crlfAfter));
    NewlineAt(b, q + |c.data|, c.crlfAfter);
    TurnIs(b, p, q - 1, p + |line|, |c.data|);
    NextAfter(b, q + |c.data|, c.crlfAfter);
  }

  lemma {:induction false} TurnIs(b: seq<byte>, p: nat, le: nat, e: nat, size: nat)
    requires p <= |b| && FindLf(b, p) == le < |b| && LineEnd(b, p, le) == e && SizeLine(b[p..e]) == Some(size)
    requires 0 < size && le + 1 + size <= |b|
    ensures FrameTurn(b, p) == AfterData(b, le + 1 + size)
  {
    hide FindLf, LineEnd, SizeLine, AfterData;
  }

  lemma {:induction false} LastIs(b: seq<byte>, p: nat, le: nat, e: nat)
    requires p <= |b| && FindLf(b, p) == le < |b| && LineEnd(b, p, le) == e && SizeLine(b[p..e]) == Some(0)
    ensures FrameTurn(b, p) == Last(le + 1)
  {
    hide FindLf, LineEnd, SizeLine;
  }

  lemma {:induction false} NextAfter(b: seq<byte>, e: nat, crlf: bool)
    requires e < |b| && (if crlf then e + 1 < |b| && b[e] == CR && b[e + 1] == LF else b[e] == LF)
    ensures AfterData(b, e) == Next(e + |Newline(crlf)|)
  {
  }

  lemma {:induction false} FrameChunks(b: seq<byte>, p: nat, cs: seq<Chunk>)
    requires (forall i :: 0 <= i < |cs| ==> ChunkOk(cs[i])) && At(b, p, ChunksBytes(cs))
    ensures p + |ChunksBytes(cs)| <= |b| && Frame(b, p) == Frame(b, p + |ChunksBytes(cs)|)
    decreases |cs|
  {
    hide FrameTurn, ChunkOk, ChunkBytes;
    if cs != [] {
      AtConcat(b, p, ChunkBytes(cs[0]), ChunksBytes(cs[1..]));
      FrameChunk(b, p, cs[0]);
      FrameChunks(b, p + |ChunkBytes(cs[0])|, cs[1..]);
    }
  }

  lemma {:induction false} TrailersEnd(b: seq<byte>, p: nat, ts: seq<Trailer>, last: bool)
    requires forall i :: 0 <= i < |ts| ==> ts[i].line != [] && NoEol(ts[i].line)
    requires At(b, p, TrailersBytes(ts) + Newline(last))
    ensures Trailers(b, p) == Done(p + |TrailersBytes(ts)| + |Newline(last)|)
    decreases |ts|
  {
    hide At, FindLf, LineEnd;
    if ts == [] {
      assert [] + Newline(last) == TrailersBytes(ts) + Newline(last);
      LineAt(b, p, [], last);
    } else {
      var first := ts[0].line + Newline(ts[0].crlf);
      var rest := TrailersBytes(ts[1..]) + Newline(last);
      assert TrailersBytes(ts) + Newline(last) == first + rest;
      AtConcat(b, p, first, rest);
      LineAt(b, p, ts[0].line, ts[0].crlf);
      TrailersEnd(b, p + |first|, ts[1..], last);
    }
  }

  /** The framing test accepts every message of the grammar exactly at its end, and no proper prefix of it. */
  lemma {:induction false} FrameAcceptsBody(m: Body, k: nat)
    requires BodyOk(m)
    ensures Frame(BodyBytes(m), 0) == Done(|BodyBytes(m)|)
    ensures k < |BodyBytes(m)| ==> Frame(BodyBytes(m)[..k], 0) == Incomplete
  {
    hide SizeLine, SizeOk, ChunkOk, At, FindLf, LineEnd, Trailers, ChunksBytes, TrailersBytes, FrameTurn, NoEol;
    var b := BodyBytes(m);
    var cs := ChunksBytes(m.chunks);
    var line, tail := m.zeros + m.ext, TrailersBytes(m.trailers) + Newline(m.last);
    WholeAt(b);
    AtConcat(b, 0, cs + (line + Newline(m.crlf)), tail);
    AtConcat(b, 0, cs, line + Newline(m.crlf));
    FrameChunks(b, 0, m.chunks);
    SizeLineOk(m.zeros, m.ext, 0);
    LineAt(b, |cs|, line, m.crlf);
    TrailersEnd(b, |cs| + |line| + |Newline(m.crlf)|, m.trailers, m.last);
    LastIs(b, |cs|, |cs| + |line| + |Newline(m.crlf)| - 1, |cs| + |line|);
    if k < |b| { CompleteOnlyAtEnd(b, k, 0); }
  }

  lemma {:induction false} WholeAt(b: seq<byte>)
    ensures At(b, 0, b)
  {
    assert b[0..|b|] == b;
  }

  // The decoder

  function SkipTo(s: seq<byte>, p: nat): (q: nat)
    requires p <= |s|
    ensures p <= q <= |s|
    decreases |s| - p
  {
    if p < |s| && !Eol(s[p]) then SkipTo(s, p + 1) else p
  }

  /** The size loop of `decode_chunked`: position after it, size and digit count; None is its early return. */
  function ReadSize(s: seq<byte>, p: nat, chunk: nat, digits: nat): (r: Option<(nat, nat, nat)>)
    requires p <= |s|
    ensures r.Some? ==> p <= r.value.0 <= |s| && digits <= r.value.2 && (r.value.2 > digits ==> r.value.0 > p)
    decreases |s| - p
  {
    if p == |s| || Eol(s[p]) then Some((p, chunk, digits))
    else if s[p] == SEMI then Some((SkipTo(s, p), chunk, digits))
    else
      match Hex(s[p])
      case None => None
      case Some(h) =>
        if chunk * 16 + h > MAX_CHUNK then None else ReadSize(s, p + 1, chunk * 16 + h, digits + 1)
  }

  function SkipNewline(s: seq<byte>, p: nat): (q: nat)
    requires p <= |s|
    ensures p <= q <= |s|
  {
    var p1 := if p < |s| && s[p] == CR then p + 1 else p;
    if p1 < |s| && s[p1] == LF then p1 + 1 else p1
  }

  /** `decode_chunked` from position p with `out` already produced and room for `cap - 1` bytes; None is the error
      return. */
  function Decode(s: seq<byte>, p: nat, out: seq<byte>, cap: nat): (r: Option<seq<byte>>)
    requires p <= |s| && |out| < cap
    ensures r.Some? ==> |r.value| < cap
    decreases |s| - p
  {
    if p == |s| then Some(out)
    else
      match ReadSize(s, p, 0, 0)
      case None => None
      case Some((p1, chunk, digits)) =>
        if digits == 0 then None
        else
          var p2 := SkipNewline(s, p1);
          if chunk == 0 then Some(out)
          else if chunk > |s| - p2 then None
          else Decode(s, SkipNewline(s, p2 + chunk), out + s[p2..p2 + Min(chunk, cap - 1 - |out|)], cap)
  }

  lemma {:induction false} SkipToAt(s: seq<byte>, p: nat, q: nat)
    requires p <= q < |s| && Eol(s[q]) && forall i :: p <= i < q ==> !Eol(s[i])
    ensures SkipTo(s, p) == q
    decreases q - p
  {
    if p < q { SkipToAt(s, p + 1, q); }
  }

  lemma {:induction false} ReadSizeAt(s: seq<byte>, p: nat, digits: seq<byte>, ext: seq<byte>, crlf: bool, k: nat)
    requires AllHex(digits) && SizeOk(digits, ext, Value(digits)) && k <= |digits| && AllHex(digits[..k])
    requires At(s, p, digits + ext + Newline(crlf))
    ensures ReadSize(s, p + k, Value(digits[..k]), k) == Some((p + |digits| + |ext|, Value(digits), |digits|))
    decreases |digits| - k
  {
    hide At, Value;
    AtConcat(s, p, digits + ext, Newline(crlf));
    AtConcat(s, p, digits, ext);
    if k == |digits| {
      assert digits[..k] == digits;
      SizeEnds(s, p + k, ext, crlf, Value(digits), k);
    } else {
      AtElements(s, p, digits);
      ValueNext(digits, k);
      ValueGrows(digits, k + 1);
      ReadSizeAt(s, p, digits, ext, crlf, k + 1);
    }
  }

  lemma {:induction false} SizeEnds(s: seq<byte>, p: nat, ext: seq<byte>, crlf: bool, chunk: nat, digits: nat)
    requires (ext == [] || ext[0] == SEMI) && NoEol(ext) && At(s, p, ext) && At(s, p + |ext|, Newline(crlf))
    ensures p <= |s| && ReadSize(s, p, chunk, digits) == Some((p + |ext|, chunk, digits))
  {
    hide At;
    NewlineAt(s, p + |ext|, crlf);
    if ext != [] {
      AtElements(s, p, ext);
      SkipToAt(s, p, p + |ext|);
    }
  }

  lemma {:induction false} AtElements(s: seq<byte>, p: nat, d: seq<byte>)
    requires At(s, p, d)
    ensures p + |d| <= |s| && forall i :: p <= i < p + |d| ==> s[i] == d[i - p]
  {
    forall i | p <= i < p + |d| ensures s[i] == d[i - p] { assert s[p..p + |d|][i - p] == s[i]; }
  }

  lemma {:induction false} SkipNewlineAt(s: seq<byte>, p: nat, crlf: bool)
    requires At(s, p, Newline(crlf))
    ensures SkipNewline(s, p) == p + |Newline(crlf)|
  {
    NewlineAt(s, p, crlf);
  }

  lemma {:induction false} SizeReads(s: seq<byte>, p: nat, digits: seq<byte>, ext: seq<byte>, crlf: bool, size: nat)
    requires SizeOk(digits, ext, size) && At(s, p, digits + ext + Newline(crlf))
    ensures 0 < |digits| && p + |digits| + |ext| < |s|
    ensures ReadSize(s, p, 0, 0) == Some((p + |digits| + |ext|, size, |digits|))
    ensures SkipNewline(s, p + |digits| + |ext|) == p + |digits| + |ext| + |Newline(crlf)|
  {
    hide ReadSize, SkipNewline, At;
    assert digits[..0] == [];
    ReadSizeAt(s, p, digits, ext, crlf, 0);
    AtConcat(s, p, digits + ext, Newline(crlf));
    NewlineAt(s, p + |digits| + |ext|, crlf);
    SkipNewlineAt(s, p + |digits| + |ext|, crlf);
  }

  /** One turn of the decoder's loop over a nonempty chunk that is there. */
  lemma {:induction false} DecodeTurn(s: seq<byte>, p: nat, out: seq<byte>, cap: nat, p1: nat, chunk: nat, digits: nat)
    requires p < |s| && |out| < cap && digits > 0 && chunk > 0 && p <= p1 <= |s|
    requires ReadSize(s, p, 0, 0) == Some((p1, chunk, digits)) && chunk <= |s| - SkipNewline(s, p1)
    ensures var p2 := SkipNewline(s, p1);
            Decode(s, p, out, cap)
            == Decode(s, SkipNewline(s, p2 + chunk), out + s[p2..p2 + Min(chunk, cap - 1 - |out|)], cap)
  {
    hide ReadSize, SkipNewline;
  }

  lemma {:induction false} DecodeChunk(s: seq<byte>, p: nat, c: Chunk, out: seq<byte>, cap: nat)
    requires ChunkOk(c) && At(s, p, ChunkBytes(c)) && |out| < cap
    ensures p + |ChunkBytes(c)| <= |s|
    ensures Decode(s, p, out, cap)
         == Decode(s, p + |ChunkBytes(c)|, out + c.data[..Min(|c.data|, cap - 1 - |out|)], cap)
  {
    hide ReadSize, SkipNewline, SizeOk, At, Decode;
    var head := c.digits + c.ext + Newline(c.crlf);
    var q := p + |head|;
    assert ChunkBytes(c) == head + (c.data + Newline(c.crlfAfter));
    AtConcat(s, p, head, c.data + Newline(c.crlfAfter));
    AtConcat(s, q, c.data, Newline(c.crlfAfter));
    SizeReads(s, p, c.digits, c.ext, c.crlf, |c.data|);
    SkipNewlineAt(s, q + |c.data|, c.crlfAfter);
    AtInside(s, p, ChunkBytes(c));
    AtInside(s, q, c.data);
    DecodeTurn(s, p, out, cap, p + |c.digits| + |c.ext|, |c.data|, |c.digits|);
    var copy := Min(|c.data|, cap - 1 - |out|);
    SliceOfSlice(s, q, q + |c.data|, 0, copy);
  }

  lemma {:induction false} AtInside(s: seq<byte>, p: nat, d: seq<byte>)
    requires At(s, p, d)
    ensures p + |d| <= |s| && s[p..p + |d|] == d
  {
  }

  lemma {:induction false} DecodeChunks(s: seq<byte>, p: nat, cs: seq<Chunk>, out: seq<byte>, cap: nat)
    requires (forall i :: 0 <= i < |cs| ==> ChunkOk(cs[i])) && At(s, p, ChunksBytes(cs)) && |out| < cap
    ensures p + |ChunksBytes(cs)| <= |s|
    ensures var all := out + Payload(cs);
            Decode(s, p, out, cap) == Decode(s, p + |ChunksBytes(cs)|, all[..Min(|all|, cap - 1)], cap)
    decreases |cs|
  {
    hide Decode, ChunkOk, ChunkBytes, At;
    AtInside(s, p, ChunksBytes(cs));
    if cs == [] {
      assert (out + [])[..Min(|out|, cap - 1)] == out;
    } else {
      AtConcat(s, p, ChunkBytes(cs[0]), ChunksBytes(cs[1..]));
      var d := cs[0].data;
      var next := out + d[..Min(|d|, cap - 1 - |out|)];
      DecodeChunk(s, p, cs[0], out, cap);
      DecodeChunks(s, p + |ChunkBytes(cs[0])|, cs[1..], next, cap);
      var all, rest := out + Payload(cs), next + Payload(cs[1..]);
      assert rest[..Min(|rest|, cap - 1)] == all[..Min(|all|, cap - 1)];
    }
  }

  /** The decoder returns the chunk data of every message of the grammar, cut at the buffer's `cap - 1` bytes; so it
      returns all of it exactly when it fits. Trailers do not disturb it. */
  lemma {:induction false} DecodesBody(m: Body, cap: nat)
    requires BodyOk(m) && 0 < cap
    ensures Decode(BodyBytes(m), 0, [], cap) == Some(Payload(m.chunks)[..Min(|Payload(m.chunks)|, cap - 1)])
    ensures Decode(BodyBytes(m), 0, [], cap) == Some(Payload(m.chunks)) <==> |Payload(m.chunks)| < cap
  {
    hide ReadSize, SkipNewline, SizeOk, ChunkOk, At, ChunksBytes, TrailersBytes, Payload;
    var b := BodyBytes(m);
    var cs := ChunksBytes(m.chunks);
    var line, tail := m.zeros + m.ext + Newline(m.crlf), TrailersBytes(m.trailers) + Newline(m.last);
    WholeAt(b);
    AtConcat(b, 0, cs + line, tail);
    AtConcat(b, 0, cs, line);
    DecodeChunks(b, 0, m.chunks, [], cap);
    SizeReads(b, |cs|, m.zeros, m.ext, m.crlf, 0);
    assert [] + Payload(m.chunks) == Payload(m.chunks);
    var all := Payload(m.chunks);
    assert all[..|all|] == all;
  }

  // The loops of the kernel

  /** `chunked_complete` on b from p: 1, 0 and -1. */
  method ChunkedComplete(b: seq<byte>, start: nat) returns (r: int)
    requires start <= |b|
    ensures r == match Frame(b, start) case Incomplete => 0 case Malformed => -1 case Done(_) => 1
  {
    hide FrameTurn, Trailers;
    var p := start;
    while true
      invariant start <= p <= |b| && Frame(b, start) == Frame(b, p)
      decreases |b| - p
    {
      var t := ChunkTurn(b, p);
      match t
      case Stop(v) => return if v.Malformed? then -1 else 0;
      case Last(q) =>
        r := TrailerLoop(b, q);
        return;
      case Next(q) => p := q;
    }
  }

  /** The body of the outer loop: one size line, the data, and the line end after it. */
  method ChunkTurn(b: seq<byte>, start: nat) returns (t: Turn)
    requires start <= |b|
    ensures t == FrameTurn(b, start)
  {
    hide FindLf, SizeLine;
    var le := LineFeed(b, start);
    if le >= |b| { return Stop(Incomplete); }
    var end := le;
    if end > start && b[end - 1] == CR { end := end - 1; }
    var size := ParseSize(b[start..end]);
    if size.None? { return Stop(Malformed); }
    var p := le + 1;
    if size.value == 0 { return Last(p); }
    if size.value > |b| - p { return Stop(Incomplete); }
    p := p + size.value;
    if p >= |b| { return Stop(Incomplete); }
    if b[p] == CR {
      if p + 1 >= |b| { return Stop(Incomplete); }
      if b[p + 1] != LF { return Stop(Malformed); }
      return Next(p + 2);
    }
    t := if b[p] == LF then Next(p + 1) else Stop(Malformed);
  }

  method LineFeed(b: seq<byte>, p: nat) returns (le: nat)
    requires p <= |b|
    ensures le == FindLf(b, p)
  {
    le := p;
    while le < |b| && b[le] != LF
      invariant p <= le <= |b| && FindLf(b, p) == FindLf(b, le)
    {
      le := le + 1;
    }
  }

  method ParseSize(s: seq<byte>) returns (r: Option<nat>)
    ensures r == SizeLine(s)
  {
    hide Hex;
    var q := 0;
    while q < |s| && Blank(s[q])
      invariant 0 <= q <= |s| && SkipBlanks(s) == SkipBlanks(s[q..])
    {
      assert s[q..][1..] == s[q + 1..];
      q := q + 1;
    }
    ghost var t := s[q..];
    assert SkipBlanks(s) == t;
    var size: nat, digits: nat := 0, 0;
    while q < |s| && Hex(s[q]).Some?
      invariant 0 <= q <= |s| && |s[q..]| + digits == |t|
      invariant Digits(t, 0) == Digits(s[q..], size)
      invariant digits > 0 <==> t != [] && s[q..] != t
      invariant digits > 0 ==> Hex(t[0]).Some?
    {
      var v := Hex(s[q]).value;
      if digits == 0 { assert s[q..] == t; }
      if size > (U64 - 1 - v) / 16 { return None; }
      assert s[q..][1..] == s[q + 1..];
      size, q, digits := size * 16 + v, q + 1, digits + 1;
    }
    if digits == 0 { return None; }
    ghost var rest := s[q..];
    while q < |s| && Blank(s[q])
      invariant 0 <= q <= |s| && SkipBlanks(rest) == SkipBlanks(s[q..])
    {
      assert s[q..][1..] == s[q + 1..];
      q := q + 1;
    }
    assert SkipBlanks(rest) == s[q..];
    if q < |s| && s[q] != SEMI { return None; }
    r := Some(size);
  }

  method TrailerLoop(b: seq<byte>, start: nat) returns (r: int)
    requires start <= |b|
    ensures r == match Trailers(b, start) case Incomplete => 0 case Malformed => -1 case Done(_) => 1
  {
    hide FindLf;
    var p := start;
    while true
      invariant start <= p <= |b| && Trailers(b, start) == Trailers(b, p)
      decreases |b| - p
    {
      var te := LineFeed(b, p);
      if te >= |b| { return 0; }
      var len := te - p;
      if len != 0 && b[te - 1] == CR { len := len - 1; }
      p := te + 1;
      if len == 0 { return 1; }
    }
  }

  /** `decode_chunked` into a buffer of `cap` bytes: the count it returns (0 also for errors), and the bytes it left. */
  method DecodeChunked(s: seq<byte>, out: array<byte>) returns (n: nat)
    modifies out
    ensures var r := if out.Length == 0 then None else Decode(s, 0, [], out.Length);
            && n == (if r.Some? then |r.value| else 0)
            && n <= out.Length
            && (r.Some? ==> n < out.Length && out[..n] == r.value && out[n] == 0)
  {
    hide ReadSize, SkipNewline;
    var cap := out.Length;
    if cap == 0 { return 0; }
    var p, o := 0, 0;
    while p < |s|
      invariant 0 <= p <= |s| && 0 <= o < cap
      invariant Decode(s, 0, [], cap) == Decode(s, p, out[..o], cap)
      decreases |s| - p
    {
      var head := ReadSizeLoop(s, p);
      if head.None? { return 0; }
      var (p1, chunk, digits) := head.value;
      if digits == 0 { return 0; }
      p := SkipNewline(s, p1);
      if chunk == 0 {
        out[o] := 0;
        return o;
      }
      if chunk > |s| - p { return 0; }
      var room := cap - 1 - o;
      var copy := Min(chunk, room);
      ghost var before := out[..o];
      CopyInto(out, o, s[p..p + copy]);
      assert out[..o + copy] == before + s[p..p + copy];
      o := o + copy;
      p := SkipNewline(s, p + chunk);
    }
    out[o] := 0;
    n := o;
  }

  method ReadSizeLoop(s: seq<byte>, start: nat) returns (r: Option<(nat, nat, nat)>)
    requires start <= |s|
    ensures r == ReadSize(s, start, 0, 0)
  {
    hide Hex;
    var p: nat, chunk: nat, digits: nat := start, 0, 0;
    while p < |s| && !Eol(s[p])
      invariant start <= p <= |s| && ReadSize(s, start, 0, 0) == ReadSize(s, p, chunk, digits)
    {
      if s[p] == SEMI {
        ghost var from := p;
        while p < |s| && !Eol(s[p])
          invariant from <= p <= |s| && SkipTo(s, from) == SkipTo(s, p)
        {
          p := p + 1;
        }
        return Some((p, chunk, digits));
      }
      var h := Hex(s[p]);
      if h.None? { return None; }
      chunk, digits, p := chunk * 16 + h.value, digits + 1, p + 1;
      if chunk > MAX_CHUNK { return None; }
    }
    r := Some((p, chunk, digits));
  }
}
