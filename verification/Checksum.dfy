/** The Internet checksum (RFC 1071) in its three shapes: a plain buffer, an IPv4 header, and a TCP segment
    behind its pseudo-header. */
module Checksum {
  import opened Bytes

  // Reference definitions

  /** The sum of the 16-bit big-endian words of `b`, an odd last byte padded with zero on the right. */
  function WordSum(b: seq<byte>): nat {
    if |b| == 0 then 0
    else if |b| == 1 then 256 * b[0] as int
    else Get16(b, 0) + WordSum(b[2..])
  }

  /** End-around carry, repeated until the value fits sixteen bits. */
  function Fold(s: nat): (f: nat)
    ensures f < U16
  {
    if s < U16 then s else Fold(s % U16 + s / U16)
  }

  /** Folding keeps the value modulo 0xffff and tells zero from nonzero. */
  lemma {:induction false} FoldResidue(s: nat)
    ensures Fold(s) % 0xffff == s % 0xffff
    ensures Fold(s) == 0 <==> s == 0
  {
    if s >= U16 {
      var t := s % U16 + s / U16;
      FoldResidue(t);
      ResidueShift(t, s / U16);
    }
  }

  lemma {:induction false} ResidueShift(t: int, q: nat)
    ensures (t + 0xffff * q) % 0xffff == t % 0xffff
    decreases q
  {
    if q > 0 { ResidueShift(t + 0xffff, q - 1); }
  }

  /** The checksum of `b` when the accumulator does not overflow. */
  function Sum16(b: seq<byte>): (c: nat)
    ensures c < U16
  {
    0xffff - Fold(WordSum(b))
  }

  /** The largest length whose word sum always fits the 32-bit accumulator. */
  const MAX_LENGTH: nat := 131074

  lemma {:induction false} WordSumBound(b: seq<byte>)
    ensures WordSum(b) <= 0xffff * ((|b| + 1) / 2)
  {
    if |b| >= 2 {
      var rest := b[2..];
      WordSumBound(rest);
      assert (|b| + 1) / 2 == (|rest| + 1) / 2 + 1;
    }
  }

  lemma {:induction false} WordSumFits(b: seq<byte>)
    requires |b| <= MAX_LENGTH
    ensures WordSum(b) < U32 && WordSum(b) % U32 == WordSum(b)
  {
    WordSumBound(b);
  }

  lemma {:induction false} WordSumConcat(a: seq<byte>, b: seq<byte>)
    requires |a| % 2 == 0
    ensures WordSum(a + b) == WordSum(a) + WordSum(b)
  {
    if |a| == 0 {
      assert a + b == b;
    } else {
      WordSumConcat(a[2..], b);
      assert (a + b)[2..] == a[2..] + b;
    }
  }

  lemma {:induction false} WordSumSplit(b: seq<byte>, k: nat)
    requires k % 2 == 0 && k + 2 <= |b|
    ensures WordSum(b) == WordSum(b[..k]) + Get16(b, k) + WordSum(b[k + 2..])
  {
    assert b == b[..k] + b[k..];
    WordSumConcat(b[..k], b[k..]);
    assert b[k..][2..] == b[k + 2..];
  }

  /** What the sum stands for: the bytes read as one number, most significant first and padded to whole words, have the
      same remainder modulo 65535. */
  lemma {:induction false} WordSumIsValue(b: seq<byte>)
    ensures WordSum(b) % 0xffff == Big(if |b| % 2 == 0 then b else b + [0]) % 0xffff
    decreases |b|
  {
    if |b| % 2 == 1 {
      OddSum(b);
      WordSumIsValueEven(b + [0]);
    } else {
      WordSumIsValueEven(b);
    }
  }

  /** Padding does not change the sum. */
  lemma {:induction false} OddSum(b: seq<byte>)
    requires |b| % 2 == 1
    ensures WordSum(b + [0]) == WordSum(b)
    decreases |b|
  {
    if |b| == 1 {
      assert WordSum([]) == 0 && (b + [0])[2..] == [];
    } else {
      OddSum(b[2..]);
      assert (b + [0])[2..] == b[2..] + [0];
    }
  }

  lemma {:induction false} WordSumIsValueEven(b: seq<byte>)
    requires |b| % 2 == 0
    ensures WordSum(b) % 0xffff == Big(b) % 0xffff
    decreases |b|
  {
    if b != [] {
      var n := |b| - 2;
      WordSumIsValueEven(b[..n]);
      WordSumSplit(b, n);
      assert b[n + 2..] == [] && WordSum([]) == 0;
      var w := Get16(b, n);
      assert b[..n + 1][..n] == b[..n] && b[..|b| - 1] == b[..n + 1];
      assert Big(b) == 256 * (256 * Big(b[..n]) + b[n] as int) + b[n + 1] as int == 0x1_0000 * Big(b[..n]) + w;
      ResidueShift(Big(b[..n]) + w, Big(b[..n]));
      AddRemainder(WordSum(b[..n]), Big(b[..n]), w);
    }
  }

  lemma {:induction false} AddRemainder(x: nat, y: nat, w: nat)
    requires x % 0xffff == y % 0xffff
    ensures (x + w) % 0xffff == (y + w) % 0xffff
  {
  }

  // Main results about the checksum

  /** A buffer verifies exactly when its word sum is a nonzero multiple of 0xffff. */
  lemma {:induction false} VerifiesIff(b: seq<byte>)
    ensures Sum16(b) == 0 <==> WordSum(b) > 0 && WordSum(b) % 0xffff == 0
  {
    FoldFull(WordSum(b));
  }

  lemma {:induction false} FoldFull(s: nat)
    ensures Fold(s) == 0xffff <==> s > 0 && s % 0xffff == 0
  {
    FoldResidue(s);
  }

  lemma {:induction false} ComplementFills(s: nat, v: nat)
    requires v < U16
    ensures Fold(s + (0xffff - Fold(s))) == 0xffff
    ensures Fold(s + v) == 0xffff && v != 0xffff - Fold(s) ==> {v, 0xffff - Fold(s)} == {0, 0xffff}
  {
    var f := Fold(s);
    FoldResidue(s);
    FoldFull(s + (0xffff - f));
    FoldFull(s + v);
    ComplementResidue(s, f);
    if Fold(s + v) == 0xffff { SameResidue(s, 0xffff - f, v); }
  }

  lemma {:induction false} ComplementResidue(s: nat, f: nat)
    requires f < U16 && f % 0xffff == s % 0xffff
    ensures (s + (0xffff - f)) % 0xffff == 0
  {
  }

  lemma {:induction false} SameResidue(rest: nat, x: nat, y: nat)
    requires x < U16 && y < U16
    requires (rest + x) % 0xffff == 0 && (rest + y) % 0xffff == 0
    ensures x == y || {x, y} == {0, 0xffff}
  {
  }

  /** Filling a zeroed aligned field adds the stored value to the word sum. */
  lemma {:induction false} StoredWordSum(b: seq<byte>, k: nat, v: nat)
    requires k % 2 == 0 && k + 2 <= |b| && b[k] == 0 && b[k + 1] == 0
    requires v < U16
    ensures WordSum(Splice(b, k, Put16(v))) == WordSum(b) + v
  {
    var r := Splice(b, k, Put16(v));
    WordSumSplit(b, k);
    WordSumSplit(r, k);
    assert r[..k] == b[..k] && r[k + 2..] == b[k + 2..];
    assert r[k..k + 2] == Put16(v);
  }

  /** Filling a zeroed aligned field with the computed checksum makes the buffer verify, and no other value does
      beyond the two encodings of zero. */
  lemma {:induction false} StoredChecksumVerifies(b: seq<byte>, k: nat, c: nat)
    requires k % 2 == 0 && k + 2 <= |b| && b[k] == 0 && b[k + 1] == 0
    requires c < U16
    ensures Sum16(Splice(b, k, Put16(Sum16(b)))) == 0
    ensures Sum16(Splice(b, k, Put16(c))) == 0 && c != Sum16(b) ==> {c, Sum16(b)} == {0, 0xffff}
  {
    StoredWordSum(b, k, Sum16(b));
    StoredWordSum(b, k, c);
    ComplementFills(WordSum(b), c);
  }

  /** Two verifying buffers that differ in one aligned word differ only by 0x0000 against 0xffff there. */
  lemma {:induction false} OneWordChangeDetected(a: seq<byte>, b: seq<byte>, k: nat)
    requires |a| == |b| && k % 2 == 0 && k + 2 <= |a|
    requires a[..k] == b[..k] && a[k + 2..] == b[k + 2..]
    requires Sum16(a) == 0 && Sum16(b) == 0
    ensures a == b || {Get16(a, k), Get16(b, k)} == {0, 0xffff}
  {
    WordSumSplit(a, k);
    WordSumSplit(b, k);
    VerifiesIff(a);
    VerifiesIff(b);
    SameResidue(WordSum(a[..k]) + WordSum(a[k + 2..]), Get16(a, k), Get16(b, k));
    if Get16(a, k) == Get16(b, k) {
      assert a == a[..k] + [a[k], a[k + 1]] + a[k + 2..];
      assert b == b[..k] + [b[k], b[k + 1]] + b[k + 2..];
    }
  }

  // The loops of the kernel

  /** The fold loop shared by all checksum routines. */
  method FoldLoop(start: nat) returns (sum: nat)
    requires start < U32
    ensures sum == Fold(start)
  {
    sum := start;
    while sum / U16 != 0
      invariant Fold(sum) == Fold(start)
      decreases sum
    {
      sum := sum % U16 + sum / U16;
    }
  }

  lemma {:induction false} WordSumStep(data: seq<byte>, p: nat)
    requires p <= |data|
    ensures p + 2 <= |data| ==> WordSum(data[p..]) == Get16(data, p) + WordSum(data[p + 2..])
    ensures p + 1 == |data| ==> WordSum(data[p..]) == 256 * data[p] as int
    ensures p == |data| ==> WordSum(data[p..]) == 0
  {
    if p + 2 <= |data| { assert data[p..][2..] == data[p + 2..]; }
  }

  /** Adding to a wrapped 32-bit accumulator and wrapping again. */
  lemma {:induction false} WrapAdd(x: int, y: int)
    ensures (x % U32 + y) % U32 == (x + y) % U32
  {
  }

  /** `checksum16`: the accumulator is 32 bits wide, so beyond MAX_LENGTH it may lose carries. */
  method Checksum16(data: seq<byte>) returns (c: nat)
    ensures c == 0xffff - Fold(WordSum(data) % U32)
    ensures |data| <= MAX_LENGTH ==> c == Sum16(data)
  {
    var sum, p := 0, 0;
    ghost var exact := 0;
    while |data| - p > 1
      invariant 0 <= p <= |data|
      invariant exact >= 0 && exact + WordSum(data[p..]) == WordSum(data)
      invariant sum == exact % U32
    {
      WordSumStep(data, p);
      WrapAdd(exact, Get16(data, p));
      sum := (sum + Get16(data, p)) % U32;
      exact := exact + Get16(data, p);
      p := p + 2;
    }
    WordSumStep(data, p);
    if |data| - p == 1 {
      WrapAdd(exact, 256 * data[p] as int);
      sum := (sum + 256 * data[p] as int) % U32;
    }
    assert sum == WordSum(data) % U32;
    sum := FoldLoop(sum);
    c := 0xffff - sum;
    if |data| <= MAX_LENGTH { WordSumFits(data); }
  }

  // IPv4 header

  /** The header as RFC 791 lays it out, with checksum field `check`. */
  function Ipv4Bytes(proto: byte, src: seq<byte>, dst: seq<byte>, payloadLen: nat, id: nat, check: nat): (h: seq<byte>)
    requires |src| == 4 && |dst| == 4 && id < U16 && check < U16
    ensures |h| == 20
  {
    [0x45, 0] + Put16((20 + payloadLen) % U16) + Put16(id) + Put16(0x4000) + [64, proto] + Put16(check) + src + dst
  }

  /** The header field by field (section 3.1 of RFC 791): version and length, total length, id, do not fragment, a
      time to live of 64, protocol, checksum, addresses. */
  lemma {:induction false} Ipv4Fields(proto: byte, src: seq<byte>, dst: seq<byte>, payloadLen: nat, id: nat, check: nat)
    requires |src| == 4 && |dst| == 4 && id < U16 && check < U16
    ensures var h := Ipv4Bytes(proto, src, dst, payloadLen, id, check);
            && |h| == 20 && h[0] == 0x45 && h[1] == 0
            && Big(h[2..4]) == (20 + payloadLen) % 0x1_0000 && Big(h[4..6]) == id
            && h[6] == 0x40 && h[7] == 0 && h[8] == 64 && h[9] == proto && Big(h[10..12]) == check
            && h[12..16] == src && h[16..20] == dst
  {
    hide Big;
    var h := Ipv4Bytes(proto, src, dst, payloadLen, id, check);
    PutIsBig((20 + payloadLen) % U16, 0);
    PutIsBig(id, 0);
    PutIsBig(check, 0);
    assert Put16(0x4000) == [0x40, 0];
    hide Put16;
    assert h[2..4] == Put16((20 + payloadLen) % U16) && h[4..6] == Put16(id) && h[10..12] == Put16(check);
  }

  lemma {:induction false} Ipv4Fill(proto: byte, src: seq<byte>, dst: seq<byte>, payloadLen: nat, id: nat, check: nat)
    requires |src| == 4 && |dst| == 4 && id < U16 && check < U16
    ensures Splice(Ipv4Bytes(proto, src, dst, payloadLen, id, 0), 10, Put16(check))
         == Ipv4Bytes(proto, src, dst, payloadLen, id, check)
  {
  }

  /** `make_ipv4`: the header written at `at` is the RFC 791 header of the arguments, and it verifies. */
  method MakeIpv4(p: array<byte>, at: nat, proto: byte, src: seq<byte>, dst: seq<byte>, payloadLen: nat, id: nat)
    returns (size: nat, nextId: nat)
    requires |src| == 4 && |dst| == 4 && payloadLen < U16 && id < U16 && at + 20 <= p.Length
    modifies p
    ensures size == 20 && nextId == (id + 1) % U16
    ensures exists check: nat | check < U16 ::
              var h := Ipv4Bytes(proto, src, dst, payloadLen, id, check);
              p[..] == Splice(old(p[..]), at, h) && Sum16(h) == 0
  {
    var zeroed := Ipv4Bytes(proto, src, dst, payloadLen, id, 0);
    hide Fold;
    CopyInto(p, at, zeroed);
    var check := Checksum16(p[at..at + 20]);
    assert p[at..at + 20] == zeroed;
    CopyInto(p, at + 10, Put16(check));
    StoredChecksumVerifies(zeroed, 10, 0);
    Ipv4Fill(proto, src, dst, payloadLen, id, check);
    assert p[..] == Splice(old(p[..]), at, Splice(zeroed, 10, Put16(check)));
    size, nextId := 20, (id + 1) % U16;
  }

  // TCP

  const IP_TCP: byte := 6

  /** The RFC 9293 pseudo-header of a segment of `len` bytes. */
  function Pseudo(src: seq<byte>, dst: seq<byte>, len: nat): (h: seq<byte>)
    requires |src| == 4 && |dst| == 4
    ensures |h| == 12
  {
    src + dst + [0, IP_TCP] + Put16(len % U16)
  }

  /** The pseudo-header of section 3.1 of RFC 9293: addresses, zero, protocol 6, length. */
  lemma {:induction false} PseudoFields(src: seq<byte>, dst: seq<byte>, len: nat)
    requires |src| == 4 && |dst| == 4
    ensures var h := Pseudo(src, dst, len);
            h[0..4] == src && h[4..8] == dst && h[8] == 0 && h[9] == 6 && Big(h[10..12]) == len % 0x1_0000
  {
    PutIsBig(len % U16, 0);
    hide Put16, Big;
    assert Pseudo(src, dst, len)[10..12] == Put16(len % U16);
  }

  lemma {:induction false} PseudoSum(src: seq<byte>, dst: seq<byte>, len: nat)
    requires |src| == 4 && |dst| == 4
    ensures WordSum(Pseudo(src, dst, len))
         == Get16(src, 0) + Get16(src, 2) + Get16(dst, 0) + Get16(dst, 2) + IP_TCP as int + len % U16
  {
    var h := Pseudo(src, dst, len);
    WordSumConcat(src, dst + [0, IP_TCP] + Put16(len % U16));
    assert h == src + (dst + [0, IP_TCP] + Put16(len % U16));
    WordSumConcat(dst, [0, IP_TCP] + Put16(len % U16));
    assert dst + [0, IP_TCP] + Put16(len % U16) == dst + ([0, IP_TCP] + Put16(len % U16));
    FourByteSum(src);
    FourByteSum(dst);
    FourByteSum([0, IP_TCP] + Put16(len % U16));
  }

  lemma {:induction false} FourByteSum(b: seq<byte>)
    requires |b| == 4
    ensures WordSum(b) == Get16(b, 0) + Get16(b, 2)
  {
    assert WordSum(b[2..]) == Get16(b[2..], 0) + WordSum(b[2..][2..]);
    assert WordSum(b[2..][2..]) == 0;
  }

  lemma {:induction false} Complement(b: seq<byte>)
    ensures Sum16(b) == 0xffff - Fold(WordSum(b))
  {
  }

  lemma {:induction false} PseudoFits(src: seq<byte>, dst: seq<byte>, tcp: seq<byte>)
    requires |src| == 4 && |dst| == 4 && |tcp| < U16
    ensures WordSum(Pseudo(src, dst, |tcp|) + tcp) == WordSum(Pseudo(src, dst, |tcp|)) + WordSum(tcp) < U32
  {
    hide WordSum;
    WordSumConcat(Pseudo(src, dst, |tcp|), tcp);
    WordSumBound(Pseudo(src, dst, |tcp|) + tcp);
  }

  /** `tcp_checksum`: the separate running sums amount to the checksum of pseudo-header and segment together. */
  method TcpChecksum(src: seq<byte>, dst: seq<byte>, tcp: seq<byte>) returns (c: nat)
    requires |src| == 4 && |dst| == 4 && |tcp| < U16
    ensures c == Sum16(Pseudo(src, dst, |tcp|) + tcp)
  {
    hide Fold, Sum16, Pseudo, Get16, WordSum;
    var sum := 0;
    var i := 0;
    while i < 4
      invariant i == 0 || i == 2 || i == 4
      invariant sum == (if i >= 2 then Get16(src, 0) + Get16(dst, 0) else 0)
                       + (if i == 4 then Get16(src, 2) + Get16(dst, 2) else 0)
    {
      sum := sum + Get16(src, i) + Get16(dst, i);
      i := i + 2;
    }
    sum := sum + IP_TCP as int + |tcp| % U16;
    PseudoSum(src, dst, |tcp|);
    i := 0;
    while i + 1 < |tcp|
      invariant 0 <= i <= |tcp| && i % 2 == 0
      invariant sum + WordSum(tcp[i..]) == WordSum(Pseudo(src, dst, |tcp|)) + WordSum(tcp)
    {
      WordSumStep(tcp, i);
      sum := sum + Get16(tcp, i);
      i := i + 2;
    }
    WordSumStep(tcp, i);
    if |tcp| % 2 == 1 {
      sum := sum + 256 * tcp[|tcp| - 1] as int;
    }
    PseudoFits(src, dst, tcp);
    sum := FoldLoop(sum);
    c := 0xffff - sum;
    Complement(Pseudo(src, dst, |tcp|) + tcp);
  }
}
