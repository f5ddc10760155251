/** Bytes, fixed-width fields in both byte orders, and the helpers shared by the other modules. */
module Bytes {
  type byte = x: int | 0 <= x < 256

  const U16: nat := 0x1_0000
  const U32: nat := 0x1_0000_0000
  const U64: nat := 0x1_0000_0000_0000_0000

  datatype Option<+T> = None | Some(value: T)

  function Min(a: int, b: int): (m: int)
    ensures m == a <= b || m == b < a
  {
    if a <= b then a else b
  }

  /** True when the given power-of-two bit of a flags byte is set. */
  predicate HasBit(flags: byte, bit: nat)
    requires 0 < bit
  {
    flags / bit % 2 == 1
  }

  function Zeros(n: nat): (z: seq<byte>)
    ensures |z| == n && forall i :: 0 <= i < n ==> z[i] == 0
  {
    seq(n, _ => 0)
  }

  /** ASCII lower case. */
  function Lower(c: char): char {
    if 'A' <= c <= 'Z' then (c as int + 32) as char else c
  }

  // Big-endian fields (network byte order)

  function Get16(b: seq<byte>, o: nat): (v: nat)
    requires o + 2 <= |b|
    ensures v < U16
  {
    (b[o] as int) * 256 + b[o + 1] as int
  }

  function Put16(v: nat): (b: seq<byte>)
    requires v < U16
    ensures |b| == 2 && Get16(b, 0) == v
  {
    [v / 256, v % 256]
  }

  function Get32(b: seq<byte>, o: nat): (v: nat)
    requires o + 4 <= |b|
    ensures v < U32
  {
    Get16(b, o) * U16 + Get16(b, o + 2)
  }

  function Put32(v: nat): (b: seq<byte>)
    requires v < U32
    ensures |b| == 4 && Get32(b, 0) == v
  {
    Put16(v / U16) + Put16(v % U16)
  }

  /** The number a byte string spells, most significant byte first. */
  function Big(b: seq<byte>): nat {
    if b == [] then 0 else 256 * Big(b[..|b| - 1]) + b[|b| - 1] as int
  }

  lemma {:induction false} PutIsBig(v: nat, w: nat)
    requires v < U16 && w < U32
    ensures Big(Put16(v)) == v && Big(Put32(w)) == w
  {
    BigOfTwo(v / 256, v % 256);
    BigOfFour(w / U16 / 256, w / U16 % 256, w % U16 / 256, w % U16 % 256);
    assert Put32(w) == [w / U16 / 256, w / U16 % 256, w % U16 / 256, w % U16 % 256];
  }

  lemma {:induction false} BigOfTwo(a: byte, b: byte)
    ensures Big([a, b]) == a as int * 256 + b as int
  {
    assert Big([a]) == a as int by { assert [a][..0] == []; }
    assert [a, b][..1] == [a];
  }

  lemma {:induction false} BigOfFour(a: byte, b: byte, c: byte, d: byte)
    ensures Big([a, b, c, d]) == ((a as int * 256 + b as int) * 256 + c as int) * 256 + d as int
  {
    BigOfTwo(a, b);
    assert Big([a, b, c]) == Big([a, b]) * 256 + c as int by { assert [a, b, c][..2] == [a, b]; }
    assert [a, b, c, d][..3] == [a, b, c];
  }

  // Little-endian fields (FAT on-disk order)

  function GetLe16(b: seq<byte>, o: nat): (v: nat)
    requires o + 2 <= |b|
    ensures v < U16
  {
    b[o] as int + 256 * (b[o + 1] as int)
  }

  function PutLe16(v: nat): (b: seq<byte>)
    requires v < U16
    ensures |b| == 2 && GetLe16(b, 0) == v
  {
    [v % 256, v / 256]
  }

  function GetLe32(b: seq<byte>, o: nat): (v: nat)
    requires o + 4 <= |b|
    ensures v < U32
  {
    GetLe16(b, o) + U16 * GetLe16(b, o + 2)
  }

  function PutLe32(v: nat): (b: seq<byte>)
    requires v < U32
    ensures |b| == 4 && GetLe32(b, 0) == v
  {
    PutLe16(v % U16) + PutLe16(v / U16)
  }

  /** The number a byte string spells, least significant byte first. */
  function Little(b: seq<byte>): nat {
    if b == [] then 0 else b[0] as int + 256 * Little(b[1..])
  }

  lemma {:induction false} GetIsLittle(b: seq<byte>, o: nat)
    ensures o + 2 <= |b| ==> GetLe16(b, o) == Little(b[o..o + 2])
    ensures o + 4 <= |b| ==> GetLe32(b, o) == Little(b[o..o + 4])
  {
    if o + 2 <= |b| {
      LittleOfTwo(b[o], b[o + 1]);
      assert b[o..o + 2] == [b[o], b[o + 1]];
    }
    if o + 4 <= |b| {
      LittleOfFour(b[o], b[o + 1], b[o + 2], b[o + 3]);
      assert b[o..o + 4] == [b[o], b[o + 1], b[o + 2], b[o + 3]];
    }
  }

  lemma {:induction false} LittleOfTwo(a: byte, b: byte)
    ensures Little([a, b]) == a as int + 256 * (b as int)
  {
    assert Little([b]) == b as int by { assert [b][1..] == []; }
    assert [a, b][1..] == [b];
  }

  lemma {:induction false} LittleOfFour(a: byte, b: byte, c: byte, d: byte)
    ensures Little([a, b, c, d]) == a as int + 256 * (b as int + 256 * (c as int + 256 * (d as int)))
  {
    LittleOfTwo(c, d);
    assert Little([b, c, d]) == b as int + 256 * Little([c, d]) by { assert [b, c, d][1..] == [c, d]; }
    assert [a, b, c, d][1..] == [b, c, d];
  }

  /** `s` with the stretch starting at `o` overwritten by `d`. */
  function Splice<T>(s: seq<T>, o: nat, d: seq<T>): (r: seq<T>)
    requires o + |d| <= |s|
    ensures |r| == |s|
    ensures r[o..o + |d|] == d
    ensures forall i :: 0 <= i < |s| && !(o <= i < o + |d|) ==> r[i] == s[i]
  {
    s[..o] + d + s[o + |d|..]
  }

  lemma {:induction false} SpliceFront<T>(s: seq<T>, o: nat, d: seq<T>)
    requires o + |d| <= |s|
    ensures Splice(s, o, d)[..o + |d|] == s[..o] + d
  {
  }

  lemma {:induction false} SliceOfSlice<T>(s: seq<T>, a: nat, b: nat, i: nat, j: nat)
    requires a <= b <= |s| && i <= j <= b - a
    ensures s[a..b][i..j] == s[a + i..a + j]
  {
    var x, y := s[a..b][i..j], s[a + i..a + j];
    assert forall k :: 0 <= k < j - i ==> x[k] == s[a..b][i + k] == s[a + i + k] == y[k];
  }

  lemma {:induction false} Assoc(a: seq<byte>, b: seq<byte>, c: seq<byte>)
    ensures a + b + c == a + (b + c)
  {
  }

  /** The kernel's byte copy loops: `src` lands at `at`, everything else stays. */
  method CopyInto(dst: array<byte>, at: nat, src: seq<byte>)
    requires at + |src| <= dst.Length
    modifies dst
    ensures dst[..] == Splice(old(dst[..]), at, src)
  {
    for i := 0 to |src|
      invariant dst[..] == Splice(old(dst[..]), at, src[..i])
    {
      dst[at + i] := src[i];
    }
    assert src[..|src|] == src;
  }
}
