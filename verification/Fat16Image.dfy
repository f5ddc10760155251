/** The FAT16 image builder of tools/mkfat.py, with the geometry already chosen. */
module Fat16Image {
  import opened Bytes
  import opened Fat16Geometry
  import Arith

  const END_OF_CHAIN: nat := 0xFFFF

  // Pieces of the image

  /** 16-bit total sector count, or zero when it needs the 32-bit field. */
  function SmallTotal(g: Geometry): nat { if g.totalSectors < U16 then g.totalSectors else 0 }

  function LargeTotal(g: Geometry): nat { if g.totalSectors < U16 then 0 else g.totalSectors }

  ghost predicate Writable(g: Geometry) {
    Consistent(g) && g.totalSectors < U32
  }

  /** The BIOS parameter block with the jump and OEM name before it: bytes 0 to 36. */
  function ParameterBlock(g: Geometry): (b: seq<byte>)
    requires g.spc < 256 && g.fatSectors < U16 && g.totalSectors < U32
    ensures |b| == 36
  {
    [0xEB, 0x3C, 0x90, 0x4F, 0x52, 0x49, 0x4F, 0x4E, 0x46, 0x53, 0x20]
    + PutLe16(BPS) + [g.spc] + PutLe16(RESERVED) + [NFATS] + PutLe16(ROOT_ENTRIES) + PutLe16(SmallTotal(g))
    + [0xF8] + PutLe16(g.fatSectors) + [32, 0, 64, 0, 0, 0, 0, 0] + PutLe32(LargeTotal(g))
  }

  /** Drive number, serial number, label and file system name: bytes 36 to 62. */
  const LABELS: seq<byte> := [0x80, 0, 0x29, 0x4F, 0x49, 0x52, 0x4F,
                              0x55, 0x4E, 0x5F, 0x4F, 0x52, 0x49, 0x4F, 0x4E, 0x20, 0x20, 0x20,
                              0x46, 0x41, 0x54, 0x31, 0x36, 0x20, 0x20, 0x20]

  function BootSector(g: Geometry): (b: seq<byte>)
    requires g.spc < 256 && g.fatSectors < U16 && g.totalSectors < U32
    ensures |b| == BPS
  {
    ParameterBlock(g) + LABELS + Zeros(448) + [0x55, 0xAA]
  }

  /** Every field the reader looks at, at its offset. */
  lemma {:induction false} BootSectorFields(g: Geometry)
    requires g.spc < 256 && g.fatSectors < U16 && g.totalSectors < U32
    ensures var b := BootSector(g);
            && GetLe16(b, 11) == BPS && b[13] == g.spc && GetLe16(b, 14) == RESERVED && b[16] == NFATS
            && GetLe16(b, 17) == ROOT_ENTRIES && GetLe16(b, 19) == SmallTotal(g) && GetLe16(b, 22) == g.fatSectors
            && GetLe32(b, 32) == LargeTotal(g) && b[510] == 0x55 && b[511] == 0xAA
  {
    hide PutLe16, PutLe32, ParameterBlock;
    var b, h := BootSector(g), ParameterBlock(g);
    ParameterSlices(g);
    assert forall i :: 0 <= i < 36 ==> b[i] == h[i];
    LeFieldAt(h, 11);
    LeFieldAt(h, 14);
    LeFieldAt(h, 17);
    LeFieldAt(h, 19);
    LeFieldAt(h, 22);
    LeFieldAt(h, 32);
  }

  lemma {:induction false} ParameterSlices(g: Geometry)
    requires g.spc < 256 && g.fatSectors < U16 && g.totalSectors < U32
    ensures var h := ParameterBlock(g);
            && h[11..13] == PutLe16(BPS) && h[13] == g.spc && h[14..16] == PutLe16(RESERVED) && h[16] == NFATS
            && h[17..19] == PutLe16(ROOT_ENTRIES) && h[19..21] == PutLe16(SmallTotal(g))
            && h[22..24] == PutLe16(g.fatSectors) && h[32..36] == PutLe32(LargeTotal(g))
  {
    hide PutLe16, PutLe32;
    var h := ParameterBlock(g);
    var a := [0xEB, 0x3C, 0x90, 0x4F, 0x52, 0x49, 0x4F, 0x4E, 0x46, 0x53, 0x20] + PutLe16(BPS) + [g.spc]
             + PutLe16(RESERVED) + [NFATS];
    var b := PutLe16(ROOT_ENTRIES) + PutLe16(SmallTotal(g)) + [0xF8] + PutLe16(g.fatSectors);
    var c := [32, 0, 64, 0, 0, 0, 0, 0] + PutLe32(LargeTotal(g));
    assert |a| == 17 && |b| == 7 && |c| == 12 && h == a + b + c;
    ThreeParts(a, b, c);
    hide ParameterBlock;
    assert a[11..13] == PutLe16(BPS) && a[13] == g.spc && a[14..16] == PutLe16(RESERVED) && a[16] == NFATS;
    assert b[0..2] == PutLe16(ROOT_ENTRIES) && b[2..4] == PutLe16(SmallTotal(g)) && b[5..7] == PutLe16(g.fatSectors);
    assert c[8..12] == PutLe32(LargeTotal(g));
  }

  /** Slices of a parameter block in terms of its parts. */
  lemma {:induction false} ThreeParts(a: seq<byte>, b: seq<byte>, c: seq<byte>)
    requires |a| == 17 && |b| == 7 && |c| == 12
    ensures var h := a + b + c;
            && h[11..13] == a[11..13] && h[13] == a[13] && h[14..16] == a[14..16] && h[16] == a[16]
            && h[17..19] == b[0..2] && h[19..21] == b[2..4] && h[22..24] == b[5..7] && h[32..36] == c[8..12]
  {
  }

  lemma {:induction false} LeFieldAt(p: seq<byte>, o: nat)
    requires o + 4 <= |p|
    ensures GetLe16(p, o) == GetLe16(p[o..o + 2], 0) && GetLe32(p, o) == GetLe32(p[o..o + 4], 0)
  {
  }

  const NAME_EFI: seq<byte> := [0x45, 0x46, 0x49, 0x20, 0x20, 0x20, 0x20, 0x20, 0x20, 0x20, 0x20]
  const NAME_KERNEL: seq<byte> := [0x4B, 0x45, 0x52, 0x4E, 0x45, 0x4C, 0x20, 0x20, 0x45, 0x4C, 0x46]
  const NAME_BOOT: seq<byte> := [0x42, 0x4F, 0x4F, 0x54, 0x20, 0x20, 0x20, 0x20, 0x20, 0x20, 0x20]
  const NAME_BOOTX64: seq<byte> := [0x42, 0x4F, 0x4F, 0x54, 0x58, 0x36, 0x34, 0x20, 0x45, 0x46, 0x49]
  const NAME_DOT: seq<byte> := [0x2E, 0x20, 0x20, 0x20, 0x20, 0x20, 0x20, 0x20, 0x20, 0x20, 0x20]
  const NAME_DOTDOT: seq<byte> := [0x2E, 0x2E, 0x20, 0x20, 0x20, 0x20, 0x20, 0x20, 0x20, 0x20, 0x20]
  const ATTR_DIR: byte := 0x10
  const ATTR_FILE: byte := 0x20

  /** `ent`: one 32-byte directory entry. */
  function Entry(name: seq<byte>, attr: byte, cluster: nat, size: nat): (e: seq<byte>)
    requires |name| == 11 && cluster < U16 && size < U32
    ensures |e| == 32 && e[..11] == name && e[11] == attr && GetLe16(e, 26) == cluster && GetLe32(e, 28) == size
  {
    var e := name + [attr] + Zeros(14) + PutLe16(cluster) + PutLe32(size);
    assert e[26..28] == PutLe16(cluster) && e[28..32] == PutLe32(size);
    assert GetLe16(e, 26) == GetLe16(e[26..28], 0) && GetLe32(e, 28) == GetLe32(e[28..32], 0);
    e
  }

  /** A directory cluster: three entries, the rest zero. */
  function Directory(g: Geometry, first: seq<byte>, second: seq<byte>, third: seq<byte>): (d: seq<byte>)
    requires 0 < g.spc && |first| == 32 && |second| == 32 && |third| == 32
    ensures |d| == g.ClusterBytes()
  {
    first + second + third + Zeros(g.ClusterBytes() - 96)
  }

  // Cluster allocation

  /** Clusters `start`, `start+1`, ... `start+n-1` are linked in this order and the last one ends the chain. */
  predicate IsChain(fat: seq<nat>, start: nat, n: nat) {
    start + n <= |fat| && 0 < n
    && forall c :: start <= c < start + n ==> fat[c] == if c == start + n - 1 then END_OF_CHAIN else c + 1
  }

  /** Four chains in a row: the EFI directory, its BOOT directory, the boot loader and the kernel. */
  predicate IsTable(fat: seq<nat>, nb: nat, nk: nat) {
    && IsChain(fat, 2, 1) && IsChain(fat, 3, 1) && IsChain(fat, 4, nb) && IsChain(fat, 4 + nb, nk)
    && fat[0] == 0xFFF8 && fat[1] == 0xFFFF
    && (forall c :: 4 + nb + nk <= c < |fat| ==> fat[c] == 0)
    && (forall c :: 0 <= c < |fat| ==> fat[c] < U16)
  }

  /** The allocation state of the builder: the table under construction and the next free cluster. */
  class Allocator {
    var fat: seq<nat>
    var nextcl: nat
    const dataClusters: nat

    constructor (g: Geometry)
      requires 2 <= g.FatEntries()
      ensures fat == [0xFFF8, 0xFFFF] + seq(g.FatEntries() - 2, _ => 0) && nextcl == 2 && dataClusters == g.clusters
    {
      fat := [0xFFF8, 0xFFFF] + seq(g.FatEntries() - 2, _ => 0);
      nextcl := 2;
      dataClusters := g.clusters;
    }

    /** `ensure_clusters`: false stands for the program's exit. */
    method EnsureClusters(count: nat) returns (ok: bool)
      ensures ok <==> 1 <= count && nextcl + count <= dataClusters + 2 && nextcl + count <= |fat|
    {
      if count < 1 { return false; }
      var end := nextcl + count;
      ok := !(end > dataClusters + 2 || end > |fat|);
    }

    /** `alloc` (and `alloc_dir`, which is the case n = 1): link the next n clusters. */
    method Alloc(n: nat) returns (start: Option<nat>)
      modifies this
      ensures start.Some? <==> 1 <= n && old(nextcl) + n <= dataClusters + 2 && old(nextcl) + n <= |old(fat)|
      ensures start.Some? ==> start.value == old(nextcl) && nextcl == old(nextcl) + n && IsChain(fat, start.value, n)
                              && |fat| == |old(fat)|
                              && forall c :: 0 <= c < |fat| && !(old(nextcl) <= c < nextcl) ==> fat[c] == old(fat)[c]
      ensures start.None? ==> fat == old(fat) && nextcl == old(nextcl)
    {
      var ok := EnsureClusters(n);
      if !ok { return None; }
      var first := nextcl;
      for i := 0 to n
        invariant |fat| == |old(fat)| && nextcl == first
        invariant forall c :: first <= c < first + i ==> fat[c] == if c == first + n - 1 then END_OF_CHAIN else c + 1
        invariant forall c :: 0 <= c < |fat| && !(first <= c < first + i) ==> fat[c] == old(fat)[c]
      {
        fat := fat[first + i := if i == n - 1 then END_OF_CHAIN else first + i + 1];
      }
      nextcl := nextcl + n;
      start := Some(first);
    }
  }

  /** Allocation never reports a full image once the geometry search has succeeded. */
  method BuildTable(g: Geometry, nb: nat, nk: nat) returns (fat: seq<nat>)
    requires Consistent(g) && 1 <= nb && 1 <= nk && 4 + nb + nk <= g.clusters + 2
    ensures |fat| == g.FatEntries() && IsTable(fat, nb, nk)
  {
    ConsistentFits(g);
    var a := new Allocator(g);
    var cefi := a.Alloc(1);
    var cbootdir := a.Alloc(1);
    var cboot := a.Alloc(nb);
    var ckernel := a.Alloc(nk);
    assert cefi == Some(2) && cbootdir == Some(3) && cboot == Some(4) && ckernel == Some(4 + nb);
    fat := a.fat;
  }

  /** The table as bytes, two per entry, low byte first. */
  function FatBytes(fat: seq<nat>): (b: seq<byte>)
    requires forall c :: 0 <= c < |fat| ==> fat[c] < U16
    ensures |b| == 2 * |fat|
    ensures forall c :: 0 <= c < |fat| ==> GetLe16(b, 2 * c) == fat[c]
  {
    if fat == [] then []
    else
      var last := |fat| - 1;
      var b := FatBytes(fat[..last]) + PutLe16(fat[last]);
      assert forall c :: 0 <= c < last ==> GetLe16(b, 2 * c) == GetLe16(FatBytes(fat[..last]), 2 * c);
      b
  }

  // The whole image

  datatype Payload = Payload(g: Geometry, fat: seq<nat>, boot: seq<byte>, kernel: seq<byte>)
  {
    function Nb(): nat requires 0 < g.spc { FileClusters(|boot|, g) }
    function Nk(): nat requires 0 < g.spc { FileClusters(|kernel|, g) }

    ghost predicate Ready() {
      && Writable(g) && Roomy(g, |boot|, |kernel|)
      && |fat| == g.FatEntries() && IsTable(fat, Nb(), Nk())
    }

    /** Ready payloads fit: sizes and cluster numbers fit their fields, files fit their clusters. */
    lemma {:induction false} Fits()
      requires Ready()
      ensures 0 < g.spc <= 128 && g.fatSectors <= 256
      ensures 4 + Nb() + Nk() <= g.clusters + 2 <= |fat| && g.clusters + 2 < U16
      ensures |boot| <= Nb() * g.ClusterBytes() && |kernel| <= Nk() * g.ClusterBytes()
      ensures |boot| < U32 && |kernel| < U32
      ensures 2 * |fat| == g.fatSectors * BPS
      ensures g.ClusterOffset(2) + g.ClusterBytes() == g.ClusterOffset(3)
      ensures g.ClusterOffset(3) + g.ClusterBytes() == g.ClusterOffset(4)
      ensures g.ClusterOffset(4) + Nb() * g.ClusterBytes() == g.ClusterOffset(4 + Nb())
      ensures g.ClusterOffset(4 + Nb()) + Nk() * g.ClusterBytes() <= g.ImageBytes()
    {
      hide IsTable, Consistent, Roomy, FileClusters;
      ConsistentFits(g);
      RoomyFits(g, |boot|, |kernel|);
      Spread();
      SizesFit();
    }

    lemma {:induction false} Spread()
      requires Consistent(g) && 0 < g.spc && 4 + Nb() + Nk() <= g.clusters + 2
      ensures g.ClusterOffset(2) + g.ClusterBytes() == g.ClusterOffset(3)
      ensures g.ClusterOffset(3) + g.ClusterBytes() == g.ClusterOffset(4)
      ensures g.ClusterOffset(4) + Nb() * g.ClusterBytes() == g.ClusterOffset(4 + Nb())
      ensures g.ClusterOffset(4 + Nb()) + Nk() * g.ClusterBytes() <= g.ImageBytes()
    {
      hide Consistent, FileClusters;
      ClustersInside(g, 2, 1);
      ClustersInside(g, 3, 1);
      ClustersInside(g, 4, Nb());
      ClustersInside(g, 4 + Nb(), Nk());
    }

    lemma {:induction false} SizesFit()
      requires Consistent(g) && 0 < g.spc && 4 + Nb() + Nk() <= g.clusters + 2
      requires |boot| <= Nb() * g.ClusterBytes() && |kernel| <= Nk() * g.ClusterBytes()
      ensures g.clusters <= MAX_CLUSTERS && |boot| < U32 && |kernel| < U32
    {
      hide FileClusters;
      ConsistentFits(g);
      var cb := g.ClusterBytes();
      Arith.MulMono(cb, Nb(), MAX_CLUSTERS);
      Arith.MulMono(cb, Nk(), MAX_CLUSTERS);
    }
  }

  datatype Write = Write(at: nat, data: seq<byte>)

  /** Successive writes, each beginning after the previous one ends, all inside `limit` bytes. */
  predicate Ascending(ws: seq<Write>, limit: nat) {
    && (forall i, j :: 0 <= i < j < |ws| ==> ws[i].at + |ws[i].data| <= ws[j].at)
    && (forall i :: 0 <= i < |ws| ==> ws[i].at + |ws[i].data| <= limit)
  }

  function Apply(s: seq<byte>, ws: seq<Write>): (r: seq<byte>)
    requires Ascending(ws, |s|)
    ensures |r| == |s|
  {
    if ws == [] then s
    else
      var last := |ws| - 1;
      Splice(Apply(s, ws[..last]), ws[last].at, ws[last].data)
  }

  /** Ascending writes all survive. */
  lemma {:induction false} WriteSurvives(s: seq<byte>, ws: seq<Write>, k: nat)
    requires Ascending(ws, |s|) && k < |ws|
    ensures Apply(s, ws)[ws[k].at..ws[k].at + |ws[k].data|] == ws[k].data
    decreases |ws|
  {
    var last := |ws| - 1;
    var before := Apply(s, ws[..last]);
    if k < last {
      assert ws[..last][k] == ws[k];
      WriteSurvives(s, ws[..last], k);
      hide Splice;
      Elsewhere(before, ws[last].at, ws[last].data, ws[k].at, |ws[k].data|);
    }
  }

  lemma {:induction false} Elsewhere(s: seq<byte>, o: nat, d: seq<byte>, a: nat, n: nat)
    requires o + |d| <= |s| && a + n <= |s| && (a + n <= o || o + |d| <= a)
    ensures Splice(s, o, d)[a..a + n] == s[a..a + n]
  {
    var r := Splice(s, o, d);
    var x, y := r[a..a + n], s[a..a + n];
    forall i | 0 <= i < n ensures x[i] == y[i] {
      assert x[i] == r[a + i];
    }
  }

  /** Everything the builder writes, in the order it writes it. */
  ghost function Writes(p: Payload): (ws: seq<Write>)
    requires p.Ready()
    ensures |ws| == 9
  {
    p.Fits();
    var g := p.g;
    [ Write(0, BootSector(g)),
      Write(RESERVED * BPS, FatBytes(p.fat)),
      Write((RESERVED + g.fatSectors) * BPS, FatBytes(p.fat)),
      Write(g.RootOffset(), Entry(NAME_EFI, ATTR_DIR, 2, 0)),
      Write(g.RootOffset() + 32, Entry(NAME_KERNEL, ATTR_FILE, 4 + p.Nb(), |p.kernel|)),
      Write(g.ClusterOffset(2), EfiDirectory(g)),
      Write(g.ClusterOffset(3), BootDirectory(p)),
      Write(g.ClusterOffset(4), p.boot),
      Write(g.ClusterOffset(4 + p.Nb()), p.kernel) ]
  }

  function EfiDirectory(g: Geometry): (d: seq<byte>)
    requires 0 < g.spc
    ensures |d| == g.ClusterBytes()
  {
    Directory(g, Entry(NAME_DOT, ATTR_DIR, 2, 0), Entry(NAME_DOTDOT, ATTR_DIR, 0, 0), Entry(NAME_BOOT, ATTR_DIR, 3, 0))
  }

  function BootDirectory(p: Payload): (d: seq<byte>)
    requires 0 < p.g.spc && |p.boot| < U32
    ensures |d| == p.g.ClusterBytes()
  {
    Directory(p.g, Entry(NAME_DOT, ATTR_DIR, 3, 0), Entry(NAME_DOTDOT, ATTR_DIR, 2, 0),
              Entry(NAME_BOOTX64, ATTR_FILE, 4, |p.boot|))
  }

  lemma {:induction false} WritesAscend(p: Payload)
    requires p.Ready()
    ensures Ascending(Writes(p), p.g.ImageBytes())
  {
    hide Entry, BootSector, FatBytes, EfiDirectory, BootDirectory, FileClusters, IsTable, Consistent, Roomy;
    p.Fits();
    var ws := Writes(p);
    forall i | 0 < i < 9 ensures Follows(ws, i) {}
    StepsAscend(ws, p.g.ImageBytes());
  }

  predicate Follows(ws: seq<Write>, i: nat)
    requires 0 < i < |ws|
  {
    ws[i - 1].at + |ws[i - 1].data| <= ws[i].at
  }

  lemma {:induction false} StepsAscend(ws: seq<Write>, limit: nat)
    requires |ws| > 0 && forall i :: 0 < i < |ws| ==> Follows(ws, i)
    requires ws[|ws| - 1].at + |ws[|ws| - 1].data| <= limit
    ensures Ascending(ws, limit)
  {
    if |ws| > 1 {
      var last := |ws| - 1;
      assert forall i :: 0 < i < last ==> Follows(ws, i) ==> Follows(ws[..last], i);
      assert Follows(ws, last);
      StepsAscend(ws[..last], ws[last].at);
    }
  }

  /** The image as a value. */
  ghost function Image(p: Payload): (img: seq<byte>)
    requires p.Ready()
    ensures |img| == p.g.ImageBytes()
  {
    WritesAscend(p);
    Apply(Zeros(p.g.ImageBytes()), Writes(p))
  }

  /** `write_cluster` for each piece of a file: together the pieces are the whole file. */
  method WriteFile(image: array<byte>, g: Geometry, start: nat, blob: seq<byte>, n: nat)
    requires 0 < g.spc && 2 <= start && |blob| <= n * g.ClusterBytes()
    requires g.ClusterOffset(start) + |blob| <= image.Length
    modifies image
    ensures image[..] == Splice(old(image[..]), g.ClusterOffset(start), blob)
  {
    var cb := g.ClusterBytes();
    var base := g.ClusterOffset(start);
    ghost var before := image[..];
    assert Splice(before, base, blob[..0]) == before;
    for i := 0 to n
      invariant image[..] == Splice(before, base, blob[..Min(i * cb, |blob|)])
    {
      var lo, hi := Min(i * cb, |blob|), Min((i + 1) * cb, |blob|);
      assert i * cb + cb == (i + 1) * cb;
      assert lo < hi ==> g.ClusterOffset(start + i) == base + lo by { Distribute(start - 2, i, cb); }
      if lo < hi {
        CopyInto(image, g.ClusterOffset(start + i), blob[lo..hi]);
        ExtendSplice(before, base, blob, lo, hi);
      }
    }
    assert blob[..|blob|] == blob;
  }

  lemma {:induction false} ExtendSplice(s: seq<byte>, o: nat, d: seq<byte>, lo: nat, hi: nat)
    requires o + |d| <= |s| && lo <= hi <= |d|
    ensures Splice(Splice(s, o, d[..lo]), o + lo, d[lo..hi]) == Splice(s, o, d[..hi])
  {
  }

  /** The first k writes are done, on a zeroed image. */
  ghost predicate Written(p: Payload, content: seq<byte>, k: nat)
    requires p.Ready() && k <= 9
  {
    WritesAscend(p);
    content == Apply(Zeros(p.g.ImageBytes()), Writes(p)[..k])
  }

  /** One more write, in place. */
  method PutNext(image: array<byte>, ghost p: Payload, ghost k: nat, at: nat, data: seq<byte>)
    requires p.Ready() && k < 9 && Written(p, image[..], k) && Writes(p)[k] == Write(at, data)
    modifies image
    ensures Written(p, image[..], k + 1)
  {
    NextWrite(p, image[..], k);
    hide *;
    CopyInto(image, at, data);
  }

  lemma {:induction false} NextWrite(p: Payload, content: seq<byte>, k: nat)
    requires p.Ready() && k < 9 && Written(p, content, k)
    ensures var w := Writes(p)[k];
            && |content| == p.g.ImageBytes() && w.at + |w.data| <= |content|
            && Written(p, Splice(content, w.at, w.data), k + 1)
  {
    WritesAscend(p);
    hide Writes, Apply;
    ApplyNext(Zeros(p.g.ImageBytes()), Writes(p), k);
  }

  /** The assembly of the image in place. */
  method BuildImage(g: Geometry, boot: seq<byte>, kernel: seq<byte>) returns (image: array<byte>, p: Payload)
    requires Writable(g) && Roomy(g, |boot|, |kernel|)
    ensures p.Ready() && p.g == g && p.boot == boot && p.kernel == kernel
    ensures image[..] == Image(p)
  {
    p := Prepare(g, boot, kernel);
    image := new byte[g.ImageBytes()](_ => 0);
    assert image[..] == Zeros(g.ImageBytes());
    hide *;
    Blank(p, image[..]);
    WriteSystem(image, p);
    WriteDirectories(image, p);
    WriteFiles(image, p);
    Complete(p, image[..]);
  }

  method Prepare(g: Geometry, boot: seq<byte>, kernel: seq<byte>) returns (p: Payload)
    requires Writable(g) && Roomy(g, |boot|, |kernel|)
    ensures p.Ready() && p.g == g && p.boot == boot && p.kernel == kernel
  {
    hide IsTable;
    RoomyFits(g, |boot|, |kernel|);
    var fat := BuildTable(g, FileClusters(|boot|, g), FileClusters(|kernel|, g));
    p := Payload(g, fat, boot, kernel);
  }

  lemma {:induction false} FileWrites(p: Payload)
    requires p.Ready()
    ensures Writes(p)[7] == Write(p.g.ClusterOffset(4), p.boot)
    ensures Writes(p)[8] == Write(p.g.ClusterOffset(4 + FileClusters(|p.boot|, p.g)), p.kernel)
  {
  }

  method WriteFiles(image: array<byte>, p: Payload)
    requires p.Ready() && Written(p, image[..], 7)
    modifies image
    ensures Written(p, image[..], 9)
  {
    hide Written, Writes, IsTable, Consistent, Roomy;
    p.Fits();
    FileWrites(p);
    var nb, nk := FileClusters(|p.boot|, p.g), FileClusters(|p.kernel|, p.g);
    NextWrite(p, image[..], 7);
    WriteFile(image, p.g, 4, p.boot, nb);
    NextWrite(p, image[..], 8);
    WriteFile(image, p.g, 4 + nb, p.kernel, nk);
  }

  lemma {:induction false} Blank(p: Payload, content: seq<byte>)
    requires p.Ready() && content == Zeros(p.g.ImageBytes())
    ensures Written(p, content, 0)
  {
    WritesAscend(p);
  }

  lemma {:induction false} Complete(p: Payload, content: seq<byte>)
    requires p.Ready() && Written(p, content, 9)
    ensures content == Image(p)
  {
    assert Writes(p)[..9] == Writes(p);
  }

  method WriteSystem(image: array<byte>, p: Payload)
    requires p.Ready() && Written(p, image[..], 0)
    modifies image
    ensures Written(p, image[..], 5)
  {
    hide Written, Entry, BootSector, FatBytes, EfiDirectory, BootDirectory, IsTable, Consistent, Roomy;
    p.Fits();
    var g := p.g;
    assert Consistent(g) && IsTable(p.fat, p.Nb(), p.Nk());
    PutNext(image, p, 0, 0, BootSector(g));
    var table := FatTable(p);
    PutNext(image, p, 1, RESERVED * BPS, table);
    PutNext(image, p, 2, (RESERVED + g.fatSectors) * BPS, table);
    PutNext(image, p, 3, g.RootOffset(), Entry(NAME_EFI, ATTR_DIR, 2, 0));
    PutNext(image, p, 4, g.RootOffset() + 32, Entry(NAME_KERNEL, ATTR_FILE, 4 + FileClusters(|p.boot|, g), |p.kernel|));
  }

  method FatTable(p: Payload) returns (table: seq<byte>)
    requires p.Ready()
    ensures table == FatBytes(p.fat)
  {
    table := FatBytes(p.fat);
  }

  method WriteDirectories(image: array<byte>, p: Payload)
    requires p.Ready() && Written(p, image[..], 5)
    modifies image
    ensures Written(p, image[..], 7)
  {
    hide Written, Entry, BootSector, FatBytes, EfiDirectory, BootDirectory, FileClusters, IsTable, Consistent, Roomy;
    p.Fits();
    PutNext(image, p, 5, p.g.ClusterOffset(2), EfiDirectory(p.g));
    PutNext(image, p, 6, p.g.ClusterOffset(3), BootDirectory(p));
  }

  lemma {:induction false} ApplyNext(s: seq<byte>, ws: seq<Write>, k: nat)
    requires Ascending(ws, |s|) && k < |ws|
    ensures Apply(s, ws[..k + 1]) == Splice(Apply(s, ws[..k]), ws[k].at, ws[k].data)
  {
    assert ws[..k + 1][..k] == ws[..k];
  }

  /** Each of the builder's writes is found in the image, unchanged by the later ones. */
  lemma {:induction false} ImageHolds(p: Payload, k: nat)
    requires p.Ready() && k < 9
    ensures var w := Writes(p)[k];
            w.at + |w.data| <= p.g.ImageBytes() && Image(p)[w.at..w.at + |w.data|] == w.data
  {
    WritesAscend(p);
    hide Writes, Apply;
    WriteSurvives(Zeros(p.g.ImageBytes()), Writes(p), k);
  }
}
