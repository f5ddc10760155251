/** The FAT16 builder and reader by bytes and numbers: which geometry each image size has, what else the image
    holds, and which boot sectors and directory entries the reader accepts. */
module Fat16Meaning {
  import opened Bytes
  import opened Fat16Geometry
  import opened Fat16Image
  import opened Fat16Volume
  import opened Fat16RoundTrip
  import Arith

  // The geometry of each image size

  /** The search with one cluster size passes through these FAT lengths and settles on the last. */
  ghost predicate Passes(total: nat, spc: nat, fats: seq<nat>)
    requires 0 < spc
    decreases |fats|
  {
    && fats != [] && DataSectors(total, fats[0]) > 0
    && NeededFat(total, spc, fats[0]) == (if |fats| == 1 then fats[0] else fats[1])
    && (|fats| > 1 ==> fats[0] != fats[1] && Passes(total, spc, fats[1..]))
  }

  lemma {:induction false} PassesSettle(total: nat, spc: nat, fats: seq<nat>, left: nat)
    requires 0 < spc && Passes(total, spc, fats) && |fats| <= left
    ensures var last := fats[|fats| - 1];
            Settle(total, spc, fats[0], left) == Some(last) && DataSectors(total, last) > 0
    decreases |fats|
  {
    hide NeededFat, DataSectors;
    if |fats| > 1 { PassesSettle(total, spc, fats[1..], left - 1); }
  }

  lemma {:induction false} TryAlong(total: nat, spc: nat, fats: seq<nat>)
    requires 0 < spc && Passes(total, spc, fats) && fats[0] == 1 && |fats| <= 16
    ensures var fat := fats[|fats| - 1];
            var clusters := (total - 36 - 2 * fat) / spc;
            Try(total, spc) == if 4085 <= clusters <= 65524 then Some(Geometry(total, spc, fat, clusters)) else None
  {
    hide NeededFat, Settle;
    PassesSettle(total, spc, fats, 16);
  }

  lemma {:induction false} TwoLengths(total: nat, spc: nat, b: nat)
    requires 0 < spc && b != 1 && DataSectors(total, 1) > 0 && DataSectors(total, b) > 0
    requires NeededFat(total, spc, 1) == b && NeededFat(total, spc, b) == b
    ensures Passes(total, spc, [1, b])
  {
    hide NeededFat, DataSectors;
    assert [1, b][1..] == [b];
    assert Passes(total, spc, [b]);
  }

  lemma {:induction false} ThreeLengths(total: nat, spc: nat, b: nat, c: nat)
    requires 0 < spc && b != 1 && b != c
    requires DataSectors(total, 1) > 0 && DataSectors(total, b) > 0 && DataSectors(total, c) > 0
    requires NeededFat(total, spc, 1) == b && NeededFat(total, spc, b) == c && NeededFat(total, spc, c) == c
    ensures Passes(total, spc, [1, b, c])
  {
    hide NeededFat, DataSectors;
    assert [1, b, c][1..] == [b, c] && [b, c][1..] == [c];
    assert Passes(total, spc, [c]);
    assert Passes(total, spc, [b, c]);
  }

  lemma {:induction false} Fit(total: nat, i: nat)
    requires i < |SIZES|
    ensures SIZES[i] > 0
    ensures FirstFit(total, i) == if Try(total, SIZES[i]).Some? then Try(total, SIZES[i]) else FirstFit(total, i + 1)
  {
    hide Try;
  }

  lemma {:induction false} FirstSizes()
    ensures SIZES[0] == 1 && SIZES[1] == 2 && SIZES[2] == 4 && SIZES[3] == 8 && SIZES[4] == 16 && |SIZES| == 8
  {
  }

  /** Division by its bounds. */
  predicate Whole(data: int, spc: nat, clusters: nat) {
    clusters * spc <= data < clusters * spc + spc
  }

  /** With FAT length `fat` there are `clusters` clusters, which need a FAT of length `next`. */
  predicate Round(total: nat, spc: nat, fat: nat, next: nat, clusters: nat)
    ensures Round(total, spc, fat, next, clusters) ==> 0 < spc
  {
    && 0 < spc && total > 36 + 2 * fat && Whole(total - 36 - 2 * fat, spc, clusters)
    && 512 * next - 512 < 2 * clusters + 4 <= 512 * next
  }

  lemma {:induction false} Needed(total: nat, spc: nat, fat: nat, next: nat, clusters: nat)
    requires Round(total, spc, fat, next, clusters)
    ensures DataSectors(total, fat) > 0 && NeededFat(total, spc, fat) == next
    ensures (total - 36 - 2 * fat) / spc == clusters
  {
    Arith.DivModUnique(total - 36 - 2 * fat, spc, clusters, total - 36 - 2 * fat - clusters * spc);
  }

  lemma {:induction false} TryTwo(total: nat, spc: nat, b: nat, k1: nat, k2: nat)
    requires Round(total, spc, 1, b, k1) && Round(total, spc, b, b, k2) && b != 1
    ensures Try(total, spc) == if 4085 <= k2 <= 65524 then Some(Geometry(total, spc, b, k2)) else None
  {
    hide NeededFat, DataSectors, Passes, Try, Round;
    Needed(total, spc, 1, b, k1);
    Needed(total, spc, b, b, k2);
    TwoLengths(total, spc, b);
    TryAlong(total, spc, [1, b]);
  }

  lemma {:induction false} TryThree(total: nat, spc: nat, b: nat, c: nat, k1: nat, k2: nat, k3: nat)
    requires Round(total, spc, 1, b, k1) && Round(total, spc, b, c, k2) && Round(total, spc, c, c, k3)
    requires b != 1 && b != c
    ensures Try(total, spc) == if 4085 <= k3 <= 65524 then Some(Geometry(total, spc, c, k3)) else None
  {
    hide NeededFat, DataSectors, Passes, Try, Round;
    Needed(total, spc, 1, b, k1);
    Needed(total, spc, b, c, k2);
    Needed(total, spc, c, c, k3);
    ThreeLengths(total, spc, b, c);
    TryAlong(total, spc, [1, b, c]);
  }

  lemma {:induction false} SmallTries()
    ensures Try(8192, 1) == Some(Geometry(8192, 1, 32, 8092))
    ensures Try(16384, 1) == Some(Geometry(16384, 1, 64, 16220))
    ensures Try(32768, 1) == Some(Geometry(32768, 1, 127, 32478))
    ensures Try(65536, 1) == Some(Geometry(65536, 1, 254, 64992))
  {
    hide Try;
    TryTwo(8192, 1, 32, 8154, 8092);
    TryTwo(16384, 1, 64, 16346, 16220);
    TryThree(32768, 1, 128, 127, 32730, 32476, 32478);
    TryThree(65536, 1, 256, 254, 65498, 64988, 64992);
  }

  lemma {:induction false} Tries64()
    ensures Try(131072, 1) == None
    ensures Try(131072, 2) == Some(Geometry(131072, 2, 255, 65263))
  {
    hide Try;
    TryThree(131072, 1, 512, 508, 131034, 130012, 130020);
    TryThree(131072, 2, 256, 255, 65517, 65262, 65263);
  }

  lemma {:induction false} Tries128()
    ensures Try(262144, 1) == None
    ensures Try(262144, 2) == None
    ensures Try(262144, 4) == Some(Geometry(262144, 4, 256, 65399))
  {
    hide Try;
    TryThree(262144, 1, 1024, 1016, 262106, 260060, 260076);
    TryThree(262144, 2, 512, 510, 131053, 130542, 130544);
    TryTwo(262144, 4, 256, 65526, 65399);
  }

  lemma {:induction false} Tries256()
    ensures Try(524288, 1) == None
    ensures Try(524288, 2) == None
    ensures Try(524288, 4) == None
    ensures Try(524288, 8) == Some(Geometry(524288, 8, 256, 65467))
  {
    hide Try;
    TryThree(524288, 1, 2048, 2032, 524250, 520156, 520188);
    TryThree(524288, 2, 1024, 1020, 262125, 261102, 261106);
    TryThree(524288, 4, 512, 511, 131062, 130807, 130807);
    TryTwo(524288, 8, 256, 65531, 65467);
  }

  lemma {:induction false} Tries512()
    ensures Try(1048576, 2) == None
    ensures Try(1048576, 4) == None
    ensures Try(1048576, 8) == None
    ensures Try(1048576, 16) == Some(Geometry(1048576, 16, 256, 65501))
  {
    hide Try;
    TryThree(1048576, 2, 2048, 2040, 524269, 522222, 522230);
    TryThree(1048576, 4, 1024, 1022, 262134, 261623, 261624);
    TryTwo(1048576, 8, 512, 131067, 130939);
    TryTwo(1048576, 16, 256, 65533, 65501);
  }

  /** One of the searches takes four lengths. */
  lemma {:induction false} FourLengths()
    ensures Try(1048576, 1) == None
  {
    hide NeededFat, DataSectors, Try;
    var n := 1048576;
    Needed(n, 1, 1, 4096, 1048538);
    Needed(n, 1, 4096, 4064, 1040348);
    Needed(n, 1, 4064, 4065, 1040412);
    Needed(n, 1, 4065, 4065, 1040410);
    assert [1, 4096, 4064, 4065][1..] == [4096, 4064, 4065] && [4096, 4064, 4065][1..] == [4064, 4065];
    assert [4064, 4065][1..] == [4065];
    assert Passes(n, 1, [4065]);
    assert Passes(n, 1, [4064, 4065]);
    assert Passes(n, 1, [4096, 4064, 4065]);
    TryAlong(n, 1, [1, 4096, 4064, 4065]);
  }

  lemma {:induction false} SmallImages()
    ensures FirstFit(8192, 0) == Some(Geometry(8192, 1, 32, 8092))
    ensures FirstFit(16384, 0) == Some(Geometry(16384, 1, 64, 16220))
    ensures FirstFit(32768, 0) == Some(Geometry(32768, 1, 127, 32478))
    ensures FirstFit(65536, 0) == Some(Geometry(65536, 1, 254, 64992))
  {
    hide Try, FirstFit;
    SmallTries();
    FirstSizes();
    Fit(8192, 0);
    Fit(16384, 0);
    Fit(32768, 0);
    Fit(65536, 0);
  }

  /** When only cluster size i works, of those up to it, it is chosen. */
  lemma {:induction false} FitsAtLast(total: nat, i: nat)
    requires i < 5 && (forall j :: 0 <= j < i ==> SIZES[j] > 0 && Try(total, SIZES[j]) == None)
    ensures SIZES[i] > 0 && (Try(total, SIZES[i]).Some? ==> FirstFit(total, 0) == Try(total, SIZES[i]))
  {
    hide Try, FirstFit;
    Fit(total, 0);
    Fit(total, 1);
    Fit(total, 2);
    Fit(total, 3);
    Fit(total, 4);
  }

  lemma {:induction false} LargeImages()
    ensures FirstFit(131072, 0) == Some(Geometry(131072, 2, 255, 65263))
    ensures FirstFit(262144, 0) == Some(Geometry(262144, 4, 256, 65399))
    ensures FirstFit(524288, 0) == Some(Geometry(524288, 8, 256, 65467))
    ensures FirstFit(1048576, 0) == Some(Geometry(1048576, 16, 256, 65501))
  {
    hide Try, FirstFit;
    FirstSizes();
    Tries64();
    Tries128();
    Tries256();
    Tries512();
    FourLengths();
    FitsAtLast(131072, 1);
    FitsAtLast(262144, 2);
    FitsAtLast(524288, 3);
    FitsAtLast(1048576, 4);
  }

  /** The geometry of an image of m MiB: sectors, sectors to a cluster, sectors to a FAT, clusters. */
  function Table(mib: nat): Geometry
    requires IsImageSize(mib)
  {
    if mib == 4 then Geometry(8192, 1, 32, 8092)
    else if mib == 8 then Geometry(16384, 1, 64, 16220)
    else if mib == 16 then Geometry(32768, 1, 127, 32478)
    else if mib == 32 then Geometry(65536, 1, 254, 64992)
    else if mib == 64 then Geometry(131072, 2, 255, 65263)
    else if mib == 128 then Geometry(262144, 4, 256, 65399)
    else if mib == 256 then Geometry(524288, 8, 256, 65467)
    else Geometry(1048576, 16, 256, 65501)
  }

  /** The eight geometries that the search can come to, and for which payloads each size suits: directories and
      files may take three quarters of the clusters. */
  lemma {:induction false} GeometryTable(mib: nat, boot: nat, kernel: nat, nb: nat, nk: nat)
    requires IsImageSize(mib)
    requires var bytes := 512 * Table(mib).spc;
             && 1 <= nb && boot <= nb * bytes && (nb == 1 || (nb - 1) * bytes < boot)
             && 1 <= nk && kernel <= nk * bytes && (nk == 1 || (nk - 1) * bytes < kernel)
    ensures FirstFit(2048 * mib, 0) == Some(Table(mib))
    ensures Suits(mib, boot, kernel) <==> 4 * (2 + nb + nk) <= 3 * Table(mib).clusters
  {
    hide FirstFit, FileClusters;
    SmallImages();
    LargeImages();
    FewestClusters(boot, Table(mib), nb);
    FewestClusters(kernel, Table(mib), nk);
    assert mib * MIB / BPS == 2048 * mib;
  }

  lemma {:induction false} FewestClusters(len: nat, g: Geometry, n: nat)
    requires 0 < g.spc && 1 <= n && len <= n * (512 * g.spc) && (n == 1 || (n - 1) * (512 * g.spc) < len)
    ensures FileClusters(len, g) == n
  {
    var b := g.ClusterBytes();
    CeilCovers(len, b);
    var c := CeilDiv(len, b);
    if c < n && n > 1 { Scale(c, n - 1, b); }
    if n < c { Scale(n, c - 1, b); Distribute(c - 1, 1, b); }
  }

  // The rest of the image

  /** The boot sector byte by byte, apart from the fields that depend on the geometry. */
  lemma {:induction false} BootSectorBytes(g: Geometry)
    requires g.spc < 256 && g.fatSectors < U16 && g.totalSectors < U32
    ensures var b := BootSector(g);
            && b[0..3] == [0xEB, 0x3C, 0x90]
            && b[3..11] == [0x4F, 0x52, 0x49, 0x4F, 0x4E, 0x46, 0x53, 0x20]
            && b[21] == 0xF8 && b[24..32] == [32, 0, 64, 0, 0, 0, 0, 0]
            && b[36..39] == [0x80, 0, 0x29] && b[39..43] == [0x4F, 0x49, 0x52, 0x4F]
            && b[43..54] == [0x55, 0x4E, 0x5F, 0x4F, 0x52, 0x49, 0x4F, 0x4E, 0x20, 0x20, 0x20]
            && b[54..62] == [0x46, 0x41, 0x54, 0x31, 0x36, 0x20, 0x20, 0x20]
            && (forall i :: 62 <= i < 510 ==> b[i] == 0)
  {
    ParameterBytes(g);
    LabelBytes();
    hide ParameterBlock, LABELS;
    SectorParts(ParameterBlock(g), LABELS);
  }

  lemma {:induction false} SectorParts(h: seq<byte>, l: seq<byte>)
    requires |h| == 36 && |l| == 26
    ensures var b := h + l + Zeros(448) + [0x55, 0xAA];
            && b[0..3] == h[0..3] && b[3..11] == h[3..11] && b[21] == h[21] && b[24..32] == h[24..32]
            && b[36..39] == l[0..3] && b[39..43] == l[3..7] && b[43..54] == l[7..18] && b[54..62] == l[18..26]
            && (forall i :: 62 <= i < 510 ==> b[i] == 0)
  {
    var b := h + l + Zeros(448) + [0x55, 0xAA];
    assert b[0..36] == h && b[36..62] == l;
    SliceOfSlice(b, 0, 36, 0, 3);
    SliceOfSlice(b, 0, 36, 3, 11);
    SliceOfSlice(b, 0, 36, 24, 32);
    SliceOfSlice(b, 36, 62, 0, 3);
    SliceOfSlice(b, 36, 62, 3, 7);
    SliceOfSlice(b, 36, 62, 7, 18);
    SliceOfSlice(b, 36, 62, 18, 26);
  }

  lemma {:induction false} LabelBytes()
    ensures |LABELS| == 26 && LABELS[0..3] == [0x80, 0, 0x29] && LABELS[3..7] == [0x4F, 0x49, 0x52, 0x4F]
    ensures LABELS[7..18] == [0x55, 0x4E, 0x5F, 0x4F, 0x52, 0x49, 0x4F, 0x4E, 0x20, 0x20, 0x20]
    ensures LABELS[18..26] == [0x46, 0x41, 0x54, 0x31, 0x36, 0x20, 0x20, 0x20]
  {
    var a, b: seq<byte> := [0x80, 0, 0x29], [0x4F, 0x49, 0x52, 0x4F];
    var c: seq<byte> := [0x55, 0x4E, 0x5F, 0x4F, 0x52, 0x49, 0x4F, 0x4E, 0x20, 0x20, 0x20];
    var d: seq<byte> := [0x46, 0x41, 0x54, 0x31, 0x36, 0x20, 0x20, 0x20];
    assert LABELS == a + b + c + d;
    PiecesOf(LABELS, a, b, c, d);
  }

  lemma {:induction false} PiecesOf(s: seq<byte>, a: seq<byte>, b: seq<byte>, c: seq<byte>, d: seq<byte>)
    requires s == a + b + c + d && |a| == 3 && |b| == 4 && |c| == 11 && |d| == 8
    ensures s[0..3] == a && s[3..7] == b && s[7..18] == c && s[18..26] == d
  {
  }

  lemma {:induction false} ParameterBytes(g: Geometry)
    requires g.spc < 256 && g.fatSectors < U16 && g.totalSectors < U32
    ensures var h := ParameterBlock(g);
            && h[0..3] == [0xEB, 0x3C, 0x90] && h[3..11] == [0x4F, 0x52, 0x49, 0x4F, 0x4E, 0x46, 0x53, 0x20]
            && h[21] == 0xF8 && h[24..32] == [32, 0, 64, 0, 0, 0, 0, 0]
  {
    hide PutLe16, PutLe32;
    var a := [0xEB, 0x3C, 0x90, 0x4F, 0x52, 0x49, 0x4F, 0x4E, 0x46, 0x53, 0x20];
    var b := PutLe16(BPS) + [g.spc] + PutLe16(RESERVED) + [NFATS] + PutLe16(ROOT_ENTRIES) + PutLe16(SmallTotal(g));
    var c := [0xF8] + PutLe16(g.fatSectors);
    var d := [32, 0, 64, 0, 0, 0, 0, 0] + PutLe32(LargeTotal(g));
    assert ParameterBlock(g) == a + b + c + d;
    hide ParameterBlock;
    FourParts(a, b, c, d);
    assert a[0..3] == [0xEB, 0x3C, 0x90] && a[3..11] == [0x4F, 0x52, 0x49, 0x4F, 0x4E, 0x46, 0x53, 0x20];
  }

  lemma {:induction false} FourParts(a: seq<byte>, b: seq<byte>, c: seq<byte>, d: seq<byte>)
    requires |a| == 11 && |b| == 10 && |c| == 3 && |d| == 12
    ensures var h := a + b + c + d;
            h[0..3] == a[0..3] && h[3..11] == a[3..11] && h[21] == c[0] && h[24..32] == d[0..8]
  {
  }

  /** Both directory clusters begin with their own entry, their parent's and the one child's; the rest is zero. */
  lemma {:induction false} DirectoriesMeaning(p: Payload)
    requires p.Ready()
    ensures 0 < p.g.spc && |p.boot| < U32
    ensures var d := EfiDirectory(p.g);
            && EntryOf(d[0..32]) == Dirent(NAME_DOT, 0x10, 2, 0)
            && EntryOf(d[32..64]) == Dirent(NAME_DOTDOT, 0x10, 0, 0)
            && EntryOf(d[64..96]) == Dirent(NAME_BOOT, 0x10, 3, 0) && forall i :: 96 <= i < |d| ==> d[i] == 0
    ensures var d := BootDirectory(p);
            && EntryOf(d[0..32]) == Dirent(NAME_DOT, 0x10, 3, 0)
            && EntryOf(d[32..64]) == Dirent(NAME_DOTDOT, 0x10, 2, 0)
            && EntryOf(d[64..96]) == Dirent(NAME_BOOTX64, 0x20, 4, |p.boot|) && forall i :: 96 <= i < |d| ==> d[i] == 0
  {
    hide Entry, FileClusters, Consistent, Roomy, IsTable;
    p.Fits();
    ThreeEntries(p.g, Entry(NAME_DOT, ATTR_DIR, 2, 0), Entry(NAME_DOTDOT, ATTR_DIR, 0, 0),
                 Entry(NAME_BOOT, ATTR_DIR, 3, 0));
    ThreeEntries(p.g, Entry(NAME_DOT, ATTR_DIR, 3, 0), Entry(NAME_DOTDOT, ATTR_DIR, 2, 0),
                 Entry(NAME_BOOTX64, ATTR_FILE, 4, |p.boot|));
  }

  lemma {:induction false} ThreeEntries(g: Geometry, a: seq<byte>, b: seq<byte>, c: seq<byte>)
    requires 0 < g.spc && |a| == 32 && |b| == 32 && |c| == 32
    ensures var d := Directory(g, a, b, c);
            && |d| >= 96 && d[0..32] == a && d[32..64] == b && d[64..96] == c && forall i :: 96 <= i < |d| ==> d[i] == 0
  {
  }

  /** The names that the round trip speaks of, in letters. */
  lemma {:induction false} NamesMeaning()
    ensures NAME_KERNEL == Ascii("KERNEL  ELF") && NAME_EFI == Ascii("EFI        ")
    ensures NAME_BOOT == Ascii("BOOT       ") && NAME_BOOTX64 == Ascii("BOOTX64 EFI")
    ensures NAME_DOT == Ascii(".          ") && NAME_DOTDOT == Ascii("..         ")
  {
  }

  function Ascii(s: string): seq<byte>
    requires forall i :: 0 <= i < |s| ==> s[i] < 128 as char
  {
    seq(|s|, i requires 0 <= i < |s| => s[i] as int as byte)
  }

  /** What no write covers stays zero. */
  lemma {:induction false} ImageBlank(p: Payload, i: nat)
    requires p.Ready() && i < p.g.ImageBytes()
    requires forall k :: 0 <= k < 9 ==> !(Writes(p)[k].at <= i < Writes(p)[k].at + |Writes(p)[k].data|)
    ensures Image(p)[i] == 0
  {
    hide Writes, IsTable, Consistent, Roomy, Apply;
    WritesAscend(p);
    Untouched(Zeros(p.g.ImageBytes()), Writes(p), i);
  }

  lemma {:induction false} Untouched(s: seq<byte>, ws: seq<Write>, i: nat)
    requires Ascending(ws, |s|) && i < |s|
    requires forall k :: 0 <= k < |ws| ==> !(ws[k].at <= i < ws[k].at + |ws[k].data|)
    ensures Apply(s, ws)[i] == s[i]
    decreases |ws|
  {
    if ws != [] {
      Untouched(s, ws[..|ws| - 1], i);
      hide Splice;
    }
  }

  // What the reader accepts

  /** Sector `lba` of the device can be read. */
  predicate Readable(dev: Device, lba: nat) {
    dev.usable && lba < dev.blockCount && lba !in dev.bad
  }

  function Sector(dev: Device, lba: nat): seq<byte>
    requires dev.Valid() && dev.blockSize == 512 && lba < dev.blockCount
  {
    dev.data[512 * lba..512 * lba + 512]
  }

  /** A boot sector of a FAT16 volume that fits into `room` blocks: behind the reserved sectors, the FATs and the
      sectors of the root entries there are from 4085 to 65524 whole clusters. */
  predicate BootAccepted(b: seq<byte>, room: nat)
    requires |b| == 512
  {
    var spc, reserved, fats := b[13] as int, Little(b[14..16]), b[16] as int;
    var entries, spf := Little(b[17..19]), Little(b[22..24]);
    var total := if Little(b[19..21]) != 0 then Little(b[19..21]) else Little(b[32..36]);
    var overhead := reserved + fats * spf + (32 * entries + 511) / 512;
    && b[510] == 0x55 && b[511] == 0xAA && Little(b[11..13]) == 512
    && spc in {1, 2, 4, 8, 16, 32, 64, 128}
    && reserved > 0 && fats > 0 && entries > 0 && spf > 0
    && overhead + 4085 * spc <= total < overhead + 65525 * spc && total <= room
  }

  /** Which volumes are mounted, by the bytes of the boot sector. */
  lemma {:induction false} MountIff(dev: Device, start: nat)
    requires dev.Valid()
    ensures Mount(dev, start).Some? <==>
              && dev.blockSize == 512 && Readable(dev, start)
              && BootAccepted(Sector(dev, start), dev.blockCount - start)
  {
    hide GetLe16, GetLe32, Little, Mount;
    if dev.blockSize == 512 && Readable(dev, start) {
      BootRead(dev, start);
      BootIff(dev, start, Sector(dev, start));
    } else {
      NotMounted(dev, start);
    }
  }

  lemma {:induction false} BootRead(dev: Device, start: nat)
    requires dev.Valid() && dev.blockSize == 512 && Readable(dev, start)
    ensures dev.Validates() && dev.Read(start) == Some(Sector(dev, start)) && |Sector(dev, start)| == 512
  {
  }

  lemma {:induction false} NotMounted(dev: Device, start: nat)
    requires dev.Valid() && !(dev.blockSize == 512 && Readable(dev, start))
    ensures Mount(dev, start).None?
  {
    hide GetLe16, GetLe32, Quotient, PowerOfTwoByte;
  }

  lemma {:induction false} BootIff(dev: Device, start: nat, b: seq<byte>)
    requires dev.Valid() && dev.Validates() && dev.blockSize == 512 && dev.Read(start) == Some(b) && |b| == 512
    requires start < dev.blockCount
    ensures Mount(dev, start).Some? <==> BootAccepted(b, dev.blockCount - start)
  {
    FieldsLittle(b) by { hide *; }
    var spc, reserved, fats := b[13] as int, GetLe16(b, 14), b[16] as int;
    var entries, spf := GetLe16(b, 17), GetLe16(b, 22);
    var total := if GetLe16(b, 19) != 0 then GetLe16(b, 19) else GetLe32(b, 32);
    var root := (32 * entries + 511) / 512;
    MountUnfold(dev, start, b, total, root);
    hide GetLe16, GetLe32, Little, Mount, Quotient, Device.Valid, Device.Validates, Device.Read;
    var overhead := reserved + fats * spf + root;
    if PowerOfTwoByte(spc) && total > overhead { ClusterRange(total - overhead, spc); }
  }

  lemma {:induction false} MountUnfold(dev: Device, start: nat, b: seq<byte>, total: nat, root: nat)
    requires dev.Valid() && dev.Validates() && dev.blockSize == 512 && dev.Read(start) == Some(b) && |b| == 512
    requires start < dev.blockCount
    requires total == (if GetLe16(b, 19) != 0 then GetLe16(b, 19) else GetLe32(b, 32))
    requires root == (32 * GetLe16(b, 17) + 511) / 512
    ensures var overhead := GetLe16(b, 14) + b[16] as int * GetLe16(b, 22) + root;
            Mount(dev, start).Some? <==>
              && b[510] == 0x55 && b[511] == 0xAA && GetLe16(b, 11) == 512 && PowerOfTwoByte(b[13] as int)
              && GetLe16(b, 14) != 0 && b[16] != 0 && GetLe16(b, 17) != 0 && GetLe16(b, 22) != 0
              && total > overhead && 4085 <= Quotient(total - overhead, b[13] as int) < 65525
              && total <= dev.blockCount - start
  {
    assert root == Quotient(GetLe16(b, 17) * 32 + 511, 512);
    hide GetLe16, GetLe32, PowerOfTwoByte, Quotient;
  }

  lemma {:induction false} FieldsLittle(b: seq<byte>)
    requires |b| == 512
    ensures Little(b[11..13]) == GetLe16(b, 11) && Little(b[14..16]) == GetLe16(b, 14)
    ensures Little(b[17..19]) == GetLe16(b, 17) && Little(b[19..21]) == GetLe16(b, 19)
    ensures Little(b[22..24]) == GetLe16(b, 22) && Little(b[32..36]) == GetLe32(b, 32)
  {
    hide GetLe16, GetLe32, Little;
    GetIsLittle(b, 11);
    GetIsLittle(b, 14);
    GetIsLittle(b, 17);
    GetIsLittle(b, 19);
    GetIsLittle(b, 22);
    GetIsLittle(b, 32);
  }

  /** The cluster count by the room for it. */
  lemma {:induction false} ClusterRange(data: nat, spc: nat)
    requires 0 < spc
    ensures Quotient(data, spc) >= 4085 <==> 4085 * spc <= data
    ensures Quotient(data, spc) < 65525 <==> data < 65525 * spc
  {
    QuotientFits(data, spc);
    var q := Quotient(data, spc);
    hide Quotient;
    if q < 4085 { Scale(q + 1, 4085, spc); } else { Scale(4085, q, spc); }
    if q < 65525 { Scale(q + 1, 65525, spc); } else { Scale(65525, q, spc); }
  }

  /** Root entry k lies 32 * k bytes into the root directory, if its sector belongs to it and can be read. */
  lemma {:induction false} RootEntryMeaning(dev: Device, v: Volume, k: nat)
    requires dev.Valid() && dev.blockSize == 512
    ensures RootEntry(dev, v, k).Some? <==> k < 16 * v.rootDirSectors && Readable(dev, v.firstRoot + k / 16)
    ensures RootEntry(dev, v, k).Some? ==>
              var at := 512 * v.firstRoot + 32 * k;
              at + 32 <= |dev.data| && RootEntry(dev, v, k).value == dev.data[at..at + 32]
  {
    var lba := v.firstRoot + k / 16;
    if RootEntry(dev, v, k).Some? {
      dev.BlockInside(lba);
      SliceOfSlice(dev.data, lba * 512, lba * 512 + 512, k % 16 * 32, k % 16 * 32 + 32);
      assert lba * 512 + k % 16 * 32 == 512 * v.firstRoot + 32 * k;
    }
  }

  /** The fields of a directory entry, and which entries a lookup passes over: deleted ones and those with the
      volume label bit, which long-name entries have too. */
  lemma {:induction false} EntryMeaning(e: seq<byte>)
    requires |e| == 32
    ensures var d := EntryOf(e);
            && d.name == e[..11] && d.attributes == e[11]
            && d.firstCluster == Little(e[26..28]) && d.size == Little(e[28..32])
    ensures Skipped(e) <==> e[0] == 0xE5 || e[11] / 8 % 2 == 1
  {
    GetIsLittle(e, 26);
    GetIsLittle(e, 28);
  }
}
