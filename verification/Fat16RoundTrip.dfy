/** The builder and the reader agree: an image written by the one is mounted by the other with the same geometry, and
    the files on it read back. */
module Fat16RoundTrip {
  import opened Bytes
  import opened Fat16Geometry
  import opened Fat16Image
  import opened Fat16Volume
  import Arith

  /** A device that carries the built image from block `start` on. */
  ghost predicate Carries(dev: Device, start: nat, p: Payload) {
    && dev.Valid() && dev.usable && dev.blockSize == 512 && dev.bad == {} && p.Ready()
    && start * 512 + p.g.ImageBytes() <= |dev.data|
    && dev.data[start * 512..start * 512 + p.g.ImageBytes()] == Image(p)
  }

  function VolumeOf(g: Geometry, start: nat): Volume {
    Volume(start, g.totalSectors, BPS, g.spc, RESERVED, NFATS, ROOT_ENTRIES, g.fatSectors, ROOT_SECS, g.clusters,
           start + RESERVED, start + RESERVED + NFATS * g.fatSectors,
           start + RESERVED + NFATS * g.fatSectors + ROOT_SECS)
  }

  /** Any stretch written into the image is found on the device. */
  lemma {:induction false} OnDevice(dev: Device, start: nat, p: Payload, k: nat)
    requires Carries(dev, start, p) && k < 9
    ensures var w := Writes(p)[k];
            && w.at + |w.data| <= p.g.ImageBytes()
            && dev.data[start * 512 + w.at..start * 512 + w.at + |w.data|] == w.data
  {
    hide Writes, Image;
    ImageHolds(p, k);
    var w := Writes(p)[k];
    SliceOfSlice(dev.data, start * 512, start * 512 + p.g.ImageBytes(), w.at, w.at + |w.data|);
  }

  // Mounting

  lemma {:induction false} MountsBack(dev: Device, start: nat, p: Payload)
    requires Carries(dev, start, p)
    ensures Mount(dev, start) == Some(VolumeOf(p.g, start))
  {
    hide Image, IsTable, Roomy, NeededFat, Writes, BootSector, GetLe16, GetLe32;
    var g := p.g;
    p.Fits();
    OnDevice(dev, start, p, 0);
    SystemWrites(p);
    BlocksEnough(dev, start, g);
    BootSectorFields(g);
    MountReads(dev, start, g, BootSector(g));
  }

  lemma {:induction false} MountReads(dev: Device, start: nat, g: Geometry, b: seq<byte>)
    requires dev.Valid() && dev.Validates() && dev.blockSize == 512 && |b| == 512 && dev.Read(start) == Some(b)
    requires Consistent(g) && g.totalSectors < U32
    requires start < dev.blockCount && g.totalSectors <= dev.blockCount - start
    requires GetLe16(b, 11) == BPS && b[13] == g.spc && GetLe16(b, 14) == RESERVED && b[16] == NFATS
          && GetLe16(b, 17) == ROOT_ENTRIES && GetLe16(b, 19) == SmallTotal(g) && GetLe16(b, 22) == g.fatSectors
          && GetLe32(b, 32) == LargeTotal(g) && b[510] == 0x55 && b[511] == 0xAA
    ensures Mount(dev, start) == Some(VolumeOf(g, start))
  {
    hide GetLe16, GetLe32, NeededFat;
    assert Quotient(ROOT_ENTRIES * 32 + BPS - 1, BPS) == ROOT_SECS;
    assert PowerOfTwoByte(g.spc);
    assert Quotient(DataSectors(g.totalSectors, g.fatSectors), g.spc) == g.clusters;
    hide Quotient, PowerOfTwoByte;
  }

  lemma {:induction false} SystemWrites(p: Payload)
    requires p.Ready()
    ensures 0 < p.g.spc && p.g.spc < 256 && p.g.fatSectors < U16
    ensures Writes(p)[0] == Write(0, BootSector(p.g))
  {
    hide BootSector, Entry, FatBytes, EfiDirectory, BootDirectory;
    p.Fits();
  }

  lemma {:induction false} TableWrites(p: Payload)
    requires p.Ready()
    ensures Writes(p)[1] == Write(RESERVED * BPS, FatBytes(p.fat))
    ensures Writes(p)[2] == Write((RESERVED + p.g.fatSectors) * BPS, FatBytes(p.fat))
  {
    hide BootSector, Entry, FatBytes, EfiDirectory, BootDirectory, IsTable, Consistent, Roomy;
  }

  lemma {:induction false} BlocksEnough(dev: Device, start: nat, g: Geometry)
    requires dev.Valid() && dev.usable && dev.blockSize == 512 && dev.bad == {} && Consistent(g)
    requires start * 512 + g.ImageBytes() <= |dev.data|
    ensures start < dev.blockCount && g.totalSectors <= dev.blockCount - start
    ensures dev.Read(start) == Some(dev.data[start * 512..start * 512 + 512])
  {
  }

  // Root directory

  lemma {:induction false} RootSectorRead(dev: Device, start: nat, p: Payload, e: seq<byte>, k: nat, w: nat)
    requires Carries(dev, start, p) && k < 16 && w < 9 && |e| == 32
    requires Writes(p)[w] == Write(p.g.RootOffset() + 32 * k, e)
    ensures RootEntry(dev, VolumeOf(p.g, start), k) == Some(e)
  {
    hide Writes, Image, IsTable, Consistent, Roomy;
    var g, v := p.g, VolumeOf(p.g, start);
    OnDevice(dev, start, p, w);
    p.Fits();
    assert dev.blockCount * 512 == |dev.data|;
    assert v.firstRoot * 512 == start * 512 + g.RootOffset();
    assert v.firstRoot < dev.blockCount;
    assert dev.Read(v.firstRoot).Some? by { assert dev.Validates(); }
    var b := dev.Read(v.firstRoot).value;
    var at := v.firstRoot * 512;
    assert b == dev.data[at..at + 512];
    SliceOfSlice(dev.data, at, at + 512, 32 * k, 32 * k + 32);
  }

  /** `fat16_find_root` finds the kernel with its size and first cluster. */
  lemma {:induction false} FindsKernel(dev: Device, start: nat, p: Payload)
    requires Carries(dev, start, p)
    ensures p.g.spc > 0
    ensures Scan(dev, VolumeOf(p.g, start), NAME_KERNEL, 0)
         == Found(Dirent(NAME_KERNEL, ATTR_FILE, 4 + p.Nb(), |p.kernel|))
    ensures Scan(dev, VolumeOf(p.g, start), NAME_EFI, 0) == Found(Dirent(NAME_EFI, ATTR_DIR, 2, 0))
  {
    hide Image, Writes, RootEntry, Scan, IsTable, Consistent, Roomy, Entry, FileClusters;
    p.Fits();
    RootWrites(p);
    var v := VolumeOf(p.g, start);
    var e0 := Entry(NAME_EFI, ATTR_DIR, 2, 0);
    var e1 := Entry(NAME_KERNEL, ATTR_FILE, 4 + p.Nb(), |p.kernel|);
    RootSectorRead(dev, start, p, e0, 0, 3);
    RootSectorRead(dev, start, p, e1, 1, 4);
    assert e0[0] == e0[..11][0] == 0x45 && e1[0] == e1[..11][0] == 0x4B;
    assert NAME_EFI[1] != NAME_KERNEL[1];
    ScanTwo(dev, v, NAME_KERNEL, e0, e1);
    ScanTwo(dev, v, NAME_EFI, e0, e1);
  }

  lemma {:induction false} RootWrites(p: Payload)
    requires p.Ready()
    ensures 0 < p.g.spc && |p.kernel| < U32 && 4 + p.Nb() < U16
    ensures Writes(p)[3] == Write(p.g.RootOffset() + 32 * 0, Entry(NAME_EFI, ATTR_DIR, 2, 0))
    ensures Writes(p)[4] == Write(p.g.RootOffset() + 32 * 1, Entry(NAME_KERNEL, ATTR_FILE, 4 + p.Nb(), |p.kernel|))
  {
    hide BootSector, Entry, FatBytes, EfiDirectory, BootDirectory, IsTable, Consistent, Roomy, FileClusters;
    p.Fits();
  }

  lemma {:induction false} ScanTwo(dev: Device, v: Volume, name: seq<byte>, e0: seq<byte>, e1: seq<byte>)
    requires dev.Valid() && dev.blockSize == 512 && v.rootEntryCount == 512 && v.rootDirSectors == 32
    requires |e0| == 32 && |e1| == 32 && RootEntry(dev, v, 0) == Some(e0) && RootEntry(dev, v, 1) == Some(e1)
    requires e0[0] != 0 && e1[0] != 0 && !Skipped(e0) && !Skipped(e1)
    ensures e0[..11] == name ==> Scan(dev, v, name, 0) == Found(EntryOf(e0))
    ensures e0[..11] != name && e1[..11] == name ==> Scan(dev, v, name, 0) == Found(EntryOf(e1))
  {
    hide RootEntry, Skipped, EntryOf;
  }

  // File contents, read the way the FAT format prescribes

  /** FAT entry of cluster c in copy `copy` of the table. */
  function FatEntry(dev: Device, v: Volume, copy: nat, c: nat): Option<nat> {
    var at := (v.firstFat + copy * v.sectorsPerFat) * 512 + 2 * c;
    if at + 2 <= |dev.data| then Some(GetLe16(dev.data, at)) else None
  }

  /** The chain from cluster c on, at most `limit` long. */
  function Chain(dev: Device, v: Volume, copy: nat, c: nat, limit: nat): Option<seq<nat>>
    decreases limit
  {
    if limit == 0 || c < 2 || c >= v.clusterCount + 2 then None
    else match FatEntry(dev, v, copy, c)
    case None => None
    case Some(next) =>
      if next >= 0xFFF8 then Some([c])
      else match Chain(dev, v, copy, next, limit - 1)
           case None => None
           case Some(rest) => Some([c] + rest)
  }

  function Product(a: nat, b: nat): nat {
    a * b
  }

  function ClusterData(dev: Device, v: Volume, c: nat): seq<byte> {
    if c < 2 then [] else
    var lo := (v.firstData + Product(c - 2, v.sectorsPerCluster)) * 512;
    var hi := lo + v.sectorsPerCluster * 512;
    if hi <= |dev.data| then dev.data[lo..hi] else []
  }

  function Contents(dev: Device, v: Volume, chain: seq<nat>): seq<byte> {
    if chain == [] then [] else ClusterData(dev, v, chain[0]) + Contents(dev, v, chain[1..])
  }

  /** Follow the chain, join its clusters, cut at the recorded size. */
  function ReadFile(dev: Device, v: Volume, copy: nat, first: nat, size: nat): Option<seq<byte>> {
    match Chain(dev, v, copy, first, v.clusterCount)
    case None => None
    case Some(chain) =>
      var all := Contents(dev, v, chain);
      if size <= |all| then Some(all[..size]) else None
  }

  function Run(start: nat, n: nat): seq<nat> {
    seq(n, i => start + i)
  }

  lemma {:induction false} FatEntryIs(dev: Device, start: nat, p: Payload, copy: nat, c: nat)
    requires Carries(dev, start, p) && copy < 2 && c < |p.fat|
    ensures FatEntry(dev, VolumeOf(p.g, start), copy, c) == Some(p.fat[c])
  {
    hide Image, Writes, Roomy, Consistent, IsTable, FatBytes, GetLe16;
    p.Fits();
    TableWrites(p);
    OnDevice(dev, start, p, 1 + copy);
    var g := p.g;
    assert copy == 0 || copy == 1;
    var base := start * 512 + (RESERVED + copy * g.fatSectors) * BPS;
    TableEntry(dev.data, base, FatBytes(p.fat), c);
    assert base == (VolumeOf(g, start).firstFat + copy * g.fatSectors) * 512;
  }

  lemma {:induction false} TableEntry(data: seq<byte>, base: nat, table: seq<byte>, c: nat)
    requires base + |table| <= |data| && data[base..base + |table|] == table && 2 * c + 2 <= |table|
    ensures GetLe16(data, base + 2 * c) == GetLe16(table, 2 * c)
  {
    assert table[2 * c] == data[base + 2 * c] && table[2 * c + 1] == data[base + 2 * c + 1];
  }

  /** Following a chain in either copy of the table visits exactly its clusters. */
  lemma {:induction false} ChainIs(dev: Device, start: nat, p: Payload, copy: nat, first: nat, n: nat, limit: nat)
    requires Carries(dev, start, p) && copy < 2 && 2 <= first && n <= limit
    requires IsChain(p.fat, first, n) && first + n <= p.g.clusters + 2
    ensures Chain(dev, VolumeOf(p.g, start), copy, first, limit) == Some(Run(first, n))
    decreases n
  {
    hide FatEntry, NeededFat, IsTable, Roomy, Image;
    var v := VolumeOf(p.g, start);
    FatEntryIs(dev, start, p, copy, first);
    if n == 1 {
      assert Run(first, 1) == [first];
    } else {
      ChainIs(dev, start, p, copy, first + 1, n - 1, limit - 1);
      assert Run(first, n) == [first] + Run(first + 1, n - 1);
    }
  }

  lemma {:induction false} ContentsOfRun(dev: Device, v: Volume, first: nat, n: nat, lo: nat)
    requires 2 <= first && lo == (v.firstData + Product(first - 2, v.sectorsPerCluster)) * 512
    requires lo + Product(n, v.sectorsPerCluster * 512) <= |dev.data|
    ensures Contents(dev, v, Run(first, n)) == dev.data[lo..lo + Product(n, v.sectorsPerCluster * 512)]
    decreases n
  {
    hide Product, ClusterData;
    var cb := v.sectorsPerCluster * 512;
    ProductStep(n, cb);
    ProductStep(first - 1, v.sectorsPerCluster);
    if n > 0 {
      ClusterAt(dev, v, first, lo);
      ContentsOfRun(dev, v, first + 1, n - 1, lo + cb);
      assert Run(first, n)[0] == first && Run(first, n)[1..] == Run(first + 1, n - 1);
      var mid, hi := lo + cb, lo + Product(n, cb);
      assert dev.data[lo..mid] + dev.data[mid..hi] == dev.data[lo..hi];
    }
  }

  lemma {:induction false} ClusterAt(dev: Device, v: Volume, c: nat, lo: nat)
    requires 2 <= c && lo == (v.firstData + Product(c - 2, v.sectorsPerCluster)) * 512
    requires lo + v.sectorsPerCluster * 512 <= |dev.data|
    ensures ClusterData(dev, v, c) == dev.data[lo..lo + v.sectorsPerCluster * 512]
  {
    hide Product;
  }

  lemma {:induction false} ProductStep(n: nat, k: nat)
    ensures n > 0 ==> Product(n, k) == k + Product(n - 1, k)
    ensures Product(0, k) == 0
  {
  }

  /** A file written at `first` over n clusters reads back through either copy of the table. */
  lemma {:induction false} FileReadsBack(dev: Device, start: nat, p: Payload, copy: nat, first: nat, n: nat,
                                         blob: seq<byte>, w: nat)
    requires Carries(dev, start, p) && copy < 2 && 2 <= first && IsChain(p.fat, first, n)
    requires first + n <= p.g.clusters + 2
    requires w < 9 && Writes(p)[w] == Write(p.g.ClusterOffset(first), blob) && |blob| <= n * p.g.ClusterBytes()
    ensures ReadFile(dev, VolumeOf(p.g, start), copy, first, |blob|) == Some(blob)
  {
    hide Chain, IsChain, Writes, Image, Consistent, IsTable, Roomy, Contents;
    var g, v := p.g, VolumeOf(p.g, start);
    OnDevice(dev, start, p, w);
    ChainIs(dev, start, p, copy, first, n, g.clusters);
    ClustersInside(g, first, n);
    Offsets(g, start, first);
    Offsets(g, start, first + n);
    var lo := start * 512 + g.ClusterOffset(first);
    var hi := lo + n * g.ClusterBytes();
    ContentsOfRun(dev, v, first, n, lo);
    SliceOfSlice(dev.data, lo, hi, 0, |blob|);
    assert Contents(dev, v, Run(first, n)) == dev.data[lo..hi];
  }

  lemma {:induction false} Offsets(g: Geometry, start: nat, c: nat)
    requires 2 <= c
    ensures var v := VolumeOf(g, start);
            (v.firstData + (c - 2) * v.sectorsPerCluster) * 512 == start * 512 + g.ClusterOffset(c)
  {
    Arith.Associate(c - 2, g.spc, 512);
  }

  /** Main result: every image the builder can write mounts with the builder's geometry; the kernel's directory entry
      is found; and following its chain in either FAT copy gives back exactly the kernel. */
  lemma {:induction false} KernelRoundTrip(dev: Device, start: nat, p: Payload, copy: nat)
    requires Carries(dev, start, p) && copy < 2
    ensures Mount(dev, start).Some?
    ensures var v := Mount(dev, start).value;
            && v.totalSectors == p.g.totalSectors && v.sectorsPerCluster == p.g.spc && v.sectorsPerFat == p.g.fatSectors
            && v.clusterCount == p.g.clusters
            && Scan(dev, v, NAME_KERNEL, 0).Found?
            && var e := Scan(dev, v, NAME_KERNEL, 0).entry;
               e.size == |p.kernel| && ReadFile(dev, v, copy, e.firstCluster, e.size) == Some(p.kernel)
  {
    hide Image, Writes, Mount, Scan, ReadFile, IsChain, FileClusters, Consistent, Roomy;
    MountsBack(dev, start, p);
    FindsKernel(dev, start, p);
    p.Fits();
    FileWrites(p);
    FileReadsBack(dev, start, p, copy, 4 + p.Nb(), p.Nk(), p.kernel, 8);
  }

  /** The path to the boot loader: EFI leads to BOOT, BOOT to BOOTX64.EFI, whose chain gives back the loader. */
  lemma {:induction false} LoaderRoundTrip(dev: Device, start: nat, p: Payload, copy: nat)
    requires Carries(dev, start, p) && copy < 2
    ensures var v := VolumeOf(p.g, start);
            && Scan(dev, v, NAME_EFI, 0) == Found(Dirent(NAME_EFI, ATTR_DIR, 2, 0))
            && (var d := ClusterData(dev, v, 2); |d| >= 96 && EntryOf(d[64..96]) == Dirent(NAME_BOOT, ATTR_DIR, 3, 0))
            && (var d := ClusterData(dev, v, 3);
                |d| >= 96 && EntryOf(d[64..96]) == Dirent(NAME_BOOTX64, ATTR_FILE, 4, |p.boot|))
            && ReadFile(dev, v, copy, 4, |p.boot|) == Some(p.boot)
  {
    hide Image, Writes, Scan, ReadFile, IsChain, FileClusters, Consistent, Roomy, ClusterData, Entry;
    FindsKernel(dev, start, p);
    p.Fits();
    FileWrites(p);
    DirectoryWrites(p);
    FileReadsBack(dev, start, p, copy, 4, p.Nb(), p.boot, 7);
    DirectoryCluster(dev, start, p, 2, EfiDirectory(p.g), 5);
    DirectoryCluster(dev, start, p, 3, BootDirectory(p), 6);
    assert EfiDirectory(p.g)[64..96] == Entry(NAME_BOOT, ATTR_DIR, 3, 0);
    assert BootDirectory(p)[64..96] == Entry(NAME_BOOTX64, ATTR_FILE, 4, |p.boot|);
  }

  lemma {:induction false} DirectoryWrites(p: Payload)
    requires p.Ready()
    ensures 0 < p.g.spc && |p.boot| < U32
    ensures Writes(p)[5] == Write(p.g.ClusterOffset(2), EfiDirectory(p.g))
    ensures Writes(p)[6] == Write(p.g.ClusterOffset(3), BootDirectory(p))
  {
    hide BootSector, Entry, FatBytes, EfiDirectory, BootDirectory, IsTable, Consistent, Roomy;
    p.Fits();
  }

  lemma {:induction false} DirectoryCluster(dev: Device, start: nat, p: Payload, c: nat, d: seq<byte>, w: nat)
    requires Carries(dev, start, p) && 2 <= c <= 3 && w < 9
    requires Writes(p)[w] == Write(p.g.ClusterOffset(c), d) && |d| == p.g.ClusterBytes()
    ensures ClusterData(dev, VolumeOf(p.g, start), c) == d
  {
    hide Writes, Image, IsTable, Consistent, Roomy;
    OnDevice(dev, start, p, w);
    Offsets(p.g, start, c);
  }

  /** The four chains on the image share no cluster and stay inside the data area. */
  lemma {:induction false} ChainsDisjoint(dev: Device, start: nat, p: Payload, copy: nat)
    requires Carries(dev, start, p) && copy < 2
    ensures var v := VolumeOf(p.g, start);
            && p.g.spc > 0
            && Chain(dev, v, copy, 2, v.clusterCount) == Some(Run(2, 1))
            && Chain(dev, v, copy, 3, v.clusterCount) == Some(Run(3, 1))
            && Chain(dev, v, copy, 4, v.clusterCount) == Some(Run(4, p.Nb()))
            && Chain(dev, v, copy, 4 + p.Nb(), v.clusterCount) == Some(Run(4 + p.Nb(), p.Nk()))
            && 4 + p.Nb() + p.Nk() <= v.clusterCount + 2
  {
    p.Fits();
    assert IsTable(p.fat, p.Nb(), p.Nk()) by { hide IsTable, Image; }
    hide Carries, Chain, Consistent, Roomy, FileClusters;
    ChainIs(dev, start, p, copy, 2, 1, p.g.clusters);
    ChainIs(dev, start, p, copy, 3, 1, p.g.clusters);
    ChainIs(dev, start, p, copy, 4, p.Nb(), p.g.clusters);
    ChainIs(dev, start, p, copy, 4 + p.Nb(), p.Nk(), p.g.clusters);
  }

  /** The builder's whole run: an image comes out exactly when some admissible size suits the payload, and then of the
      smallest such size; wherever a device carries it, it mounts and gives the kernel back. */
  method MakeImage(boot: seq<byte>, kernel: seq<byte>) returns (made: Option<Payload>, image: array<byte>)
    ensures made.None? <==> forall m: nat :: IsImageSize(m) ==> !Suits(m, |boot|, |kernel|)
    ensures made.Some? ==> made.value.Ready() && made.value.boot == boot && made.value.kernel == kernel
    ensures made.Some? ==> image[..] == Image(made.value)
    ensures made.Some? ==> forall m: nat :: IsImageSize(m) && m * MIB < image.Length ==> !Suits(m, |boot|, |kernel|)
    ensures made.Some? ==>
              forall dev: Device, start: nat :: CarriesBytes(dev, start, image[..]) ==> ServesKernel(dev, start, kernel)
  {
    hide *;
    var choice := ChooseGeometry(|boot|, |kernel|);
    if choice.None? {
      image := new byte[0];
      return None, image;
    }
    var g := choice.value.g;
    SizeWritable(choice.value.mib, g);
    var p;
    image, p := BuildImage(g, boot, kernel);
    made := Some(p);
    forall dev: Device, start: nat | CarriesBytes(dev, start, image[..])
      ensures ServesKernel(dev, start, kernel)
    {
      CarriesImage(dev, start, p);
      KernelServed(dev, start, p);
    }
  }

  /** A healthy 512-byte-block device that holds `bytes` from block `start` on. */
  ghost predicate CarriesBytes(dev: Device, start: nat, bytes: seq<byte>) {
    && dev.Valid() && dev.usable && dev.blockSize == 512 && dev.bad == {}
    && start * 512 + |bytes| <= |dev.data| && dev.data[start * 512..start * 512 + |bytes|] == bytes
  }

  /** Mounting, looking up the kernel and following its chain in either copy of the table yields the kernel. */
  ghost predicate ServesKernel(dev: Device, start: nat, kernel: seq<byte>) {
    && dev.Valid() && dev.blockSize == 512 && Mount(dev, start).Some?
    && var v := Mount(dev, start).value;
       var found := Scan(dev, v, NAME_KERNEL, 0);
       && found.Found? && found.entry.size == |kernel|
       && ReadFile(dev, v, 0, found.entry.firstCluster, |kernel|) == Some(kernel)
       && ReadFile(dev, v, 1, found.entry.firstCluster, |kernel|) == Some(kernel)
  }

  lemma {:induction false} CarriesImage(dev: Device, start: nat, p: Payload)
    requires p.Ready() && CarriesBytes(dev, start, Image(p))
    ensures Carries(dev, start, p)
  {
  }

  lemma {:induction false} KernelServed(dev: Device, start: nat, p: Payload)
    requires Carries(dev, start, p)
    ensures ServesKernel(dev, start, p.kernel)
  {
    hide Mount, Scan, ReadFile;
    KernelRoundTrip(dev, start, p, 0);
    KernelRoundTrip(dev, start, p, 1);
  }

  lemma {:induction false} SizeWritable(mib: nat, g: Geometry)
    requires IsImageSize(mib) && Consistent(g) && g.ImageBytes() == mib * MIB
    ensures Writable(g)
  {
  }
}
