/** The read-only FAT16 layer of kernel/fat16.c over the block device interface of kernel/blockdev.c. */
module Fat16Volume {
  import opened Bytes

  /** A block device: `usable` stands for a named device with a read routine, `bad` for the blocks whose read fails. */
  datatype Device = Device(usable: bool, blockSize: nat, blockCount: nat, data: seq<byte>, bad: set<nat>)
  {
    ghost predicate Valid() {
      blockSize < U32 && blockCount < U64 && |data| == blockSize * blockCount
    }

    /** `blockdev_validate`. */
    predicate Validates() {
      usable && blockSize != 0 && blockCount != 0
    }

    /** `blockdev_read` of one block: None stands for its error return. */
    function Read(lba: nat): (b: Option<seq<byte>>)
      requires Valid()
      ensures b.Some? ==> |b.value| == blockSize && lba < blockCount
    {
      if !Validates() || lba >= blockCount || lba in bad then None
      else
        BlockInside(lba);
        Some(data[lba * blockSize..lba * blockSize + blockSize])
    }

    lemma {:induction false} BlockInside(lba: nat)
      requires Valid() && lba < blockCount
      ensures lba * blockSize + blockSize <= |data|
    {
      assert (lba + 1) * blockSize <= blockCount * blockSize by { Scale(lba + 1, blockCount, blockSize); }
      assert (lba + 1) * blockSize == lba * blockSize + blockSize;
    }
  }

  lemma {:induction false} Scale(a: nat, b: nat, k: nat)
    requires a <= b
    ensures a * k <= b * k
  {
    assert b * k == a * k + (b - a) * k;
  }

  /** `orion_fat16_t`. */
  datatype Volume = Volume(start: nat, totalSectors: nat, bytesPerSector: nat, sectorsPerCluster: nat,
                           reservedSectors: nat, fatCount: nat, rootEntryCount: nat, sectorsPerFat: nat,
                           rootDirSectors: nat, clusterCount: nat, firstFat: nat, firstRoot: nat, firstData: nat)

  predicate PowerOfTwoByte(v: nat)
    ensures PowerOfTwoByte(v) ==> 0 < v <= 128
  {
    v in {1, 2, 4, 8, 16, 32, 64, 128}
  }

  function Quotient(a: nat, b: nat): nat
    requires 0 < b
  {
    a / b
  }

  /** `fat16_mount`: None stands for its error return. */
  function Mount(dev: Device, start: nat): (r: Option<Volume>)
    requires dev.Valid()
  {
    hide GetLe16, GetLe32, PowerOfTwoByte, Quotient;
    if !dev.Validates() || dev.blockSize != 512 then None
    else match dev.Read(start)
    case None => None
    case Some(b) =>
      if b[510] != 0x55 || b[511] != 0xAA then None
      else
        var bps, spc, reserved, fats := GetLe16(b, 11), b[13] as int, GetLe16(b, 14), b[16] as int;
        var entries, spf := GetLe16(b, 17), GetLe16(b, 22);
        var total := if GetLe16(b, 19) != 0 then GetLe16(b, 19) else GetLe32(b, 32);
        if bps != dev.blockSize then None
        else if !PowerOfTwoByte(spc) || spc > 128 then None
        else if reserved == 0 || fats == 0 || entries == 0 || spf == 0 || total == 0 then None
        else
          var rootSectors := Quotient(entries * 32 + bps - 1, bps);
          var overhead := reserved + fats * spf + rootSectors;
          if total <= overhead then None
          else
            var clusters := Quotient(total - overhead, spc);
            if clusters < 4085 || clusters >= 65525 then None
            else if start >= dev.blockCount || total > dev.blockCount - start then None
            else
              Some(Volume(start, total, bps, spc, reserved, fats, entries, spf, rootSectors, clusters,
                          start + reserved, start + reserved + fats * spf, start + reserved + fats * spf + rootSectors))
  }

  lemma {:induction false} QuotientFits(a: nat, b: nat)
    requires 0 < b
    ensures Quotient(a, b) * b <= a < Quotient(a, b) * b + b
  {
    assert a == b * (a / b) + a % b;
  }

  /** Whatever the boot sector says, an accepted volume lies inside its device: the FATs, the root directory and
      every cluster. */
  lemma {:induction false} MountedInside(dev: Device, start: nat)
    requires dev.Valid() && Mount(dev, start).Some?
    ensures var v := Mount(dev, start).value;
            && start < v.firstFat && v.firstFat + v.fatCount * v.sectorsPerFat == v.firstRoot
            && v.firstRoot + v.rootDirSectors == v.firstData
            && v.firstData + v.clusterCount * v.sectorsPerCluster <= start + v.totalSectors <= dev.blockCount
            && 32 * v.rootEntryCount <= 512 * v.rootDirSectors
  {
    hide Quotient, GetLe16, GetLe32;
    var v := Mount(dev, start).value;
    var room := start + v.totalSectors - v.firstData;
    assert v.clusterCount == Quotient(room, v.sectorsPerCluster);
    QuotientFits(room, v.sectorsPerCluster);
    QuotientFits(v.rootEntryCount * 32 + 511, 512);
  }

  /** `fat16_read_root_sector`. */
  function ReadRootSector(dev: Device, v: Volume, index: nat): (b: Option<seq<byte>>)
    requires dev.Valid()
    ensures b.Some? ==> |b.value| == dev.blockSize
  {
    if index >= v.rootDirSectors then None else dev.Read(v.firstRoot + index)
  }

  // Root directory lookup

  datatype Dirent = Dirent(name: seq<byte>, attributes: byte, firstCluster: nat, size: nat)

  datatype Lookup = Found(entry: Dirent) | Missing | Failed

  function EntryOf(e: seq<byte>): Dirent
    requires |e| == 32
  {
    Dirent(e[..11], e[11], GetLe16(e, 26), GetLe32(e, 28))
  }

  /** Deleted entries, long-name entries and volume labels are passed over. */
  predicate Skipped(e: seq<byte>)
    requires |e| == 32
  {
    e[0] == 0xE5 || e[11] == 0x0F || HasBit(e[11], 0x08)
  }

  /** Root entry k, when its sector can be read. */
  function RootEntry(dev: Device, v: Volume, k: nat): (e: Option<seq<byte>>)
    requires dev.Valid() && dev.blockSize == 512
    ensures e.Some? ==> |e.value| == 32
  {
    match ReadRootSector(dev, v, k / 16)
    case None => None
    case Some(b) => Some(b[k % 16 * 32..k % 16 * 32 + 32])
  }

  /** Entries in directory order from k on: stop at the first match, at a terminator, or at an unreadable sector. */
  function Scan(dev: Device, v: Volume, name: seq<byte>, k: nat): Lookup
    requires dev.Valid() && dev.blockSize == 512
    decreases v.rootEntryCount - k
  {
    if k >= v.rootEntryCount || k >= 16 * v.rootDirSectors then Missing
    else match RootEntry(dev, v, k)
    case None => Failed
    case Some(e) =>
      if e[0] == 0 then Missing
      else if !Skipped(e) && e[..11] == name then Found(EntryOf(e))
      else Scan(dev, v, name, k + 1)
  }

  /** Entry k is present, in use, and not what is looked for. */
  predicate PassedOver(dev: Device, v: Volume, name: seq<byte>, k: nat)
    requires dev.Valid() && dev.blockSize == 512
  {
    var e := RootEntry(dev, v, k);
    e.Some? && e.value[0] != 0 && (Skipped(e.value) || e.value[..11] != name)
  }

  /** The lookup finds an entry exactly when some entry carries the name and everything before it is passed over. */
  lemma {:induction false} ScanFindsFirst(dev: Device, v: Volume, name: seq<byte>, k: nat)
    requires dev.Valid() && dev.blockSize == 512
    ensures Scan(dev, v, name, k).Found? <==>
              exists j :: k <= j < v.rootEntryCount && j < 16 * v.rootDirSectors
                       && (forall i :: k <= i < j ==> PassedOver(dev, v, name, i))
                       && FirstMatch(dev, v, name, j)
    ensures forall j :: k <= j < v.rootEntryCount && j < 16 * v.rootDirSectors
                     && (forall i :: k <= i < j ==> PassedOver(dev, v, name, i)) && FirstMatch(dev, v, name, j)
              ==> Scan(dev, v, name, k) == Found(EntryOf(RootEntry(dev, v, j).value))
    decreases v.rootEntryCount - k
  {
    hide RootEntry, Skipped;
    if k < v.rootEntryCount && k < 16 * v.rootDirSectors {
      ScanFindsFirst(dev, v, name, k + 1);
      if FirstMatch(dev, v, name, k) {
        assert !PassedOver(dev, v, name, k);
      } else if PassedOver(dev, v, name, k) {
        if Scan(dev, v, name, k + 1).Found? {
          var j :| k + 1 <= j < v.rootEntryCount && j < 16 * v.rootDirSectors
                && (forall i :: k + 1 <= i < j ==> PassedOver(dev, v, name, i)) && FirstMatch(dev, v, name, j);
          forall i | k <= i < j ensures PassedOver(dev, v, name, i) {}
        }
      }
    }
  }

  predicate FirstMatch(dev: Device, v: Volume, name: seq<byte>, j: nat)
    requires dev.Valid() && dev.blockSize == 512
  {
    var e := RootEntry(dev, v, j);
    e.Some? && e.value[0] != 0 && !Skipped(e.value) && e.value[..11] == name
  }

  /** `fat16_find_root`: sectors in the outer loop, the sixteen entries of a sector in the inner one. */
  method FindRoot(dev: Device, v: Volume, name: seq<byte>) returns (r: Lookup)
    requires dev.Valid() && dev.blockSize == 512 && |name| == 11
    ensures r == if v.bytesPerSector == 512 then Scan(dev, v, name, 0) else Failed
  {
    hide Skipped, EntryOf, Scan, RootEntry;
    if v.bytesPerSector != 512 { return Failed; }
    var seen, index := 0, 0;
    while index < v.rootDirSectors && seen < v.rootEntryCount
      invariant 0 <= index <= v.rootDirSectors
      invariant seen == 16 * index || (seen == v.rootEntryCount && seen <= 16 * index)
      invariant Scan(dev, v, name, 0) == Scan(dev, v, name, seen)
      decreases v.rootDirSectors - index
    {
      var sector := ReadRootSector(dev, v, index);
      ScanTurn(dev, v, name, seen);
      EntryAt(dev, v, index, 0);
      if sector.None? { return Failed; }
      var entry := 0;
      while entry < 16 && seen < v.rootEntryCount
        invariant 0 <= entry <= 16 && seen == 16 * index + entry && seen <= v.rootEntryCount
        invariant Scan(dev, v, name, 0) == Scan(dev, v, name, seen)
        decreases 16 - entry
      {
        var e := sector.value[entry * 32..entry * 32 + 32];
        EntryAt(dev, v, index, entry);
        ScanTurn(dev, v, name, seen);
        if e[0] == 0 { return Missing; }
        if !Skipped(e) && e[..11] == name { return Found(EntryOf(e)); }
        entry, seen := entry + 1, seen + 1;
      }
      index := index + 1;
    }
    ScanTurn(dev, v, name, seen);
    r := Missing;
  }

  lemma {:induction false} EntryAt(dev: Device, v: Volume, index: nat, entry: nat)
    requires dev.Valid() && dev.blockSize == 512 && entry < 16
    ensures var b := ReadRootSector(dev, v, index);
            RootEntry(dev, v, 16 * index + entry)
            == if b.None? then None else Some(b.value[entry * 32..entry * 32 + 32])
  {
    hide ReadRootSector;
    SplitIndex(index, entry);
  }

  /** The scan at entry k: past the end, unreadable, a terminator, a match, or on to the next entry. */
  lemma {:induction false} ScanTurn(dev: Device, v: Volume, name: seq<byte>, k: nat)
    requires dev.Valid() && dev.blockSize == 512
    ensures k >= v.rootEntryCount || k >= 16 * v.rootDirSectors ==> Scan(dev, v, name, k) == Missing
    ensures k < v.rootEntryCount && k < 16 * v.rootDirSectors ==>
              var e := RootEntry(dev, v, k);
              Scan(dev, v, name, k)
              == if e.None? then Failed
                 else if e.value[0] == 0 then Missing
                 else if !Skipped(e.value) && e.value[..11] == name then Found(EntryOf(e.value))
                 else Scan(dev, v, name, k + 1)
  {
    hide RootEntry, Skipped, EntryOf;
  }

  lemma {:induction false} SplitIndex(index: nat, entry: nat)
    requires entry < 16
    ensures (16 * index + entry) / 16 == index && (16 * index + entry) % 16 == entry
  {
  }
}
