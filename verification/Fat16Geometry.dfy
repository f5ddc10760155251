/** The geometry search of tools/mkfat.py. */
module Fat16Geometry {
  import opened Bytes
  import Arith

  const BPS: nat := 512
  const RESERVED: nat := 4
  const NFATS: nat := 2
  const ROOT_ENTRIES: nat := 512
  const ROOT_SECS: nat := 32
  const MIN_CLUSTERS: nat := 4085
  const MAX_CLUSTERS: nat := 65524
  const MIN_IMAGE_MIB: nat := 4
  const MAX_IMAGE_MIB: nat := 512
  const MIB: nat := 1024 * 1024
  const ROUNDS: nat := 16

  datatype Geometry = Geometry(totalSectors: nat, spc: nat, fatSectors: nat, clusters: nat)
  {
    function ClusterBytes(): nat { BPS * spc }
    function RootOffset(): nat { (RESERVED + NFATS * fatSectors) * BPS }
    function DataOffset(): nat { (RESERVED + NFATS * fatSectors + ROOT_SECS) * BPS }
    function ImageBytes(): nat { totalSectors * BPS }
    function FatEntries(): nat { fatSectors * BPS / 2 }
    /** Byte offset of cluster `c`; clusters are numbered from 2. */
    function ClusterOffset(c: nat): nat requires c >= 2 { DataOffset() + (c - 2) * ClusterBytes() }
  }

  function CeilDiv(a: nat, b: nat): nat
    requires 0 < b
  {
    (a + b - 1) / b
  }

  const SIZES: seq<nat> := [1, 2, 4, 8, 16, 32, 64, 128]

  function DataSectors(total: nat, fat: nat): int {
    total - RESERVED - NFATS * fat - ROOT_SECS
  }

  function NeededFat(total: nat, spc: nat, fat: nat): nat
    requires 0 < spc && DataSectors(total, fat) > 0
  {
    CeilDiv((DataSectors(total, fat) / spc + 2) * 2, BPS)
  }

  // What a geometry must satisfy

  /** The FAT is exactly as long as its own cluster count needs, and the cluster count makes the volume FAT16. */
  ghost predicate Consistent(g: Geometry) {
    && g.spc in SIZES && 0 < g.fatSectors
    && DataSectors(g.totalSectors, g.fatSectors) > 0
    && g.clusters == DataSectors(g.totalSectors, g.fatSectors) / g.spc
    && MIN_CLUSTERS <= g.clusters <= MAX_CLUSTERS
    && NeededFat(g.totalSectors, g.spc, g.fatSectors) == g.fatSectors
  }

  /** Consequences: every cluster has a FAT entry, and every cluster lies inside the image. */
  lemma {:induction false} ConsistentFits(g: Geometry)
    requires Consistent(g)
    ensures 0 < g.spc <= 128 && g.fatSectors <= 256
    ensures g.clusters + 2 <= g.FatEntries() == 256 * g.fatSectors
    ensures g.DataOffset() + g.clusters * g.ClusterBytes() <= g.ImageBytes()
  {
    var data := DataSectors(g.totalSectors, g.fatSectors);
    assert g.spc * g.clusters <= data by { assert data == g.spc * (data / g.spc) + data % g.spc; }
    assert g.clusters * g.ClusterBytes() == BPS * (g.spc * g.clusters) by { Regroup(g.clusters, BPS, g.spc); }
  }

  lemma {:induction false} Regroup(a: nat, b: nat, c: nat)
    ensures a * (b * c) == b * (c * a)
  {
  }

  lemma {:induction false} ClustersInside(g: Geometry, c: nat, n: nat)
    requires Consistent(g) && 2 <= c && c + n <= g.clusters + 2
    ensures g.ClusterOffset(c) + n * g.ClusterBytes() == g.ClusterOffset(c + n) <= g.ImageBytes()
    ensures g.DataOffset() <= g.ClusterOffset(c)
  {
    ConsistentFits(g);
    var cb := g.ClusterBytes();
    Distribute(c - 2, n, cb);
    Arith.MulMono(cb, c - 2 + n, g.clusters);
  }

  lemma {:induction false} Distribute(a: int, b: int, c: int)
    ensures a * c + b * c == (a + b) * c && a * c == c * a && (a + b) * c == c * (a + b)
  {
  }

  // The search

  /** The inner loop of `geometry`: at most `left` more rounds from the guess `fat`; None when the rounds run out. */
  function Settle(total: nat, spc: nat, fat: nat, left: nat): Option<nat>
    requires 0 < spc
    decreases left
  {
    if left == 0 then None
    else if DataSectors(total, fat) <= 0 then Some(fat)
    else if NeededFat(total, spc, fat) == fat then Some(fat)
    else Settle(total, spc, NeededFat(total, spc, fat), left - 1)
  }

  function Try(total: nat, spc: nat): Option<Geometry>
    requires 0 < spc
  {
    match Settle(total, spc, 1, ROUNDS)
    case None => None
    case Some(fat) =>
      if DataSectors(total, fat) <= 0 then None
      else
        var clusters := DataSectors(total, fat) / spc;
        if MIN_CLUSTERS <= clusters <= MAX_CLUSTERS then Some(Geometry(total, spc, fat, clusters)) else None
  }

  /** The first cluster size from index `i` on that works. */
  function FirstFit(total: nat, i: nat): Option<Geometry>
    requires i <= |SIZES|
    decreases |SIZES| - i
  {
    if i == |SIZES| then None
    else if Try(total, SIZES[i]).Some? then Try(total, SIZES[i])
    else FirstFit(total, i + 1)
  }

  lemma {:induction false} NeededPositive(total: nat, spc: nat, fat: nat)
    requires 0 < spc && DataSectors(total, fat) > 0
    ensures NeededFat(total, spc, fat) > 0
  {
  }

  lemma {:induction false} SettleIsFixpoint(total: nat, spc: nat, fat: nat, left: nat)
    requires 0 < spc && 0 < fat
    ensures var r := Settle(total, spc, fat, left);
            r.Some? && DataSectors(total, r.value) > 0 ==> 0 < r.value && NeededFat(total, spc, r.value) == r.value
    decreases left
  {
    hide NeededFat, DataSectors;
    if left > 0 && DataSectors(total, fat) > 0 && NeededFat(total, spc, fat) != fat {
      NeededPositive(total, spc, fat);
      SettleIsFixpoint(total, spc, NeededFat(total, spc, fat), left - 1);
    }
  }

  lemma {:induction false} FirstFitConsistent(total: nat, i: nat)
    requires i <= |SIZES| && FirstFit(total, i).Some?
    ensures Consistent(FirstFit(total, i).value) && FirstFit(total, i).value.totalSectors == total
    decreases |SIZES| - i
  {
    hide Settle, NeededFat;
    SettleIsFixpoint(total, SIZES[i], 1, ROUNDS);
    if Try(total, SIZES[i]).None? { FirstFitConsistent(total, i + 1); }
  }

  /** `geometry`. */
  method FindGeometry(totalBytes: nat) returns (r: Option<Geometry>)
    ensures r == FirstFit(totalBytes / BPS, 0)
  {
    hide NeededFat;
    var total := totalBytes / BPS;
    for i := 0 to |SIZES|
      invariant FirstFit(total, 0) == FirstFit(total, i)
    {
      var spc := SIZES[i];
      var fat, round, settled := 1, 0, false;
      while round < ROUNDS && !settled
        invariant 0 <= round <= ROUNDS
        invariant Settle(total, spc, 1, ROUNDS)
                  == if settled then Some(fat) else Settle(total, spc, fat, ROUNDS - round)
        decreases ROUNDS - round, !settled
      {
        if DataSectors(total, fat) <= 0 {
          settled := true;
        } else {
          var needed := NeededFat(total, spc, fat);
          if needed == fat {
            settled := true;
          } else {
            fat := needed;
            round := round + 1;
          }
        }
      }
      if settled && DataSectors(total, fat) > 0 {
        var clusters := DataSectors(total, fat) / spc;
        if MIN_CLUSTERS <= clusters <= MAX_CLUSTERS { return Some(Geometry(total, spc, fat, clusters)); }
      }
    }
    r := None;
  }

  // Choosing the image size

  function FileClusters(len: nat, g: Geometry): (n: nat)
    requires 0 < g.spc
    ensures 1 <= n
  {
    var n := CeilDiv(len, g.ClusterBytes());
    if n < 1 then 1 else n
  }

  /** The payload leaves a quarter of the clusters free. */
  predicate Roomy(g: Geometry, boot: nat, kernel: nat)
    requires 0 < g.spc
  {
    (2 + FileClusters(boot, g) + FileClusters(kernel, g)) * 4 <= g.clusters * 3
  }

  predicate Suits(mib: nat, boot: nat, kernel: nat) {
    var r := FirstFit(mib * MIB / BPS, 0);
    r.Some? && 0 < r.value.spc && Roomy(r.value, boot, kernel)
  }

  predicate IsImageSize(mib: nat) {
    mib in {4, 8, 16, 32, 64, 128, 256, 512}
  }

  datatype Choice = Choice(mib: nat, g: Geometry)

  /** `choose_geometry`: the smallest image size that suits the payload, or None when no size up to 512 MiB does. */
  method ChooseGeometry(boot: nat, kernel: nat) returns (r: Option<Choice>)
    ensures r.Some? ==> IsImageSize(r.value.mib) && Suits(r.value.mib, boot, kernel)
                        && FirstFit(r.value.mib * MIB / BPS, 0) == Some(r.value.g)
                        && Consistent(r.value.g) && Roomy(r.value.g, boot, kernel)
                        && r.value.g.ImageBytes() == r.value.mib * MIB
                        && forall m: nat :: IsImageSize(m) && m < r.value.mib ==> !Suits(m, boot, kernel)
    ensures r.None? ==> forall m: nat :: IsImageSize(m) ==> !Suits(m, boot, kernel)
  {
    hide FirstFit, Roomy, NeededFat, DataSectors;
    var mib := MIN_IMAGE_MIB;
    while mib <= MAX_IMAGE_MIB
      invariant IsImageSize(mib) || mib == 1024
      invariant forall m: nat :: IsImageSize(m) && m < mib ==> !Suits(m, boot, kernel)
      decreases 1024 - mib
    {
      var g := FindGeometry(mib * MIB);
      if g.Some? {
        FirstFitConsistent(mib * MIB / BPS, 0);
        if Roomy(g.value, boot, kernel) { return Some(Choice(mib, g.value)); }
      }
      mib := mib * 2;
    }
    r := None;
  }

  /** Enough clusters and FAT entries for everything the builder allocates. */
  lemma {:induction false} RoomyFits(g: Geometry, boot: nat, kernel: nat)
    requires Consistent(g) && Roomy(g, boot, kernel)
    ensures 4 + FileClusters(boot, g) + FileClusters(kernel, g) <= g.clusters + 2 <= g.FatEntries()
    ensures boot <= FileClusters(boot, g) * g.ClusterBytes() && kernel <= FileClusters(kernel, g) * g.ClusterBytes()
  {
    ConsistentFits(g);
    CeilCovers(boot, g.ClusterBytes());
    CeilCovers(kernel, g.ClusterBytes());
  }

  lemma {:induction false} CeilCovers(a: nat, b: nat)
    requires 0 < b
    ensures a <= CeilDiv(a, b) * b < a + b
    ensures a == 0 ==> CeilDiv(a, b) == 0
  {
    var q, r := (a + b - 1) / b, (a + b - 1) % b;
    assert a + b - 1 == b * q + r && b * q == q * b;
  }
}
