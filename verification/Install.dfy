/** The media installer of boot/main.c: target selection and the block copy. */
module Install {
  import opened Bytes
  import opened Arith

  const CHUNK: nat := 65536
  const CHUNK_MAX: nat := 1048576

  datatype Status = Success | InvalidParameter | Unsupported | OutOfResources | BadBufferSize | DeviceError

  // Target selection

  /** A block device handle: its media's properties and contents size in blocks. */
  datatype Media = Media(present: bool, readOnly: bool, partition: bool, block: nat, blocks: nat)

  predicate Candidate(m: Media, sourceBytes: nat) {
    && m.present && !m.readOnly && !m.partition && m.block != 0
    && m.blocks * m.block >= sourceBytes && sourceBytes % m.block == 0
  }

  /** Handles other than the source's that qualify; None stands for a handle without block I/O. */
  predicate Qualifies(handles: seq<Option<Media>>, source: nat, sourceBytes: nat, i: nat) {
    i < |handles| && i != source && handles[i].Some? && Candidate(handles[i].value, sourceBytes)
  }

  /** `find_single_install_target`: succeeds exactly when one single handle qualifies, and then picks it. */
  method FindSingleTarget(handles: seq<Option<Media>>, source: nat, sourceBytes: nat) returns (r: Option<nat>)
    ensures r.Some? ==> forall i: nat :: Qualifies(handles, source, sourceBytes, i) <==> i == r.value
    ensures r.None? ==>
              || (forall i: nat :: !Qualifies(handles, source, sourceBytes, i))
              || exists i: nat, j: nat ::
                   i < j && Qualifies(handles, source, sourceBytes, i) && Qualifies(handles, source, sourceBytes, j)
  {
    hide Candidate;
    var chosen: Option<nat>, candidates := None, 0;
    ghost var earlier: nat := 0;
    for i := 0 to |handles|
      invariant candidates == 0 <==> chosen.None?
      invariant candidates == 0 ==> forall j: nat :: j < i ==> !Qualifies(handles, source, sourceBytes, j)
      invariant chosen.Some? ==> chosen.value < i && Qualifies(handles, source, sourceBytes, chosen.value)
      invariant candidates == 1 ==>
                  forall j: nat :: j < i && Qualifies(handles, source, sourceBytes, j) ==> j == chosen.value
      invariant candidates > 1 ==> earlier < chosen.value && Qualifies(handles, source, sourceBytes, earlier)
    {
      if i == source { continue; }
      if handles[i].None? { continue; }
      if !Candidate(handles[i].value, sourceBytes) { continue; }
      assert Qualifies(handles, source, sourceBytes, i);
      if chosen.Some? { earlier := chosen.value; }
      chosen := Some(i);
      candidates := candidates + 1;
    }
    if candidates != 1 { return None; }
    return chosen;
  }

  // The transfer size

  /** Sizes the search can settle on. */
  predicate Fits(chunk: nat, sourceBlock: nat, targetBlock: nat) {
    0 < sourceBlock && 0 < targetBlock && chunk % sourceBlock == 0 && chunk % targetBlock == 0
  }

  /** What the search needs of the two block sizes: the source's divides 64 KiB, and some size up to 1 MiB is whole
      blocks on both devices. */
  ghost predicate SharedChunk(sourceBlock: nat, targetBlock: nat) {
    && 0 < sourceBlock && CHUNK % sourceBlock == 0
    && exists m: nat :: CHUNK <= m <= CHUNK_MAX && Fits(m, sourceBlock, targetBlock)
  }

  /** The search in steps of the source's block size: it finds the smallest size from 64 KiB up to 1 MiB that is whole
      blocks on both devices, or none exactly when the condition above fails. */
  method FindChunk(sourceBlock: nat, targetBlock: nat) returns (chunk: Option<nat>)
    requires 0 < sourceBlock && 0 < targetBlock
    ensures chunk.Some? ==>
              && Fits(chunk.value, sourceBlock, targetBlock) && CHUNK <= chunk.value <= CHUNK_MAX
              && forall m: nat :: CHUNK <= m < chunk.value ==> !Fits(m, sourceBlock, targetBlock)
    ensures chunk.Some? <==> SharedChunk(sourceBlock, targetBlock)
  {
    hide Fits;
    var c := CHUNK;
    ghost var n: nat := 0;
    while !WholeBlocks(c, sourceBlock, targetBlock)
      invariant c == CHUNK + n * sourceBlock <= CHUNK_MAX
      invariant forall m: nat :: CHUNK <= m < c && CHUNK % sourceBlock == 0 ==> !Fits(m, sourceBlock, targetBlock)
      decreases CHUNK_MAX - c
    {
      if CHUNK % sourceBlock == 0 { BetweenSteps(sourceBlock, targetBlock, n); }
      assert (n + 1) * sourceBlock == n * sourceBlock + sourceBlock;
      c := c + sourceBlock;
      n := n + 1;
      if c > CHUNK_MAX { return None; }
    }
    if CHUNK % sourceBlock != 0 { OddSourceRefused(sourceBlock, targetBlock, n); }
    return Some(c);
  }

  /** Between two sizes of the search nothing is whole blocks on the source. */
  lemma {:induction false} BetweenSteps(b: nat, targetBlock: nat, n: nat)
    requires 0 < b && CHUNK % b == 0
    ensures forall m: nat :: CHUNK + n * b < m < CHUNK + n * b + b ==> !Fits(m, b, targetBlock)
  {
    forall m: nat | CHUNK + n * b < m < CHUNK + n * b + b
      ensures m % b != 0
    {
      var q := CHUNK / b + n;
      assert CHUNK == b * (CHUNK / b) && b * q == b * (CHUNK / b) + b * n && b * n == n * b;
      DivModUnique(m, b, q, m - b * q);
    }
  }

  predicate WholeBlocks(c: nat, sourceBlock: nat, targetBlock: nat): (w: bool)
    requires 0 < sourceBlock && 0 < targetBlock
    ensures w == Fits(c, sourceBlock, targetBlock)
  {
    c % sourceBlock == 0 && c % targetBlock == 0
  }

  /** Every size searched has the same remainder on the source, so a source block size that does not divide 64 KiB is
      always refused. */
  lemma {:induction false} OddSourceRefused(sourceBlock: nat, targetBlock: nat, k: nat)
    requires 0 < sourceBlock && CHUNK % sourceBlock != 0
    ensures !Fits(CHUNK + k * sourceBlock, sourceBlock, targetBlock)
  {
    ModAddMultiple(CHUNK, sourceBlock, k);
    assert sourceBlock * k == k * sourceBlock;
  }

  /** Block sizes that divide 64 KiB always suit. */
  lemma {:induction false} UsualSizesFit(sourceBlock: nat, targetBlock: nat)
    requires 0 < sourceBlock && 0 < targetBlock && CHUNK % sourceBlock == 0 && CHUNK % targetBlock == 0
    ensures SharedChunk(sourceBlock, targetBlock)
  {
    assert Fits(CHUNK, sourceBlock, targetBlock);
  }

  /** A source with 520-byte blocks is refused by a 512-byte target, although 66560 bytes are whole blocks on both. */
  lemma {:induction false} SharedSizeRefused()
    ensures CHUNK <= 66560 <= CHUNK_MAX && Fits(66560, 520, 512) && !SharedChunk(520, 512)
  {
  }

  // Devices

  /** What a device does with one request: serve it, or fail after `torn` bytes of a write have reached the medium. */
  datatype Behaviour = Serves | Fails(torn: nat)

  class Disk {
    const block: nat
    const data: array<byte>

    constructor (block: nat, data: array<byte>)
      ensures this.block == block && this.data == data
    {
      this.block, this.data := block, data;
    }

    /** UEFI `ReadBlocks`: whole blocks inside the medium, or an error. */
    method ReadBlocks(lba: nat, bytes: nat, buffer: array<byte>, b: Behaviour) returns (s: Status)
      requires block > 0 && bytes <= buffer.Length && buffer != data
      modifies buffer
      ensures s == Transfer(block, data.Length, lba, bytes, b)
      ensures s == Success ==> buffer[..bytes] == data[lba * block..lba * block + bytes]
    {
      s := Transfer(block, data.Length, lba, bytes, b);
      if s == Success {
        CopyInto(buffer, 0, data[lba * block..lba * block + bytes]);
        assert buffer[..bytes] == buffer[0..0 + bytes];
      }
    }

    /** UEFI `WriteBlocks`. */
    method WriteBlocks(lba: nat, bytes: nat, buffer: array<byte>, b: Behaviour) returns (s: Status)
      requires block > 0 && bytes <= buffer.Length && buffer != data
      modifies data
      ensures s == Transfer(block, data.Length, lba, bytes, b)
      ensures s == Success ==> data[..] == Splice(old(data[..]), lba * block, buffer[..bytes])
      ensures s != Success ==>
                var lo := lba * block;
                forall i :: 0 <= i < data.Length && !(lo <= i < lo + bytes) ==> data[i] == old(data[i])
    {
      s := Transfer(block, data.Length, lba, bytes, b);
      if s == Success {
        CopyInto(data, lba * block, buffer[..bytes]);
      } else if s == DeviceError && lba * block + bytes <= data.Length && b.torn <= bytes {
        CopyInto(data, lba * block, buffer[..b.torn]);
      }
    }
  }

  function Transfer(block: nat, size: nat, lba: nat, bytes: nat, b: Behaviour): (s: Status)
    requires block > 0
    ensures s == Success <==> b.Serves? && bytes % block == 0 && lba * block + bytes <= size
    ensures s != Unsupported
  {
    if bytes % block != 0 then BadBufferSize
    else if lba * block + bytes > size then InvalidParameter
    else if b.Serves? then Success else DeviceError
  }

  // The copy

  ghost predicate AllServe(sourceDoes: nat -> Behaviour, targetDoes: nat -> Behaviour) {
    forall n: nat :: sourceDoes(n).Serves? && targetDoes(n).Serves?
  }

  /** The copy is accepted: block sizes that fit and whole target blocks. */
  predicate Accepted(sourceBlock: nat, targetBlock: nat, bytes: nat) {
    0 < sourceBlock && 0 < targetBlock && bytes % targetBlock == 0
  }

  lemma {:induction false} WholePart(n: nat, c: nat, b: nat)
    requires 0 < b && n % b == 0 && c % b == 0 && c <= n
    ensures (n - c) % b == 0
  {
    var x, y := n / b, c / b;
    assert n == b * x && c == b * y;
    if x < y { MulMono(b, x + 1, y); }
    assert n - c == b * (x - y);
    DivModUnique(n - c, b, x - y, 0);
  }

  lemma {:induction false} NextLba(done: nat, bytes: nat, b: nat, lba: nat)
    requires 0 < b && lba * b == done && bytes % b == 0
    ensures (lba + bytes / b) * b == done + bytes
  {
    assert bytes == b * (bytes / b);
    assert (lba + bytes / b) * b == lba * b + bytes / b * b;
  }

  /** `copy_install_media`: on success the source's bytes are at the front of the target and the rest is as before; the
      source is never written. Without device errors an accepted copy always succeeds. `sourceDoes`, `targetDoes` and
      `flush` are what the devices do with each request, `memory` whether the buffer can be allocated. */
  method CopyInstallMedia(source: Disk, target: Disk, memory: bool, sourceDoes: nat -> Behaviour,
                          targetDoes: nat -> Behaviour, flush: Status)
    returns (status: Status)
    requires source.data != target.data && (source.block > 0 ==> source.data.Length % source.block == 0)
    requires flush == Success || flush == DeviceError
    modifies target.data
    ensures source.data[..] == old(source.data[..])
    ensures status == Success ==>
              && source.data.Length <= target.data.Length
              && target.data[..] == Splice(old(target.data[..]), 0, source.data[..])
    ensures forall i :: source.data.Length <= i < target.data.Length ==> target.data[i] == old(target.data[i])
    ensures status == Unsupported
            <==> !(Accepted(source.block, target.block, source.data.Length) && SharedChunk(source.block, target.block))
    ensures status == Unsupported ==> target.data[..] == old(target.data[..])
    ensures status != Unsupported && source.data.Length <= target.data.Length && AllServe(sourceDoes, targetDoes) ==>
              memory && flush == Success ==> status == Success
  {
    if source.block == 0 || target.block == 0 { return Unsupported; }
    var size := source.data.Length;
    if size % target.block != 0 { return Unsupported; }
    var found := FindChunk(source.block, target.block);
    if found.None? { return Unsupported; }
    if !memory { return OutOfResources; }
    hide Transfer;
    var chunk := found.value;
    status := CopyLoop(source, target, chunk, sourceDoes, targetDoes);
    if status == Success { status := flush; }
  }

  /** One read and one write of whole blocks at the same byte offset. */
  method CopyChunk(source: Disk, target: Disk, buffer: array<byte>, sourceLba: nat, targetLba: nat, bytes: nat,
                   sourceDoes: Behaviour, targetDoes: Behaviour)
    returns (status: Status)
    requires source.data != target.data && buffer != source.data && buffer != target.data && bytes <= buffer.Length
    requires source.block > 0 && bytes % source.block == 0 && target.block > 0 && bytes % target.block == 0
    requires sourceLba * source.block == targetLba * target.block
    requires sourceLba * source.block + bytes <= source.data.Length
    modifies buffer, target.data
    ensures var o := sourceLba * source.block;
            && (status == Success <==> sourceDoes.Serves? && targetDoes.Serves? && o + bytes <= target.data.Length)
            && (status == Success ==> target.data[..] == Splice(old(target.data[..]), o, source.data[o..o + bytes]))
            && (status != Success ==>
                  forall i :: o + bytes <= i < target.data.Length ==> target.data[i] == old(target.data[i]))
    ensures status != Unsupported
  {
    hide Transfer, Splice;
    status := source.ReadBlocks(sourceLba, bytes, buffer, sourceDoes);
    if status == Success {
      status := target.WriteBlocks(targetLba, bytes, buffer, targetDoes);
    }
  }

  /** The loop of `copy_install_media`: both LBAs name the same byte offset before every transfer, and every transfer is
      a whole number of blocks on both sides. */
  method CopyLoop(source: Disk, target: Disk, chunk: nat, sourceDoes: nat -> Behaviour, targetDoes: nat -> Behaviour)
    returns (status: Status)
    requires source.data != target.data && Fits(chunk, source.block, target.block) && chunk > 0
    requires source.data.Length % source.block == 0 && source.data.Length % target.block == 0
    modifies target.data
    ensures source.data[..] == old(source.data[..])
    ensures status == Success ==>
              && source.data.Length <= target.data.Length
              && target.data[..] == Splice(old(target.data[..]), 0, source.data[..])
    ensures forall i :: source.data.Length <= i < target.data.Length ==> target.data[i] == old(target.data[i])
    ensures status != Unsupported
    ensures source.data.Length <= target.data.Length && AllServe(sourceDoes, targetDoes) ==> status == Success
  {
    hide Transfer, Splice;
    var buffer := new byte[chunk](_ => 0);
    var sourceLba: nat, targetLba: nat := 0, 0;
    var remaining: nat := source.data.Length;
    ghost var done: nat := 0;
    var n: nat := 0;
    status := Success;
    while remaining > 0
      invariant done + remaining == source.data.Length && remaining % source.block == 0 && remaining % target.block == 0
      invariant sourceLba * source.block == done == targetLba * target.block
      invariant source.data[..] == old(source.data[..]) && done <= target.data.Length
      invariant target.data[..] == Splice(old(target.data[..]), 0, source.data[..done])
      invariant status == Success
      decreases remaining
    {
      var bytes := if remaining > chunk then chunk else remaining;
      WholePart(remaining, bytes, source.block);
      WholePart(remaining, bytes, target.block);
      status := CopyChunk(source, target, buffer, sourceLba, targetLba, bytes, sourceDoes(n), targetDoes(n));
      if status != Success { break; }
      Extended(old(target.data[..]), source.data[..], done, bytes);
      NextLba(done, bytes, source.block, sourceLba);
      NextLba(done, bytes, target.block, targetLba);
      sourceLba := sourceLba + bytes / source.block;
      targetLba := targetLba + bytes / target.block;
      remaining := remaining - bytes;
      done := done + bytes;
      n := n + 1;
    }
    assert source.data[..source.data.Length] == source.data[..];
  }

  lemma {:induction false} Extended(t: seq<byte>, s: seq<byte>, done: nat, bytes: nat)
    requires done + bytes <= |s| && done + bytes <= |t|
    ensures Splice(Splice(t, 0, s[..done]), done, s[done..done + bytes]) == Splice(t, 0, s[..done + bytes])
  {
    assert s[..done + bytes] == s[..done] + s[done..done + bytes];
  }

  // The whole offer

  /** The disks behind the handles: block size and contents as their media say, no two with the same storage. */
  ghost predicate Attached(handles: seq<Option<Media>>, disks: seq<Disk>)
    reads disks
  {
    && |disks| == |handles|
    && (forall i :: 0 <= i < |disks| && handles[i].Some? ==>
          && disks[i].block == handles[i].value.block
          && disks[i].data.Length == handles[i].value.blocks * handles[i].value.block)
    && (forall i, j :: 0 <= i < j < |disks| ==> disks[i].data != disks[j].data)
  }

  ghost function Storage(disks: seq<Disk>): set<array<byte>> {
    set d | d in disks :: d.data
  }

  /** Handle t, and no other than the source's, is present, writable, whole-disk media of nonzero block size that holds
      `bytes` bytes in whole blocks. */
  ghost predicate OnlyTarget(handles: seq<Option<Media>>, source: nat, bytes: nat, t: nat) {
    forall i: nat ::
      (&& i < |handles| && i != source && handles[i].Some?
       && var m := handles[i].value;
          && m.present && !m.readOnly && !m.partition && m.block > 0
          && m.blocks * m.block >= bytes && bytes % m.block == 0) <==> i == t
  }

  lemma {:induction false} OnlyTargetIff(handles: seq<Option<Media>>, source: nat, bytes: nat, t: nat)
    ensures OnlyTarget(handles, source, bytes, t) <==> forall i: nat :: Qualifies(handles, source, bytes, i) <==> i == t
  {
    forall i: nat
      ensures Qualifies(handles, source, bytes, i) <==>
                (&& i < |handles| && i != source && handles[i].Some?
                 && var m := handles[i].value;
                    && m.present && !m.readOnly && !m.partition && m.block > 0
                    && m.blocks * m.block >= bytes && bytes % m.block == 0)
    {
    }
  }

  /** `offer_optical_install`: nothing is written anywhere unless the source is read-only media and both keys are
      pressed; then at most the one qualifying disk changes, and on success it starts with the source's bytes and is
      otherwise as before. */
  method OfferInstall(handles: seq<Option<Media>>, disks: seq<Disk>, source: nat, pressed: bool, confirmed: bool,
                      memory: bool, sourceDoes: nat -> Behaviour, targetDoes: nat -> Behaviour, flush: Status)
    returns (status: Option<Status>, ghost target: nat)
    requires Attached(handles, disks) && source < |disks| && (flush == Success || flush == DeviceError)
    modifies Storage(disks)
    ensures status.None? ==> forall i :: 0 <= i < |disks| ==> disks[i].data[..] == old(disks[i].data[..])
    ensures status.Some? <==>
              && pressed && confirmed && handles[source].Some? && handles[source].value.present
              && handles[source].value.readOnly
              && exists t: nat :: OnlyTarget(handles, source, disks[source].data.Length, t)
    ensures status.Some? ==>
              && OnlyTarget(handles, source, disks[source].data.Length, target)
              && (forall i :: 0 <= i < |disks| && i != target ==> disks[i].data[..] == old(disks[i].data[..]))
    ensures status == Some(Success) ==>
              && target < |disks| && disks[source].data.Length <= disks[target].data.Length
              && disks[target].data[..] == Splice(old(disks[target].data[..]), 0, disks[source].data[..])
  {
    target := 0;
    hide OnlyTarget, Qualifies, Accepted;
    var chosen := ChooseTarget(handles, source, pressed, confirmed);
    if chosen.None? { return None, 0; }
    target := chosen.value;
    TargetInside(handles, source, handles[source].value.blocks * handles[source].value.block, target);
    WholeMedium(handles[source].value.blocks, handles[source].value.block);
    var s := CopyInstallMedia(disks[source], disks[chosen.value], memory, sourceDoes, targetDoes, flush);
    status := Some(s);
  }

  /** The questions before the copy: read-only source media, the first key, one single target, the second key. */
  method ChooseTarget(handles: seq<Option<Media>>, source: nat, pressed: bool, confirmed: bool)
    returns (chosen: Option<nat>)
    requires source < |handles|
    ensures chosen.Some? <==>
              && pressed && confirmed && handles[source].Some? && handles[source].value.present
              && handles[source].value.readOnly
              && exists t: nat ::
                   OnlyTarget(handles, source, handles[source].value.blocks * handles[source].value.block, t)
    ensures chosen.Some? ==>
              OnlyTarget(handles, source, handles[source].value.blocks * handles[source].value.block, chosen.value)
  {
    hide OnlyTarget, Qualifies;
    if handles[source].None? { return None; }
    var m := handles[source].value;
    if !m.readOnly || !m.present || !pressed { return None; }
    var bytes := m.blocks * m.block;
    chosen := FindSingleTarget(handles, source, bytes);
    if chosen.Some? {
      OnlyTargetIff(handles, source, bytes, chosen.value);
    } else {
      forall t: nat ensures !OnlyTarget(handles, source, bytes, t) {
        OnlyTargetIff(handles, source, bytes, t);
        var here := Qualifies(handles, source, bytes, t);
      }
    }
    if !confirmed { return None; }
  }

  lemma {:induction false} TargetInside(handles: seq<Option<Media>>, source: nat, bytes: nat, t: nat)
    requires OnlyTarget(handles, source, bytes, t)
    ensures t < |handles| && t != source && handles[t].Some? && handles[t].value.block > 0
  {
    OnlyTargetIff(handles, source, bytes, t);
    assert Qualifies(handles, source, bytes, t);
  }

  lemma {:induction false} WholeMedium(blocks: nat, block: nat)
    ensures block > 0 ==> blocks * block % block == 0
  {
    if block > 0 { DivModUnique(blocks * block, block, blocks, 0); }
  }
}
