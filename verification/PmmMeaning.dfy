/** Which memory the page allocator hands out, byte by byte. */
module PmmMeaning {
  import opened Bytes
  import opened Pmm

  /** Some byte of the page lies in the extent. */
  ghost predicate Meets(p: nat, e: Extent) {
    exists x: nat :: InPage(x, p) && e.lo <= x < e.hi
  }

  predicate InPage(x: nat, p: nat) {
    p <= x < p + 4096
  }

  /** The overlap test is that of common bytes, and besides counts an empty extent that begins inside the page. */
  lemma {:induction false} OverlapMeaning(p: nat, e: Extent)
    ensures Overlap(p, e) <==> Meets(p, e) || p < e.hi <= e.lo < p + 4096
  {
    if Overlap(p, e) && e.lo < e.hi {
      var x := if e.lo < p then p else e.lo;
      assert InPage(x, p);
    }
  }

  /** Page-aligned, from 16 MiB up, wholly inside a descriptor of conventional memory. */
  ghost predicate Conventional7(b: Boot, p: nat) {
    && p % 4096 == 0 && p >= 0x0100_0000
    && exists i :: 0 <= i < |b.descs| && Inside(b.descs[i], p)
  }

  predicate Inside(d: Desc, p: nat) {
    d.kind == 7 && d.start <= p && p + 4096 <= d.start + 4096 * d.pages
  }

  lemma {:induction false} UsableMeaning(d: Desc, p: nat)
    requires WellPlaced(d)
    ensures InExtent(p, Usable(d)) <==> p % 4096 == 0 && p >= 0x0100_0000 && Inside(d, p)
  {
    if d.kind == CONVENTIONAL {
      assert End(d) == d.start + d.pages * PAGE;
      var lo := Usable(d).lo;
      if lo <= p { AlignedOffset(p, lo); }
    }
  }

  /** The pages that can be handed out are exactly those of conventional memory that no kept extent shares a byte with;
      an empty extent keeps the page it begins inside. */
  lemma {:induction false} EligibleMeaning(b: Boot, p: nat)
    requires WellFormed(b.descs)
    ensures p in Eligible(b, b.descs) <==>
              && Conventional7(b, p)
              && forall k :: 0 <= k < |b.kept| ==>
                   !Meets(p, b.kept[k]) && !(p < b.kept[k].hi <= b.kept[k].lo < p + 4096)
  {
    hide Eligible, Usable, InExtent, Overlap, Meets, Inside;
    EligibleMembers(b, b.descs, p);
    forall i | 0 <= i < |b.descs|
      ensures InExtent(p, Usable(b.descs[i])) <==> p % 4096 == 0 && p >= 0x0100_0000 && Inside(b.descs[i], p)
    {
      UsableMeaning(b.descs[i], p);
    }
    forall k | 0 <= k < |b.kept|
      ensures Overlap(p, b.kept[k]) <==> Meets(p, b.kept[k]) || p < b.kept[k].hi <= b.kept[k].lo < p + 4096
    {
      OverlapMeaning(p, b.kept[k]);
    }
  }

  /** What so many allocations in a row hand out. */
  function Handed(s: Pool, count: nat): seq<nat>
    decreases count
  {
    if count == 0 then [] else [Alloc(s).1] + Handed(Alloc(s).0, count - 1)
  }

  /** Without frees every eligible page is handed out, each once and in map order, and then nothing is. */
  lemma {:induction false} HandedInOrder(s: Pool, count: nat)
    requires s.recycled == []
    ensures Handed(s, count) == if count <= |s.unscanned| then s.unscanned[..count]
                                else s.unscanned + seq(count - |s.unscanned|, _ => 0)
    decreases count
  {
    if count > 0 {
      HandedInOrder(Alloc(s).0, count - 1);
      if s.unscanned != [] {
        assert s.unscanned == [s.unscanned[0]] + s.unscanned[1..];
      } else {
        assert [0] + seq(count - 1, _ => 0) == seq(count, _ => 0);
      }
    }
  }

  /** The page taken back last is the next one handed out, and then the pool is as before, the page live. */
  lemma {:induction false} FreeThenAlloc(b: Boot, s: Pool, page: nat)
    requires Accepts(b, s, page)
    ensures Alloc(Free(b, s, page)) == (s.(live := s.live + {page}), page)
  {
    var f := Free(b, s, page);
    assert f.recycled[..|s.recycled|] == s.recycled;
    assert (s.live - {page}) + {page} == s.live + {page};
  }
}
