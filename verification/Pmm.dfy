/** The physical page allocator of kernel/pmm.c: a cursor over the firmware memory map plus a bounded stack of
    returned pages. Addresses are 64-bit values; the wrap-around of address arithmetic is written out. */
module Pmm {
  import opened Bytes

  const PAGE: nat := 4096
  const MIN_ADDR: nat := 0x0100_0000
  const RECYCLE_CAP: nat := 1024
  const CONVENTIONAL: nat := 7

  // The firmware map

  datatype Desc = Desc(kind: nat, start: nat, pages: nat)

  datatype Extent = Extent(lo: nat, hi: nat)

  /** `descs` are the descriptors that fit the map, in order; `kept` are the kernel image, the boot record, the map
      itself and the framebuffer. */
  datatype Boot = Boot(descs: seq<Desc>, kept: seq<Extent>)

  predicate Overlap(p: nat, e: Extent) {
    p < e.hi && e.lo < p + PAGE
  }

  /** `reserved`. */
  predicate Reserved(b: Boot, p: nat) {
    exists i :: 0 <= i < |b.kept| && Overlap(p, b.kept[i])
  }

  function End(d: Desc): (e: nat)
    ensures e < U64
  {
    (d.start + d.pages * PAGE) % U64
  }

  /** The part of a descriptor the allocator uses; empty when the descriptor is skipped. */
  function Usable(d: Desc): (x: Extent)
    ensures x.lo != 0 || x == Extent(0, 0)
  {
    if d.kind != CONVENTIONAL || d.pages == 0 || End(d) < d.start || End(d) <= MIN_ADDR then Extent(0, 0)
    else Extent(if d.start < MIN_ADDR then MIN_ADDR else d.start, End(d))
  }

  /** What the firmware promises of usable memory: page-aligned descriptors that end, with one page to spare, below
      2^64. */
  predicate WellPlaced(d: Desc) {
    d.kind == CONVENTIONAL ==> d.start % PAGE == 0 && d.start + d.pages * PAGE + PAGE < U64
  }

  predicate Apart(c: Desc, d: Desc) {
    var x, y := Usable(c), Usable(d);
    x.hi <= y.lo || y.hi <= x.lo || x.hi <= x.lo || y.hi <= y.lo
  }

  predicate WellFormed(descs: seq<Desc>) {
    && (forall i :: 0 <= i < |descs| ==> WellPlaced(descs[i]))
    && (forall i, j :: 0 <= i < j < |descs| ==> Apart(descs[i], descs[j]))
  }

  // Eligible pages, in scan order

  function Pages(b: Boot, lo: nat, hi: nat): (s: seq<nat>)
    decreases hi - lo
  {
    if lo + PAGE <= hi then (if Reserved(b, lo) then [] else [lo]) + Pages(b, lo + PAGE, hi) else []
  }

  function Eligible(b: Boot, descs: seq<Desc>): seq<nat> {
    if descs == [] then [] else Pages(b, Usable(descs[0]).lo, Usable(descs[0]).hi) + Eligible(b, descs[1..])
  }

  predicate InExtent(p: nat, x: Extent) {
    x.lo <= p && p + PAGE <= x.hi && (p - x.lo) % PAGE == 0
  }

  lemma {:induction false} PagesMembers(b: Boot, lo: nat, hi: nat, p: nat)
    ensures p in Pages(b, lo, hi) <==> InExtent(p, Extent(lo, hi)) && !Reserved(b, p)
    decreases hi - lo
  {
    hide Reserved;
    if lo + PAGE <= hi {
      PagesMembers(b, lo + PAGE, hi, p);
      assert p != lo && InExtent(p, Extent(lo, hi)) ==> p >= lo + PAGE;
    }
  }

  lemma {:induction false} EligibleMembers(b: Boot, descs: seq<Desc>, p: nat)
    ensures p in Eligible(b, descs) <==>
              (exists i :: 0 <= i < |descs| && InExtent(p, Usable(descs[i]))) && !Reserved(b, p)
  {
    hide Reserved, Usable, InExtent, Pages;
    if descs != [] {
      PagesMembers(b, Usable(descs[0]).lo, Usable(descs[0]).hi, p);
      EligibleMembers(b, descs[1..], p);
      if i :| 0 <= i < |descs| && InExtent(p, Usable(descs[i])) {
        if i > 0 { assert descs[1..][i - 1] == descs[i]; }
      }
      if i :| 0 <= i < |descs[1..]| && InExtent(p, Usable(descs[1..][i])) {
        assert descs[1..][i] == descs[i + 1];
      }
    }
  }

  predicate NoDup(s: seq<nat>) {
    forall i, j :: 0 <= i < j < |s| ==> s[i] != s[j]
  }

  function ToSet(s: seq<nat>): set<nat> {
    set x | x in s
  }

  lemma {:induction false} NoDupConcat(a: seq<nat>, b: seq<nat>)
    ensures NoDup(a + b) <==> NoDup(a) && NoDup(b) && ToSet(a) !! ToSet(b)
    ensures ToSet(a + b) == ToSet(a) + ToSet(b)
  {
    if NoDup(a + b) {
      forall i, j | 0 <= i < j < |a| ensures a[i] != a[j] { assert (a + b)[i] == a[i] && (a + b)[j] == a[j]; }
      forall i, j | 0 <= i < j < |b| ensures b[i] != b[j] {
        assert (a + b)[|a| + i] == b[i] && (a + b)[|a| + j] == b[j];
      }
      forall i, j | 0 <= i < |a| && 0 <= j < |b| ensures a[i] != b[j] {
        assert (a + b)[i] == a[i] && (a + b)[|a| + j] == b[j];
      }
    }
    if NoDup(a) && NoDup(b) && ToSet(a) !! ToSet(b) {
      forall i, j | 0 <= i < j < |a + b| ensures (a + b)[i] != (a + b)[j] {
        if i < |a| && |a| <= j {
          assert a[i] in ToSet(a) && b[j - |a|] in ToSet(b);
        }
      }
    }
  }

  lemma {:induction false} PagesNoDup(b: Boot, lo: nat, hi: nat)
    ensures NoDup(Pages(b, lo, hi))
    decreases hi - lo
  {
    hide Reserved;
    if lo + PAGE <= hi {
      PagesNoDup(b, lo + PAGE, hi);
      PagesMembers(b, lo + PAGE, hi, lo);
      NoDupConcat([lo], Pages(b, lo + PAGE, hi));
      assert [] + Pages(b, lo + PAGE, hi) == Pages(b, lo + PAGE, hi);
    }
  }

  lemma {:induction false} ApartMembers(c: Desc, d: Desc, p: nat)
    requires Apart(c, d)
    ensures !(InExtent(p, Usable(c)) && InExtent(p, Usable(d)))
  {
  }

  /** Disjoint descriptors never name a page twice. */
  lemma {:induction false} EligibleNoDup(b: Boot, descs: seq<Desc>)
    requires WellFormed(descs)
    ensures NoDup(Eligible(b, descs))
  {
    hide Reserved, Usable, Pages;
    if descs != [] {
      var x := Usable(descs[0]);
      var first, rest := Pages(b, x.lo, x.hi), Eligible(b, descs[1..]);
      EligibleNoDup(b, descs[1..]);
      PagesNoDup(b, x.lo, x.hi);
      forall p | p in first ensures p !in rest {
        PagesMembers(b, x.lo, x.hi, p);
        EligibleMembers(b, descs[1..], p);
        forall i | 0 <= i < |descs[1..]| ensures !InExtent(p, Usable(descs[1..][i])) {
          ApartMembers(descs[0], descs[i + 1], p);
        }
      }
      NoDupConcat(first, rest);
    }
  }

  // The allocator as a value

  /** `live` are the pages handed out and not returned. */
  datatype Pool = Pool(unscanned: seq<nat>, recycled: seq<nat>, live: set<nat>, used: int)

  predicate Conventional(b: Boot, p: nat) {
    p >= MIN_ADDR && p % PAGE == 0 && exists i :: 0 <= i < |b.descs| && Covers(b.descs[i], p)
  }

  predicate Covers(d: Desc, p: nat) {
    d.kind == CONVENTIONAL && d.pages != 0 && d.start <= End(d)
    && (if d.start < MIN_ADDR then MIN_ADDR else d.start) <= p && p < (p + PAGE) % U64 <= End(d)
  }

  function Alloc(s: Pool): (r: (Pool, nat)) {
    if s.recycled != [] then
      var p := s.recycled[|s.recycled| - 1];
      (Pool(s.unscanned, s.recycled[..|s.recycled| - 1], s.live + {p}, s.used + 1), p)
    else if s.unscanned != [] then
      var p := s.unscanned[0];
      (Pool(s.unscanned[1..], [], s.live + {p}, s.used + 1), p)
    else (s, 0)
  }

  predicate Accepts(b: Boot, s: Pool, page: nat) {
    page != 0 && s.used != 0 && Conventional(b, page) && !Reserved(b, page)
    && |s.recycled| < RECYCLE_CAP && page !in s.recycled
  }

  function Free(b: Boot, s: Pool, page: nat): Pool {
    if Accepts(b, s, page) then Pool(s.unscanned, s.recycled + [page], s.live - {page}, s.used - 1) else s
  }

  /** The two places a page is judged agree: the scan reaches exactly the pages that `pmm_free_page` takes back. */
  lemma {:induction false} ScanMatchesFreeTest(b: Boot, p: nat)
    requires WellFormed(b.descs)
    ensures p in Eligible(b, b.descs) <==> Conventional(b, p) && !Reserved(b, p)
  {
    hide Reserved, Eligible;
    EligibleMembers(b, b.descs, p);
    forall i | 0 <= i < |b.descs|
      ensures InExtent(p, Usable(b.descs[i])) <==> p >= MIN_ADDR && p % PAGE == 0 && Covers(b.descs[i], p)
    {
      CoversIsExtent(b.descs[i], p);
    }
  }

  lemma {:induction false} CoversIsExtent(d: Desc, p: nat)
    requires WellPlaced(d)
    ensures InExtent(p, Usable(d)) <==> p >= MIN_ADDR && p % PAGE == 0 && Covers(d, p)
  {
    if d.kind == CONVENTIONAL {
      assert End(d) == d.start + d.pages * PAGE;
      var lo := Usable(d).lo;
      assert lo % PAGE == 0;
      if lo <= p { AlignedOffset(p, lo); }
      if p + PAGE < U64 { assert (p + PAGE) % U64 == p + PAGE; }
      if p < U64 && p + PAGE >= U64 { assert (p + PAGE) % U64 == p + PAGE - U64; }
      if p >= U64 { assert (p + PAGE) % U64 < U64; }
    }
  }

  lemma {:induction false} AlignedOffset(p: nat, lo: nat)
    requires lo <= p && lo % PAGE == 0
    ensures (p - lo) % PAGE == 0 <==> p % PAGE == 0
  {
    var k := lo / PAGE;
    assert lo == PAGE * k && p == (p - lo) + PAGE * k;
  }

  /** Live, recycled and unscanned pages partition the eligible pages, and `used` counts the live ones. */
  ghost predicate Inv(b: Boot, s: Pool) {
    && NoDup(s.unscanned) && NoDup(s.recycled)
    && ToSet(s.unscanned) !! ToSet(s.recycled) && ToSet(s.unscanned) !! s.live && ToSet(s.recycled) !! s.live
    && ToSet(s.unscanned) + ToSet(s.recycled) + s.live == ToSet(Eligible(b, b.descs))
    && s.used == |s.live|
    && |s.recycled| <= RECYCLE_CAP
  }

  lemma {:induction false} InitialInv(b: Boot)
    requires WellFormed(b.descs)
    ensures Inv(b, Pool(Eligible(b, b.descs), [], {}, 0))
  {
    EligibleNoDup(b, b.descs);
  }

  lemma {:induction false} EligibleNonzero(b: Boot, p: nat)
    requires WellFormed(b.descs) && p in Eligible(b, b.descs)
    ensures p >= MIN_ADDR
  {
    hide Reserved, Eligible, Covers;
    ScanMatchesFreeTest(b, p);
  }

  /** An allocation keeps the partition; it hands out an eligible page that was not live, and fails exactly when
      every eligible page is live. */
  lemma {:induction false} AllocKeeps(b: Boot, s: Pool)
    requires WellFormed(b.descs) && Inv(b, s)
    ensures var (t, p) := Alloc(s);
            && Inv(b, t)
            && (p == 0 <==> s.live == ToSet(Eligible(b, b.descs)))
            && (p == 0 ==> t == s)
            && (p != 0 ==> p in Eligible(b, b.descs) && p !in s.live && t.live == s.live + {p})
  {
    hide Eligible, Reserved, Inv, NoDup, WellFormed;
    var (t, p) := Alloc(s);
    if s.recycled != [] {
      assert s.recycled == t.recycled + [p];
      MovesToLive(b, s, p);
      PopKeeps(b, s, t.recycled, p);
    } else if s.unscanned != [] {
      assert s.unscanned == [p] + t.unscanned;
      MovesToLive(b, s, p);
      AdvanceKeeps(b, s, t.unscanned, p);
    } else {
      assert s.live == ToSet(Eligible(b, b.descs)) by { AllLive(b, s); }
    }
  }

  lemma {:induction false} AllLive(b: Boot, s: Pool)
    requires Inv(b, s) && s.recycled == [] && s.unscanned == []
    ensures s.live == ToSet(Eligible(b, b.descs))
  {
    hide Eligible;
    assert ToSet([]) == {};
  }

  lemma {:induction false} MoveBetween(kept: set<nat>, from: set<nat>, rest: set<nat>, to: set<nat>, p: nat)
    requires kept !! from && kept !! to && from !! to && from == rest + {p} && p !in rest
    ensures kept !! rest && kept !! to + {p} && rest !! to + {p}
    ensures kept + rest + (to + {p}) == kept + from + to
  {
  }

  lemma {:induction false} PopKeeps(b: Boot, s: Pool, rest: seq<nat>, p: nat)
    requires Inv(b, s) && s.recycled == rest + [p] && |s.live + {p}| == |s.live| + 1
    ensures Inv(b, Pool(s.unscanned, rest, s.live + {p}, s.used + 1))
  {
    hide Eligible, NoDup, ToSet;
    NoDupConcat(rest, [p]);
    SingleSet(p);
    MoveBetween(ToSet(s.unscanned), ToSet(s.recycled), ToSet(rest), s.live, p);
  }

  lemma {:induction false} SingleSet(p: nat)
    ensures ToSet([p]) == {p} && ToSet([]) == {}
  {
  }

  lemma {:induction false} AdvanceKeeps(b: Boot, s: Pool, rest: seq<nat>, p: nat)
    requires Inv(b, s) && s.unscanned == [p] + rest && s.recycled == [] && |s.live + {p}| == |s.live| + 1
    ensures Inv(b, Pool(rest, [], s.live + {p}, s.used + 1))
  {
    hide Eligible, NoDup, ToSet;
    NoDupConcat([p], rest);
    SingleSet(p);
    MoveBetween({}, ToSet(s.unscanned), ToSet(rest), s.live, p);
  }

  lemma {:induction false} MovesToLive(b: Boot, s: Pool, p: nat)
    requires WellFormed(b.descs) && Inv(b, s)
    requires p in s.recycled || p in s.unscanned
    ensures p != 0 && p in Eligible(b, b.descs) && p !in s.live && |s.live + {p}| == |s.live| + 1
    ensures s.live != ToSet(Eligible(b, b.descs))
  {
    hide Eligible, Reserved, WellFormed, NoDup;
    assert p in ToSet(s.unscanned) + ToSet(s.recycled);
    assert p in ToSet(Eligible(b, b.descs));
    EligibleNonzero(b, p);
  }

  /** A page that is live is taken back exactly when the stack has room. */
  lemma {:induction false} OwnedPageAccepted(b: Boot, s: Pool, page: nat)
    requires WellFormed(b.descs) && Inv(b, s) && page in s.live
    ensures Accepts(b, s, page) <==> |s.recycled| < RECYCLE_CAP
  {
    hide Eligible, Reserved, Covers;
    assert page in ToSet(Eligible(b, b.descs));
    ScanMatchesFreeTest(b, page);
    assert page in s.recycled ==> page in ToSet(s.recycled);
  }

  /** `pmm_free_page` does not know who owns a page: a call breaks the partition exactly when the page was never handed
      out, some page is in use and the stack has room. */
  lemma {:induction false} FreeKeepsIff(b: Boot, s: Pool, page: nat)
    requires WellFormed(b.descs) && Inv(b, s)
    ensures !Inv(b, Free(b, s, page)) <==> page in s.unscanned && s.used != 0 && |s.recycled| < RECYCLE_CAP
    ensures page in s.live ==> Inv(b, Free(b, s, page))
  {
    hide Inv, Accepts, WellFormed;
    OneOwner(b, s, page);
    if !Accepts(b, s, page) {
      if page in s.unscanned { UnscannedAccepted(b, s, page); }
    } else if page in s.live {
      LiveReturned(b, s, page);
    } else {
      UnscannedAccepted(b, s, page);
      UnscannedReturned(b, s, page);
    }
  }

  lemma {:induction false} OneOwner(b: Boot, s: Pool, page: nat)
    requires WellFormed(b.descs) && Inv(b, s)
    ensures page in s.live ==> page !in s.unscanned
    ensures Accepts(b, s, page) ==> page in s.live || page in s.unscanned
    ensures Accepts(b, s, page) ==> s.used != 0 && |s.recycled| < RECYCLE_CAP
  {
    hide Eligible, Reserved, Conventional, WellFormed;
    ScanMatchesFreeTest(b, page);
    assert page in s.unscanned ==> page in ToSet(s.unscanned);
    if Accepts(b, s, page) { assert page in ToSet(Eligible(b, b.descs)); }
  }

  lemma {:induction false} UnscannedAccepted(b: Boot, s: Pool, page: nat)
    requires WellFormed(b.descs) && Inv(b, s) && page in s.unscanned
    ensures Accepts(b, s, page) <==> s.used != 0 && |s.recycled| < RECYCLE_CAP
  {
    hide Eligible, Reserved, Conventional, WellFormed, NoDup;
    ScanMatchesFreeTest(b, page);
    assert page in ToSet(s.unscanned) && page in ToSet(Eligible(b, b.descs));
    EligibleNonzero(b, page);
    assert page in s.recycled ==> page in ToSet(s.recycled);
  }

  lemma {:induction false} LiveReturned(b: Boot, s: Pool, page: nat)
    requires Inv(b, s) && Accepts(b, s, page) && page in s.live
    ensures Inv(b, Free(b, s, page))
  {
    hide Eligible, Reserved, Conventional, NoDup, ToSet;
    NoDupConcat(s.recycled, [page]);
    SingleNoDup(page);
    NotMember(s.recycled, page);
    SingleSet(page);
    MoveBetween(ToSet(s.unscanned), s.live, s.live - {page}, ToSet(s.recycled), page);
  }

  lemma {:induction false} SingleNoDup(page: nat)
    ensures NoDup([page])
  {
  }

  lemma {:induction false} NotMember(pages: seq<nat>, page: nat)
    ensures page in pages <==> page in ToSet(pages)
  {
  }

  lemma {:induction false} UnscannedReturned(b: Boot, s: Pool, page: nat)
    requires Accepts(b, s, page) && page in s.unscanned
    ensures !Inv(b, Free(b, s, page))
  {
    hide Eligible, Reserved, Conventional, NoDup;
    assert page in ToSet(s.unscanned) && page in ToSet(s.recycled + [page]);
  }

  const TWO_PAGES: Boot := Boot([Desc(CONVENTIONAL, MIN_ADDR, 2)], [])

  lemma {:induction false} TwoPages()
    ensures WellFormed(TWO_PAGES.descs) && Eligible(TWO_PAGES, TWO_PAGES.descs) == [MIN_ADDR, MIN_ADDR + PAGE]
  {
    var b, top := TWO_PAGES, MIN_ADDR + 2 * PAGE;
    var d := b.descs[0];
    assert d.pages * PAGE == 2 * PAGE && End(d) == top && Usable(d) == Extent(MIN_ADDR, top);
    assert b.descs[1..] == [];
    assert Pages(b, top, top) == [];
    assert Pages(b, MIN_ADDR + PAGE, top) == [MIN_ADDR + PAGE];
    assert Pages(b, MIN_ADDR, top) == [MIN_ADDR, MIN_ADDR + PAGE];
  }

  /** Freeing a page that was never handed out: of two pages one is live, the other is returned by a caller who does
      not own it, and the next two allocations both hand it out. */
  lemma {:induction false} UnownedFreeAccepted()
    ensures var second := MIN_ADDR + PAGE;
            var s := Play(TWO_PAGES, Pool(Eligible(TWO_PAGES, TWO_PAGES.descs), [], {}, 0), [DoAlloc]);
            && WellFormed(TWO_PAGES.descs) && Inv(TWO_PAGES, s) && second in s.unscanned
            && Accepts(TWO_PAGES, s, second) && !Inv(TWO_PAGES, Free(TWO_PAGES, s, second))
            && var t := Free(TWO_PAGES, s, second);
               Alloc(t).1 == second == Alloc(Alloc(t).0).1
  {
    hide Inv, Accepts, WellFormed, Eligible;
    var b, second := TWO_PAGES, MIN_ADDR + PAGE;
    TwoPages();
    var begin := Pool(Eligible(b, b.descs), [], {}, 0);
    InitialInv(b);
    AllocKeeps(b, begin);
    assert [DoAlloc][1..] == [] && begin.unscanned[1..] == [second];
    var s := Play(b, begin, [DoAlloc]);
    assert s == Pool([second], [], {MIN_ADDR}, 1);
    UnscannedAccepted(b, s, second);
    UnscannedReturned(b, s, second);
    assert [second][..0] == [];
  }

  // Every run

  datatype Op = DoAlloc | DoFree(page: nat)

  /** Callers return only pages they own. */
  predicate Owned(b: Boot, s: Pool, ops: seq<Op>)
    decreases |ops|
  {
    ops == [] || ((ops[0].DoFree? ==> ops[0].page in s.live) && Owned(b, Apply(b, s, ops[0]), ops[1..]))
  }

  function Apply(b: Boot, s: Pool, op: Op): Pool {
    match op
    case DoAlloc => Alloc(s).0
    case DoFree(page) => Free(b, s, page)
  }

  function Play(b: Boot, s: Pool, ops: seq<Op>): Pool
    decreases |ops|
  {
    if ops == [] then s else Play(b, Apply(b, s, ops[0]), ops[1..])
  }

  /** Over every run of allocations and owned frees the partition holds, and what the next allocation hands out was
      not live. */
  lemma {:induction false} RunKeeps(b: Boot, s: Pool, ops: seq<Op>)
    requires WellFormed(b.descs) && Inv(b, s) && Owned(b, s, ops)
    ensures Inv(b, Play(b, s, ops))
    ensures var z := Play(b, s, ops);
            Alloc(z).1 !in z.live && (Alloc(z).1 == 0 <==> z.live == ToSet(Eligible(b, b.descs)))
    decreases |ops|
  {
    hide Inv, Alloc, Free, Eligible, WellFormed;
    if ops == [] {
      AllocKeeps(b, s);
      ZeroNotLive(b, s);
    } else {
      AllocKeeps(b, s);
      if ops[0].DoFree? { FreeKeepsIff(b, s, ops[0].page); }
      RunKeeps(b, Apply(b, s, ops[0]), ops[1..]);
    }
  }

  lemma {:induction false} ZeroNotLive(b: Boot, s: Pool)
    requires WellFormed(b.descs) && Inv(b, s)
    ensures 0 !in s.live
  {
    hide Eligible, Reserved;
    if 0 in s.live {
      assert 0 in ToSet(Eligible(b, b.descs));
      EligibleNonzero(b, 0);
    }
  }

  // The counters

  /** `pmm_total_pages`: every page of every usable extent, reserved or not. */
  function Total(descs: seq<Desc>): nat {
    if descs == [] then 0
    else
      var x := Usable(descs[0]);
      (if x.hi > x.lo then (x.hi - x.lo) / PAGE else 0) + Total(descs[1..])
  }

  /** How many pages of an extent are reserved. */
  function ReservedIn(b: Boot, lo: nat, hi: nat): nat
    decreases hi - lo
  {
    if lo + PAGE <= hi then (if Reserved(b, lo) then 1 else 0) + ReservedIn(b, lo + PAGE, hi) else 0
  }

  function ReservedPages(b: Boot, descs: seq<Desc>): nat {
    if descs == [] then 0 else ReservedIn(b, Usable(descs[0]).lo, Usable(descs[0]).hi) + ReservedPages(b, descs[1..])
  }

  lemma {:induction false} PagesCount(b: Boot, lo: nat, hi: nat)
    ensures |Pages(b, lo, hi)| + ReservedIn(b, lo, hi) == if lo <= hi then (hi - lo) / PAGE else 0
    decreases hi - lo
  {
    hide Reserved;
    if lo + PAGE <= hi { PagesCount(b, lo + PAGE, hi); }
  }

  lemma {:induction false} TotalCounts(b: Boot, descs: seq<Desc>)
    ensures Total(descs) == |Eligible(b, descs)| + ReservedPages(b, descs)
  {
    hide Reserved, Usable;
    if descs != [] {
      PagesCount(b, Usable(descs[0]).lo, Usable(descs[0]).hi);
      TotalCounts(b, descs[1..]);
    }
  }

  lemma {:induction false} SetSize(s: seq<nat>)
    requires NoDup(s)
    ensures |ToSet(s)| == |s|
  {
    if s != [] {
      var rest := s[1..];
      assert s == [s[0]] + rest;
      NoDupConcat([s[0]], rest);
      SetSize(rest);
      assert ToSet([s[0]]) == {s[0]};
    }
  }

  /** `pmm_free_pages` over-reports what can still be allocated by exactly the reserved pages. */
  lemma {:induction false} FreeReport(b: Boot, s: Pool)
    requires WellFormed(b.descs) && Inv(b, s)
    ensures Total(b.descs) - s.used == |s.unscanned| + |s.recycled| + ReservedPages(b, b.descs)
  {
    hide Eligible, Reserved, Usable;
    TotalCounts(b, b.descs);
    EligibleNoDup(b, b.descs);
    SetSize(Eligible(b, b.descs));
    SetSize(s.unscanned);
    SetSize(s.recycled);
    var u, r := ToSet(s.unscanned), ToSet(s.recycled);
    assert |u + r + s.live| == |u| + |r| + |s.live|;
  }

  /** The scan's bound test, done in 64 bits, agrees with the true one on every aligned cursor exactly when the
      extent ends below the last page of the address space. */
  lemma {:induction false} ScanGuardExact(hi: nat)
    requires hi < U64 && hi % PAGE == 0
    ensures (forall a: nat :: a % PAGE == 0 && a <= hi ==> ((a + PAGE) % U64 <= hi <==> a + PAGE <= hi))
            <==> hi + PAGE < U64
  {
    if hi + PAGE >= U64 {
      assert (hi + PAGE) % U64 == 0;
      assert !((hi + PAGE) % U64 <= hi <==> hi + PAGE <= hi);
    } else {
      forall a: nat | a % PAGE == 0 && a <= hi ensures (a + PAGE) % U64 == a + PAGE {}
    }
  }

  // The kernel's own form

  class Allocator {
    var boot: Option<Boot>
    var totalPages: nat
    var usedPages: int
    var scanIndex: nat
    var scanAddr: nat
    var scanEnd: nat
    var recycled: array<nat>
    var recycledCount: nat
    ghost var live: set<nat>

    function Map(): Boot
      reads this
    {
      if boot.Some? then boot.value else Boot([], [])
    }

    ghost predicate Valid()
      reads this, recycled
    {
      && recycled.Length == RECYCLE_CAP && recycledCount <= RECYCLE_CAP
      && scanIndex <= |Map().descs|
      && (forall i :: 0 <= i < |Map().descs| ==> WellPlaced(Map().descs[i]))
      && (boot == None ==> scanEnd == 0) && (scanAddr == 0 ==> scanEnd == 0) && scanEnd + PAGE < U64
      && scanAddr <= scanEnd
    }

    ghost function View(): Pool
      reads this, recycled
      requires Valid()
    {
      Pool(Pages(Map(), scanAddr, scanEnd) + Eligible(Map(), Map().descs[scanIndex..]),
           recycled[..recycledCount], live, usedPages)
    }

    constructor (stack: array<nat>)
      requires stack.Length == RECYCLE_CAP
      ensures Valid() && recycled == stack && boot == None
    {
      boot, totalPages, usedPages, scanIndex, scanAddr, scanEnd := None, 0, 0, 0, 0, 0;
      recycled, recycledCount, live := stack, 0, {};
    }

    /** `pmm_init`. */
    method Init(b: Option<Boot>)
      requires Valid()
      requires b.Some? ==> forall i :: 0 <= i < |b.value.descs| ==> WellPlaced(b.value.descs[i])
      modifies this
      ensures Valid() && boot == b && recycled == old(recycled)
      ensures totalPages == Total(Map().descs)
      ensures View() == Pool(Eligible(Map(), Map().descs), [], {}, 0)
    {
      hide Eligible, Usable;
      boot, totalPages, usedPages, scanIndex, scanAddr, scanEnd := b, 0, 0, 0, 0, 0;
      recycledCount, live := 0, {};
      assert Map().descs[0..] == Map().descs;
      assert Pages(Map(), 0, 0) == [];
      if b == None { return; }
      var i := 0;
      var descs := b.value.descs;
      while i < |descs|
        invariant 0 <= i <= |descs|
        invariant totalPages + Total(descs[i..]) == Total(descs)
        invariant boot == b && recycled == old(recycled) && usedPages == 0 && scanIndex == 0 && scanAddr == 0
        invariant scanEnd == 0
        invariant recycledCount == 0 && live == {}
      {
        var x := Usable(descs[i]);
        assert descs[i..][1..] == descs[i + 1..];
        if x.hi > x.lo { totalPages := totalPages + (x.hi - x.lo) / PAGE; }
        i := i + 1;
      }
    }

    /** `pmm_alloc_page`: recycled pages first, then the scan; 0 when both are exhausted. */
    method AllocPage() returns (page: nat)
      requires Valid()
      modifies this
      ensures Valid() && boot == old(boot) && totalPages == old(totalPages) && recycled == old(recycled)
      ensures (View(), page) == Alloc(old(View()))
    {
      hide Eligible, Reserved;
      if recycledCount > 0 {
        recycledCount := recycledCount - 1;
        page := recycled[recycledCount];
        usedPages := usedPages + 1;
        live := live + {page};
        assert recycled[..recycledCount] == old(recycled[..recycledCount])[..recycledCount];
        return;
      }
      page := ScanOn();
    }

    /** The scan half of `pmm_alloc_page`. */
    method ScanOn() returns (page: nat)
      requires Valid() && recycledCount == 0
      modifies this
      ensures Valid() && boot == old(boot) && totalPages == old(totalPages) && recycled == old(recycled)
      ensures recycledCount == 0
      ensures page == 0 ==> old(View().unscanned) == View().unscanned == []
                            && live == old(live) && usedPages == old(usedPages)
      ensures page != 0 ==> old(View().unscanned) == [page] + View().unscanned
                            && live == old(live) + {page} && usedPages == old(usedPages) + 1
    {
      hide Eligible, Reserved, Usable, End;
      ghost var goal := View().unscanned;
      NothingLeft(Map());
      if boot == None {
        assert Map().descs[scanIndex..] == [] && goal == [];
        return 0;
      }
      while true
        invariant Valid() && boot == old(boot) && recycled == old(recycled) && recycledCount == 0
        invariant totalPages == old(totalPages) && usedPages == old(usedPages) && live == old(live)
        invariant View().unscanned == goal
        decreases |Map().descs| - scanIndex
      {
        page := Scan();
        if page != 0 {
          usedPages := usedPages + 1;
          live := live + {page};
          assert goal == [page] + View().unscanned;
          return;
        }
        assert goal == Eligible(Map(), Map().descs[scanIndex..]);
        scanAddr, scanEnd := 0, 0;
        if scanIndex == |Map().descs| {
          assert Map().descs[scanIndex..] == [];
          return 0;
        }
        NextDescriptor();
        assert [] + View().unscanned == goal;
      }
    }

    /** The cursor moves to the next descriptor, or past it when it is skipped. */
    method NextDescriptor()
      requires Valid() && scanAddr == scanEnd == 0 && boot.Some? && scanIndex < |Map().descs|
      modifies this`scanIndex, this`scanAddr, this`scanEnd
      ensures Valid() && scanIndex == old(scanIndex) + 1
      ensures Pages(Map(), scanAddr, scanEnd) + Eligible(Map(), Map().descs[scanIndex..])
              == Eligible(Map(), Map().descs[old(scanIndex)..])
    {
      hide Reserved, Eligible;
      var d := Map().descs[scanIndex];
      assert WellPlaced(d);
      assert Map().descs[scanIndex..][1..] == Map().descs[scanIndex + 1..];
      EligibleUnfolds(Map(), Map().descs[scanIndex..]);
      var x := Usable(d);
      scanIndex := scanIndex + 1;
      if x.lo < x.hi { scanAddr, scanEnd := x.lo, x.hi; }
    }

    /** The inner loop of the scan: the next unreserved page of the current extent, or 0. */
    method Scan() returns (page: nat)
      requires Valid()
      modifies this`scanAddr
      ensures Valid()
      ensures page == 0 ==> old(Pages(Map(), scanAddr, scanEnd)) == [] == Pages(Map(), scanAddr, scanEnd)
      ensures page != 0 ==> old(Pages(Map(), scanAddr, scanEnd)) == [page] + Pages(Map(), scanAddr, scanEnd)
    {
      while scanAddr != 0 && (scanAddr + PAGE) % U64 <= scanEnd
        invariant Valid()
        invariant Pages(Map(), scanAddr, scanEnd) == old(Pages(Map(), scanAddr, scanEnd))
        decreases scanEnd - scanAddr
      {
        page := scanAddr;
        scanAddr := (scanAddr + PAGE) % U64;
        if !Reserved(Map(), page) { return page; }
      }
      page := 0;
    }

    method IsConventional(p: nat) returns (yes: bool)
      requires Valid()
      ensures yes == Conventional(Map(), p)
    {
      hide Covers;
      if boot == None || p < MIN_ADDR || p % PAGE != 0 { return false; }
      var descs := boot.value.descs;
      for i := 0 to |descs|
        invariant forall j :: 0 <= j < i ==> !Covers(descs[j], p)
      {
        if Covers(descs[i], p) { return true; }
      }
      return false;
    }

    /** `pmm_free_page`. */
    method FreePage(page: nat) returns (ok: bool)
      requires Valid()
      modifies this, recycled
      ensures Valid() && boot == old(boot) && totalPages == old(totalPages) && recycled == old(recycled)
      ensures ok == Accepts(Map(), old(View()), page)
      ensures View() == Free(Map(), old(View()), page)
    {
      hide Eligible, Pages, Conventional, Reserved;
      if page == 0 || usedPages == 0 { return false; }
      var conventional := IsConventional(page);
      if !conventional || Reserved(Map(), page) || recycledCount >= RECYCLE_CAP { return false; }
      for i := 0 to recycledCount
        invariant page !in recycled[..i]
      {
        if recycled[i] == page { return false; }
        assert recycled[..i + 1] == recycled[..i] + [recycled[i]];
      }
      recycled[recycledCount] := page;
      recycledCount := recycledCount + 1;
      usedPages := usedPages - 1;
      live := live - {page};
      assert recycled[..recycledCount] == old(recycled[..recycledCount]) + [page];
      return true;
    }
  }

  lemma {:induction false} EligibleUnfolds(b: Boot, descs: seq<Desc>)
    requires descs != []
    ensures Eligible(b, descs) == Pages(b, Usable(descs[0]).lo, Usable(descs[0]).hi) + Eligible(b, descs[1..])
  {
  }

  lemma {:induction false} NothingLeft(b: Boot)
    ensures Eligible(b, []) == [] && Pages(b, 0, 0) == []
  {
  }
}
