/** The twelve-slot browsing history of kernel/vela.c, against an unbounded linear history. */
module History {
  import opened Bytes

  const SLOTS: nat := 12
  const MAX_REDIRECTS: nat := 2

  /** Pages in the order visited, and the current one; index -1 exactly when there is none. */
  datatype Tab = Tab(pages: seq<string>, index: int)

  const EMPTY: Tab := Tab([], -1)

  predicate Sound(t: Tab) {
    && -1 <= t.index < |t.pages| && (t.index == -1 <==> t.pages == [])
    && (forall i :: 0 <= i < |t.pages| ==> t.pages[i] != "") && NoRepeats(t.pages)
  }

  predicate NoRepeats(pages: seq<string>) {
    forall x, y :: 0 <= x < |pages| && y == x + 1 && y < |pages| ==> pages[x] != pages[y]
  }

  datatype Move = Visit(url: string) | Back | Forward

  predicate CanBack(t: Tab) { t.index > 0 }

  predicate CanForward(t: Tab) { 0 <= t.index && t.index + 1 < |t.pages| }

  /** A linear history: a visit drops what lies ahead and appends; visiting the current page again changes nothing. */
  function Linear(t: Tab, m: Move): (n: Tab)
    requires Sound(t)
    ensures Sound(n)
  {
    match m
    case Visit(u) =>
      if u == "" || (t.index >= 0 && t.pages[t.index] == u) then t
      else
        var pages := t.pages[..t.index + 1] + [u];
        Appended(t.pages[..t.index + 1], u);
        Tab(pages, t.index + 1)
    case Back => if CanBack(t) then t.(index := t.index - 1) else t
    case Forward => if CanForward(t) then t.(index := t.index + 1) else t
  }

  /** A visit makes the page the current and last one, behind what was current. */
  lemma {:induction false} VisitMeaning(t: Tab, u: string)
    requires Sound(t)
    ensures var n := Linear(t, Visit(u));
            if u == "" || (t.index >= 0 && t.pages[t.index] == u) then n == t
            else
              && n.index == |n.pages| - 1 == t.index + 1 && n.pages[n.index] == u
              && n.pages[..n.index] == t.pages[..n.index]
  {
    hide NoRepeats;
  }

  /** Back and forward move by one page where there is one, and undo each other. */
  lemma {:induction false} BackForward(t: Tab)
    requires Sound(t)
    ensures Linear(t, Back) == if t.index >= 1 then Tab(t.pages, t.index - 1) else t
    ensures Linear(t, Forward) == if 0 <= t.index < |t.pages| - 1 then Tab(t.pages, t.index + 1) else t
    ensures t.index >= 1 ==> Linear(Linear(t, Back), Forward) == t
    ensures 0 <= t.index < |t.pages| - 1 ==> Linear(Linear(t, Forward), Back) == t
  {
    hide NoRepeats;
  }

  lemma {:induction false} Appended(pages: seq<string>, u: string)
    requires NoRepeats(pages) && (pages != [] ==> pages[|pages| - 1] != u)
    ensures NoRepeats(pages + [u])
  {
  }

  /** The same in twelve slots: the oldest page falls out when a thirteenth comes in. */
  function Bounded(t: Tab, m: Move): (n: Tab)
    requires Sound(t) && |t.pages| <= SLOTS
    ensures Sound(n) && |n.pages| <= SLOTS
  {
    var n := Linear(t, m);
    if |n.pages| > SLOTS then
      assert |n.pages| == SLOTS + 1 && n.index == SLOTS;
      assert n.pages[SLOTS] != "";
      Tab(n.pages[1..], n.index - 1)
    else n
  }

  // Navigation

  /** One attempt to load a page; the attempts of a navigation are its redirect chain. */
  datatype Load = Load(url: string, ok: bool)

  function NavOk(chain: seq<Load>, depth: nat): bool
    decreases |chain|
  {
    chain != [] && chain[0].ok && (depth < MAX_REDIRECTS && |chain| > 1 ==> NavOk(chain[1..], depth + 1))
  }

  /** The visits a navigation records, whether or not it succeeds in the end. */
  function Recorded(chain: seq<Load>, depth: nat): (r: seq<Move>)
    ensures depth <= MAX_REDIRECTS ==> |r| <= MAX_REDIRECTS - depth + 1
    ensures forall i :: 0 <= i < |r| ==> r[i].Visit?
    decreases |chain|
  {
    if chain == [] || !chain[0].ok then []
    else [Visit(chain[0].url)] + if depth < MAX_REDIRECTS && |chain| > 1 then Recorded(chain[1..], depth + 1) else []
  }

  /** A navigation records the pages of its redirect chain up to the first that does not load, three at most, and
      succeeds exactly when all of these load. */
  lemma {:induction false} RecordedMeaning(chain: seq<Load>, depth: nat) returns (m: nat)
    requires depth <= 2
    ensures m <= |chain| && m <= 3 - depth && (forall i :: 0 <= i < m ==> chain[i].ok)
    ensures m == 3 - depth || m == |chain| || !chain[m].ok
    ensures Recorded(chain, depth) == seq(m, i requires 0 <= i < m => Visit(chain[i].url))
    ensures NavOk(chain, depth) <==> chain != [] && (m == 3 - depth || m == |chain|)
    decreases |chain|
  {
    if chain == [] || !chain[0].ok {
      m := 0;
    } else if depth < 2 && |chain| > 1 {
      var n := RecordedMeaning(chain[1..], depth + 1);
      m := n + 1;
    } else {
      m := 1;
    }
  }

  /** What a user does: open a page, show a local document, go back or forward. */
  datatype Event = Go(chain: seq<Load>) | Local(url: string) | GoBack(chain: seq<Load>) | GoForward(chain: seq<Load>)

  /** The history operations an event amounts to. Moving back or forward loads the page first. */
  function Moves(t: Tab, e: Event): seq<Move> {
    match e
    case Go(chain) => Recorded(chain, 0)
    case Local(url) => [Visit(url)]
    case GoBack(chain) => if CanBack(t) && NavOk(chain, 0) then [Back] else []
    case GoForward(chain) => if CanForward(t) && NavOk(chain, 0) then [Forward] else []
  }

  function BoundedAll(t: Tab, moves: seq<Move>): (n: Tab)
    requires Sound(t) && |t.pages| <= SLOTS
    ensures Sound(n) && |n.pages| <= SLOTS
    decreases |moves|
  {
    if moves == [] then t else Bounded(BoundedAll(t, moves[..|moves| - 1]), moves[|moves| - 1])
  }

  function LinearAll(t: Tab, moves: seq<Move>): (n: Tab)
    requires Sound(t)
    ensures Sound(n)
    decreases |moves|
  {
    if moves == [] then t else Linear(LinearAll(t, moves[..|moves| - 1]), moves[|moves| - 1])
  }

  /** The history operations of a whole run from the empty history. */
  function Performed(events: seq<Event>): seq<Move>
    decreases |events|
  {
    if events == [] then []
    else
      var before := Performed(events[..|events| - 1]);
      before + Moves(BoundedAll(EMPTY, before), events[|events| - 1])
  }

  // Refinement

  /** The largest index the linear history has had. */
  function Deepest(moves: seq<Move>): int
    decreases |moves|
  {
    if moves == [] then -1
    else
      var i, d := LinearAll(EMPTY, moves).index, Deepest(moves[..|moves| - 1]);
      if i > d then i else d
  }

  function Dropped(deepest: int): (k: nat)
    ensures deepest < 12 ==> k == 0
    ensures deepest >= 12 ==> k == deepest - 11
  {
    if deepest < SLOTS then 0 else deepest - SLOTS + 1
  }

  /** `b` shows the linear history `l` without its first k pages. */
  predicate Shows(b: Tab, l: Tab, k: nat) {
    Sound(b) && Sound(l) && k <= |l.pages| && b.pages == l.pages[k..] && b.index == l.index - k && |b.pages| <= SLOTS
  }

  lemma {:induction false} MoveShows(b: Tab, l: Tab, k: nat, m: Move)
    requires Shows(b, l, k) && (m.Back? ==> CanBack(b)) && (b.index == -1 ==> k == 0)
    ensures var n := Linear(l, m); Shows(Bounded(b, m), n, if n.index >= k + SLOTS then n.index - SLOTS + 1 else k)
  {
    hide Sound;
    SoundIndex(b);
    SoundIndex(l);
    if m.Visit? && m.url != "" && !(b.index >= 0 && b.pages[b.index] == m.url) {
      VisitShows(b, l, k, m.url);
    }
  }

  lemma {:induction false} LinearVisit(t: Tab, u: string)
    requires Sound(t) && u != "" && !(t.index >= 0 && t.pages[t.index] == u)
    ensures Linear(t, Visit(u)) == Tab(t.pages[..t.index + 1] + [u], t.index + 1)
  {
  }

  lemma {:induction false} VisitShows(b: Tab, l: Tab, k: nat, u: string)
    requires Shows(b, l, k) && (b.index == -1 ==> k == 0) && u != "" && !(b.index >= 0 && b.pages[b.index] == u)
    ensures var n := Linear(l, Visit(u));
            Shows(Bounded(b, Visit(u)), n, if n.index >= k + SLOTS then n.index - SLOTS + 1 else k)
  {
    hide Sound, Linear, Bounded;
    SoundIndex(b);
    SoundIndex(l);
    assert b.index >= 0 ==> b.pages[b.index] == l.pages[l.index];
    LinearVisit(l, u);
    VisitCases(b, u);
    var n := l.pages[..l.index + 1] + [u];
    assert l.pages[..l.index + 1][k..] == b.pages[..b.index + 1];
    assert n[k..] == b.pages[..b.index + 1] + [u];
    assert k + 1 <= |n| ==> n[k + 1..] == n[k..][1..];
    if b.index + 1 == SLOTS { assert (b.pages[..b.index + 1] + [u])[1..] == b.pages[1..b.index + 1] + [u]; }
  }

  /** The moves are ones the bounded history permits. */
  predicate Permitted(moves: seq<Move>)
    decreases |moves|
  {
    moves == [] ||
    (var rest := moves[..|moves| - 1];
     Permitted(rest) && (moves[|moves| - 1].Back? ==> CanBack(BoundedAll(EMPTY, rest))))
  }

  lemma {:induction false} PermittedShows(moves: seq<Move>)
    requires Permitted(moves)
    ensures Shows(BoundedAll(EMPTY, moves), LinearAll(EMPTY, moves), Dropped(Deepest(moves)))
    ensures LinearAll(EMPTY, moves).index <= Deepest(moves)
    decreases |moves|
  {
    hide Linear, Bounded;
    if moves == [] {
      assert EMPTY.pages[0..] == EMPTY.pages;
    } else {
      var rest, m := moves[..|moves| - 1], moves[|moves| - 1];
      PermittedShows(rest);
      var b, l, k := BoundedAll(EMPTY, rest), LinearAll(EMPTY, rest), Dropped(Deepest(rest));
      NeverEmptied(rest);
      MoveShows(b, l, k, m);
    }
  }

  /** The bounded history is empty only while nothing was visited. */
  lemma {:induction false} NeverEmptied(moves: seq<Move>)
    requires Permitted(moves) && Shows(BoundedAll(EMPTY, moves), LinearAll(EMPTY, moves), Dropped(Deepest(moves)))
    ensures BoundedAll(EMPTY, moves).index == -1 ==> Deepest(moves) == -1
    decreases |moves|
  {
    if moves != [] {
      var rest := moves[..|moves| - 1];
      PermittedShows(rest);
      NeverEmptied(rest);
    }
  }

  lemma {:induction false} PerformedPermitted(events: seq<Event>)
    ensures Permitted(Performed(events))
    decreases |events|
  {
    hide BoundedAll;
    if events != [] {
      var before := Performed(events[..|events| - 1]);
      PerformedPermitted(events[..|events| - 1]);
      var more := Moves(BoundedAll(EMPTY, before), events[|events| - 1]);
      if |more| == 1 {
        assert (before + more)[..|before|] == before;
      } else {
        VisitsPermitted(before, more);
      }
    }
  }

  lemma {:induction false} VisitsPermitted(before: seq<Move>, more: seq<Move>)
    requires Permitted(before) && forall i :: 0 <= i < |more| ==> more[i].Visit?
    ensures Permitted(before + more)
    decreases |more|
  {
    if more == [] {
      assert before + more == before;
    } else {
      VisitsPermitted(before, more[..|more| - 1]);
      assert (before + more)[..|before + more| - 1] == before + more[..|more| - 1];
    }
  }

  /** Over every run, the twelve slots hold a contiguous end of the linear history that performed the same operations,
      with the same current page; what is missing are the pages more than eleven behind the deepest point reached.
      The index is -1 exactly when the history is empty, and no two neighbours are equal. */
  lemma {:induction false} RunShowsSuffix(events: seq<Event>)
    ensures var moves := Performed(events);
            var b, l := BoundedAll(EMPTY, moves), LinearAll(EMPTY, moves);
            && Shows(b, l, Dropped(Deepest(moves)))
            && -1 <= b.index < |b.pages| <= SLOTS
            && (b.index == -1 <==> b.pages == [])
            && (b.index >= 0 ==> b.pages[b.index] == l.pages[l.index])
            && NoRepeats(b.pages) && NoRepeats(l.pages)
  {
    hide BoundedAll, LinearAll, Performed;
    PerformedPermitted(events);
    PermittedShows(Performed(events));
  }

  // The kernel's arrays

  lemma {:induction false} SoundIndex(t: Tab)
    requires Sound(t)
    ensures -1 <= t.index < |t.pages|
  {
  }

  lemma {:induction false} VisitCases(t: Tab, u: string)
    requires Sound(t) && |t.pages| <= SLOTS
    ensures var n := Bounded(t, Visit(u));
            && Sound(n)
            && (u == "" || (t.index >= 0 && t.pages[t.index] == u) ==> n == t)
            && (u != "" && !(t.index >= 0 && t.pages[t.index] == u) ==>
                  n == if t.index + 1 < SLOTS then Tab(t.pages[..t.index + 1] + [u], t.index + 1)
                       else Tab(t.pages[1..t.index + 1] + [u], SLOTS - 1))
  {
    if t.index + 1 == SLOTS { assert (t.pages[..t.index + 1] + [u])[1..] == t.pages[1..t.index + 1] + [u]; }
  }

  /** The copy loop of `hist` over full slots. */
  method ShiftDown(slots: array<string>)
    requires slots.Length == SLOTS
    modifies slots
    ensures slots[..SLOTS - 1] == old(slots[1..SLOTS])
  {
    for i := 1 to SLOTS
      invariant slots[..i - 1] == old(slots[1..i]) && slots[i..] == old(slots[i..])
    {
      slots[i - 1] := slots[i];
    }
  }

  class Browser {
    const slots: array<string>
    var count: nat
    var index: int

    ghost predicate Valid()
      reads this, slots
    {
      slots.Length == SLOTS && count <= SLOTS && Sound(Shown())
    }

    ghost function Shown(): Tab
      reads this, slots
      requires count <= slots.Length
    {
      Tab(slots[..count], index)
    }

    /** `vela_init_ex`. */
    constructor ()
      ensures Valid() && fresh(slots) && Shown() == EMPTY
    {
      slots := new string[SLOTS](_ => "");
      count, index := 0, -1;
    }

    /** `hist`. */
    method Hist(u: string)
      requires Valid()
      modifies this`count, this`index, slots
      ensures Valid() && Shown() == Bounded(old(Shown()), Visit(u))
    {
      hide Bounded, Sound;
      ghost var t := Shown();
      VisitCases(t, u);
      SoundIndex(t);
      if u == "" { return; }
      if index >= 0 && slots[index] == u { return; }
      if index + 1 < count { count := index + 1; }
      assert slots[..count] == t.pages[..t.index + 1];
      if count < SLOTS {
        index := count;
        count := count + 1;
        slots[index] := u;
        assert slots[..count] == t.pages[..t.index + 1] + [u];
      } else {
        ShiftDown(slots);
        index := SLOTS - 1;
        slots[index] := u;
        assert slots[..SLOTS] == slots[..SLOTS - 1] + [u];
      }
    }

    /** `navdepth`, with `push`: every page that loads is recorded, redirects are followed twice. */
    method NavPush(chain: seq<Load>, depth: nat) returns (ok: bool)
      requires Valid() && depth <= MAX_REDIRECTS
      modifies this`count, this`index, slots
      ensures Valid() && ok == NavOk(chain, depth)
      ensures Shown() == BoundedAll(old(Shown()), Recorded(chain, depth))
      decreases |chain|
    {
      hide Bounded, BoundedAll;
      ghost var t := Shown();
      NoMoves(t);
      if chain == [] || !chain[0].ok { return false; }
      Hist(chain[0].url);
      OneMove(t, Visit(chain[0].url));
      if depth < MAX_REDIRECTS && |chain| > 1 {
        FirstThen(t, Visit(chain[0].url), Recorded(chain[1..], depth + 1));
        ok := NavPush(chain[1..], depth + 1);
        return;
      }
      assert [Visit(chain[0].url)] + [] == [Visit(chain[0].url)];
      return true;
    }

    /** `vela_back`: the page is loaded, without recording it, before the index moves. */
    method GoBackwards(chain: seq<Load>) returns (ok: bool)
      requires Valid()
      modifies this`index
      ensures Valid() && ok == (CanBack(old(Shown())) && NavOk(chain, 0))
      ensures Shown() == if ok then Bounded(old(Shown()), Back) else old(Shown())
    {
      if index <= 0 { return false; }
      if !NavOk(chain, 0) { return false; }
      index := index - 1;
      return true;
    }

    /** `vela_forward`. */
    method GoForwards(chain: seq<Load>) returns (ok: bool)
      requires Valid()
      modifies this`index
      ensures Valid() && ok == (CanForward(old(Shown())) && NavOk(chain, 0))
      ensures Shown() == if ok then Bounded(old(Shown()), Forward) else old(Shown())
    {
      if index < 0 || index + 1 >= count { return false; }
      if !NavOk(chain, 0) { return false; }
      index := index + 1;
      return true;
    }

    /** One event of a run. */
    method Handle(e: Event)
      requires Valid()
      modifies this`count, this`index, slots
      ensures Valid() && Shown() == BoundedAll(old(Shown()), Moves(old(Shown()), e))
    {
      hide Bounded, BoundedAll;
      ghost var t := Shown();
      NoMoves(t);
      OneMove(t, Back);
      OneMove(t, Forward);
      match e
      case Go(chain) => var _ := NavPush(chain, 0);
      case Local(url) =>
        OneMove(t, Visit(url));
        Hist(url);
      case GoBack(chain) => var _ := GoBackwards(chain);
      case GoForward(chain) => var _ := GoForwards(chain);
    }
  }

  lemma {:induction false} NoMoves(t: Tab)
    requires Sound(t) && |t.pages| <= SLOTS
    ensures BoundedAll(t, []) == t
  {
  }

  lemma {:induction false} OneMove(t: Tab, m: Move)
    requires Sound(t) && |t.pages| <= SLOTS
    ensures BoundedAll(t, [m]) == Bounded(t, m)
  {
    hide Bounded;
    assert [m][..0] == [];
  }

  lemma {:induction false} FirstThen(t: Tab, m: Move, rest: seq<Move>)
    requires Sound(t) && |t.pages| <= SLOTS
    ensures BoundedAll(t, [m] + rest) == BoundedAll(Bounded(t, m), rest)
    decreases |rest|
  {
    hide Bounded;
    if rest == [] {
      assert [m] + rest == [m];
      OneMove(t, m);
    } else {
      assert ([m] + rest)[..|rest|] == [m] + rest[..|rest| - 1];
      FirstThen(t, m, rest[..|rest| - 1]);
    }
  }

  lemma {:induction false} AllThen(t: Tab, a: seq<Move>, b: seq<Move>)
    requires Sound(t) && |t.pages| <= SLOTS
    ensures BoundedAll(t, a + b) == BoundedAll(BoundedAll(t, a), b)
    decreases |b|
  {
    hide Bounded;
    if b == [] {
      assert a + b == a;
    } else {
      assert (a + b)[..|a + b| - 1] == a + b[..|b| - 1];
      AllThen(t, a, b[..|b| - 1]);
    }
  }

  /** A whole session: the kernel's slots are the bounded history of the operations performed. */
  method Session(events: seq<Event>) returns (browser: Browser)
    ensures fresh(browser) && browser.Valid() && browser.Shown() == BoundedAll(EMPTY, Performed(events))
  {
    hide Moves, BoundedAll, Sound;
    browser := new Browser();
    NoMoves(EMPTY);
    for i := 0 to |events|
      invariant browser.Valid() && browser.Shown() == BoundedAll(EMPTY, Performed(events[..i]))
      invariant fresh(browser) && fresh(browser.slots)
    {
      assert events[..i + 1][..i] == events[..i];
      AllThen(EMPTY, Performed(events[..i]), Moves(BoundedAll(EMPTY, Performed(events[..i])), events[i]));
      browser.Handle(events[i]);
    }
    assert events[..|events|] == events;
  }
}
