/** The legacy virtio receive queue of kernel/netdev_virtio.c: driver and device share two rings through free-running
    16-bit indices (section 2.6 of Virtio 1.1). */
module VirtioRing {
  import opened Bytes
  import Arith

  const QMAX: nat := 256
  const RINGSZ: nat := 16384
  const BUF: nat := 2048

  // Memory layout

  function AvailOffset(n: nat): nat { 16 * n }

  function UsedOffset(n: nat): nat { (16 * n + 4 + 2 * n + 2 + 4095) / 4096 * 4096 }

  /** Descriptor table, available ring and used ring (with their trailing event fields) do not overlap, are aligned
      as the device expects, and fit the reserved memory, for every size the driver accepts. */
  lemma {:induction false} LayoutFits(n: nat)
    requires 0 < n <= QMAX
    ensures 16 * n <= AvailOffset(n) < 16 * n + 2
    ensures AvailOffset(n) + 6 + 2 * n <= UsedOffset(n) < AvailOffset(n) + 6 + 2 * n + 4096
    ensures UsedOffset(n) + 6 + 8 * n <= RINGSZ
    ensures AvailOffset(n) % 2 == 0 && UsedOffset(n) % 4096 == 0
  {
  }

  // The queue as a state machine

  ghost predicate Buffers(mem: seq<seq<byte>>, n: nat) {
    |mem| == n && forall i :: 0 <= i < n ==> |mem[i]| == BUF + 10
  }

  datatype Used = Used(id: nat, len: nat)

  /** Where the driver is inside one turn of the poll loop: Ready has read the used index and found it ahead, Holding
      has read the used entry, Served has run the callback. */
  datatype Driver = Idle | Ready | Holding(id: nat, len: nat) | Served(id: nat) | Posted(id: nat)

  /** `mem` are the receive buffers. `posted`, `completed` and `taken` are the histories of ids made available, of
      completions, and of completions the driver has read; `fetched` counts the ids the device has picked up; `wrote`
      is what the device has written for each completion, and `delivered` what each callback was given. */
  datatype Queue = Queue(n: nat, avail: seq<nat>, availIdx: nat, used: seq<Used>, usedIdx: nat, seen: nat,
                         driver: Driver, lastAvail: nat, held: set<nat>, filling: Option<Used>,
                         posted: seq<nat>, fetched: nat, completed: seq<Used>, taken: seq<Used>,
                         mem: seq<seq<byte>>, wrote: seq<seq<byte>>, delivered: seq<seq<byte>>)
  {
    ghost predicate Shaped() {
      && 0 < n <= QMAX && |avail| == n && |used| == n && availIdx < U16 && usedIdx < U16 && seen < U16
      && lastAvail < U16 && Buffers(mem, n)
    }
  }

  /** Driver steps Look, Take, Post and Publish, one for each access to the shared rings, and Call, the callback; device
      steps Fetch, Fill and Complete. Fill writes `data` to the front of the buffer and the used entry. */
  datatype Step = Look | Take | Call | Post | Publish | Fetch | Fill(u: Used, data: seq<byte>) | Complete

  predicate Enabled(q: Queue, s: Step) {
    match s
    case Look => q.driver.Idle? && q.seen != q.usedIdx
    case Take => q.driver.Ready?
    case Call => q.driver.Holding?
    case Post => q.driver.Served?
    case Publish => q.driver.Posted?
    case Fetch => q.lastAvail != q.availIdx
    case Fill(u, data) =>
      // the device may claim any length, but one that fits the buffer is the length it has written
      && q.filling == None && u.id in q.held
      && |data| <= BUF + 10 && (u.len <= BUF + 10 ==> u.len == |data|)
    case Complete => q.filling.Some?
  }

  /** What the callback is given, if the completion passes the driver's checks: the buffer behind the ten-byte
      header. */
  function Callback(mem: seq<seq<byte>>, id: nat, len: nat): (calls: seq<seq<byte>>)
    requires Buffers(mem, |mem|)
    ensures |calls| <= 1
  {
    if id < |mem| && 24 <= len <= BUF + 10 then [mem[id][10..len]] else []
  }

  /** `data` at the front of one buffer. */
  function Write(mem: seq<seq<byte>>, id: nat, data: seq<byte>): (r: seq<seq<byte>>)
    requires Buffers(mem, |mem|) && |data| <= BUF + 10
    ensures Buffers(r, |mem|)
    ensures forall i :: 0 <= i < |mem| && i != id ==> r[i] == mem[i]
    ensures id < |mem| ==> r[id][..|data|] == data
  {
    if id < |mem| then mem[id := Splice(mem[id], 0, data)] else mem
  }

  function Next(q: Queue, s: Step): (r: Queue)
    requires q.Shaped() && Enabled(q, s)
    ensures r.Shaped() && r.n == q.n
  {
    match s
    case Look => q.(driver := Ready)
    case Take =>
      var e := q.used[q.seen % q.n];
      q.(driver := Holding(e.id % U16, e.len), taken := q.taken + [e])
    case Call => q.(driver := Served(q.driver.id),
                    delivered := q.delivered + Callback(q.mem, q.driver.id, q.driver.len))
    case Post => q.(avail := q.avail[q.availIdx % q.n := q.driver.id], driver := Posted(q.driver.id))
    case Publish => q.(availIdx := (q.availIdx + 1) % U16, seen := (q.seen + 1) % U16, driver := Idle,
                       posted := q.posted + [q.driver.id])
    case Fetch => q.(lastAvail := (q.lastAvail + 1) % U16, held := q.held + {q.avail[q.lastAvail % q.n]},
                     fetched := q.fetched + 1)
    case Fill(u, data) => q.(used := q.used[q.usedIdx % q.n := u], filling := Some(u), mem := Write(q.mem, u.id, data),
                             wrote := q.wrote + [data])
    case Complete => q.(usedIdx := (q.usedIdx + 1) % U16, filling := None, held := q.held - {q.filling.value.id},
                        completed := q.completed + [q.filling.value])
  }

  /** The queue as `init` leaves it: every buffer is available. */
  function Fresh(n: nat): (q: Queue)
    requires 0 < n <= QMAX
    ensures q.Shaped() && q.n == n
  {
    Queue(n, Range(n), n, seq(n, _ => Used(0, 0)), 0, 0, Idle, 0, {}, None, Range(n), 0, [], [],
          seq(n, _ => Zeros(BUF + 10)), [], [])
  }

  function Range(n: nat): (r: seq<nat>)
    ensures |r| == n
  {
    seq(n, i => i)
  }

  // The invariant

  function Ids(s: seq<Used>): (r: seq<nat>)
    ensures |r| == |s| && forall i :: 0 <= i < |s| ==> r[i] == s[i].id
  {
    seq(|s|, i requires 0 <= i < |s| => s[i].id)
  }

  function DriverIds(d: Driver): seq<nat> {
    if d.Idle? || d.Ready? then [] else [d.id]
  }

  /** How many completions the driver is through with. */
  function Seen(q: Queue): int {
    |q.taken| - |DriverIds(q.driver)|
  }

  /** Every buffer with the party that may touch it. */
  function Owners(q: Queue): multiset<nat>
    requires q.fetched <= |q.posted| && |q.taken| <= |q.completed|
  {
    Together(multiset(q.posted[q.fetched..]), multiset(q.held), multiset(Ids(q.completed[|q.taken|..])),
             multiset(DriverIds(q.driver)))
  }

  function Together(offered: multiset<nat>, device: multiset<nat>, done: multiset<nat>,
                    driver: multiset<nat>): multiset<nat> {
    offered + device + done + driver
  }

  /** One buffer more is one buffer more, whoever has it. */
  lemma {:induction false} WhoeverHasIt(a: multiset<nat>, b: multiset<nat>, c: multiset<nat>, d: multiset<nat>, id: nat)
    ensures Together(a + multiset{id}, b, c, d) == Together(a, b + multiset{id}, c, d)
         == Together(a, b, c + multiset{id}, d) == Together(a, b, c, d + multiset{id})
  {
  }

  /** The 16-bit indices are the low halves of unbounded counters in the order seen <= used <= fetched <= available,
      and available runs exactly one queue ahead of seen. */
  ghost predicate Counters(q: Queue)
    ensures Counters(q) ==> |q.taken| <= |q.completed| <= q.fetched <= |q.posted|
  {
    && 0 <= Seen(q) && |q.taken| <= |q.completed| <= q.fetched <= |q.posted|
    && |q.posted| == Seen(q) + q.n && (q.driver.Ready? ==> Seen(q) < |q.completed|)
    && q.availIdx == |q.posted| % U16 && q.lastAvail == q.fetched % U16
    && q.usedIdx == |q.completed| % U16 && q.seen == Seen(q) % U16
  }

  /** Slots between the consumer's and the producer's counter still hold what the producer wrote. */
  ghost predicate Slots(q: Queue)
    requires q.Shaped() && Counters(q)
  {
    && (forall i :: q.fetched <= i < |q.posted| ==> q.avail[i % q.n] == q.posted[i])
    && (forall i :: Seen(q) <= i < |q.completed| ==> q.used[i % q.n] == q.completed[i])
    && (q.driver.Posted? ==> q.avail[|q.posted| % q.n] == q.driver.id)
    && (q.filling.Some? ==> q.used[|q.completed| % q.n] == q.filling.value && q.filling.value.id in q.held)
    && (q.driver.Holding? || q.driver.Served? || q.driver.Posted? ==> q.taken[|q.taken| - 1].id == q.driver.id)
  }

  ghost predicate Inv(q: Queue) {
    && q.Shaped() && U16 % q.n == 0
    && Counters(q) && Slots(q)
    && q.taken == q.completed[..|q.taken|]
    && Owners(q) == multiset(Range(q.n))
    && |q.held| == q.fetched - |q.completed|
  }

  // Slot arithmetic

  /** Reducing a counter to sixteen bits first does not change its slot. */
  lemma {:induction false} LowHalf(k: nat, n: nat)
    requires 0 < n && U16 % n == 0
    ensures (k % U16) % n == k % n
  {
    var m := U16 / n;
    assert U16 == n * m;
    assert k == k % U16 + U16 * (k / U16);
    assert U16 * (k / U16) == n * (m * (k / U16)) by { Arith.Associate(n, m, k / U16); }
    Arith.ModAddMultiple(k % U16, n, m * (k / U16));
  }

  /** The driver does not check that the queue size divides 2^16; the 16-bit index names the counter's slot for every
      counter exactly when it does. */
  lemma {:induction false} SlotsSurviveWrapIff(n: nat)
    requires 0 < n <= QMAX
    ensures (forall k: nat :: (k % U16) % n == k % n) <==> U16 % n == 0
  {
    if U16 % n == 0 {
      forall k: nat ensures (k % U16) % n == k % n { LowHalf(k, n); }
    } else {
      assert (U16 % U16) % n == 0;
    }
  }

  // Every step keeps the invariant

  lemma {:induction false} FreshInv(n: nat)
    requires 0 < n <= QMAX && U16 % n == 0
    ensures Inv(Fresh(n))
  {
    var q := Fresh(n);
    assert Counters(q) by { hide Range; }
    assert Slots(q) by {
      forall i | 0 <= i < n ensures q.avail[i % n] == q.posted[i] { Arith.DivModUnique(i, n, 0, i); }
    }
    assert Owners(q) == multiset(Range(n)) by {
      assert q.posted[0..] == Range(n);
      assert Ids(q.completed[0..]) == [];
      hide Range;
    }
    hide Counters, Slots, Owners, Range;
  }

  lemma {:induction false} SetMultiset(s: set<nat>, x: nat)
    ensures x !in s ==> multiset(s + {x}) == multiset(s) + multiset{x}
    ensures x in s ==> multiset(s - {x}) + multiset{x} == multiset(s)
  {
  }

  lemma {:induction false} OwnersBound(q: Queue, x: nat)
    requires Inv(q)
    ensures Owners(q)[x] <= 1 && (Owners(q)[x] == 1 <==> x < q.n)
  {
    RangeCount(q.n, x);
  }

  lemma {:induction false} RangeCount(n: nat, x: nat)
    ensures multiset(Range(n))[x] == if x < n then 1 else 0
  {
    if n > 0 {
      RangeCount(n - 1, x);
      assert Range(n) == Range(n - 1) + [n - 1];
    }
  }

  lemma {:induction false} NotFull(q: Queue)
    requires q.Shaped() && Counters(q)
    ensures q.seen != q.usedIdx <==> Seen(q) < |q.completed|
    ensures q.lastAvail != q.availIdx <==> q.fetched < |q.posted|
  {
    Wraps(Seen(q), |q.completed|);
    Wraps(q.fetched, |q.posted|);
  }

  /** Sixteen bits tell two counters apart that are less than 2^16 apart. */
  lemma {:induction false} Wraps(a: nat, b: nat)
    requires a <= b < a + U16
    ensures a % U16 == b % U16 <==> a == b
  {
    if a < b { Arith.ModDistinct(a, b, U16); }
  }

  lemma {:induction false} WrapMore(a: nat, n: nat)
    ensures (a % U16 + n) % U16 == (a + n) % U16
  {
  }

  lemma {:induction false} WrapSucc(a: nat)
    ensures (a % U16 + 1) % U16 == (a + 1) % U16
  {
  }

  lemma {:induction false} OneMore(rest: seq<nat>, id: nat)
    ensures multiset([id] + rest) == multiset{id} + multiset(rest) == multiset(rest + [id])
    ensures multiset([id]) == multiset{id}
  {
  }

  lemma {:induction false} IdsOfConcat(a: seq<Used>, b: seq<Used>)
    ensures Ids(a + b) == Ids(a) + Ids(b)
  {
  }

  lemma {:induction false} TakenId(q: Queue)
    requires Inv(q) && |q.taken| < |q.completed|
    ensures q.completed[|q.taken|].id < q.n
  {
    var id := q.completed[|q.taken|].id;
    assert q.completed[|q.taken|..][0] == q.completed[|q.taken|];
    assert Ids(q.completed[|q.taken|..])[0] == id;
    assert multiset(Ids(q.completed[|q.taken|..]))[id] >= 1;
    OwnersBound(q, id);
  }

  lemma {:induction false} TakeOwners(q: Queue, e: Used)
    requires q.fetched <= |q.posted| && |q.taken| < |q.completed| && q.driver == Ready && e == q.completed[|q.taken|]
    ensures Owners(q.(driver := Holding(e.id, e.len), taken := q.taken + [e])) == Owners(q)
  {
    hide Together;
    var rest := q.completed[|q.taken| + 1..];
    assert q.completed[|q.taken|..] == [e] + rest;
    IdsOfConcat([e], rest);
    assert Ids([e]) == [e.id];
    hide Ids;
    OneMore(Ids(rest), e.id);
    WhoeverHasIt(multiset(q.posted[q.fetched..]), multiset(q.held), multiset(Ids(rest)), multiset{}, e.id);
    assert multiset{} + multiset{e.id} == multiset{e.id} && multiset(DriverIds(Ready)) == multiset{};
  }

  lemma {:induction false} LookKeeps(q: Queue)
    requires Inv(q) && Enabled(q, Look)
    ensures Inv(Next(q, Look))
  {
    hide Range, Together, Ids;
    NotFull(q) by { hide Slots; }
    assert Owners(Next(q, Look)) == Owners(q);
  }

  lemma {:induction false} TakesOldest(q: Queue)
    requires Inv(q) && Enabled(q, Take)
    ensures |q.taken| < |q.completed| && q.used[q.seen % q.n] == q.completed[|q.taken|]
  {
    hide Owners, Range;
    LowHalf(Seen(q), q.n);
  }

  lemma {:induction false} TakeSlots(q: Queue)
    requires Inv(q) && Enabled(q, Take) && |q.taken| < |q.completed|
    ensures var e := q.completed[|q.taken|];
            var r := q.(driver := Holding(e.id, e.len), taken := q.taken + [e]);
            Counters(r) && Slots(r) && q.fetched <= |q.posted|
  {
    hide Owners, Range;
  }

  lemma {:induction false} TakeKeeps(q: Queue)
    requires Inv(q) && Enabled(q, Take)
    ensures Inv(Next(q, Take))
  {
    hide Owners, Range, Counters, Slots;
    TakesOldest(q);
    TakenId(q);
    TakeSlots(q);
    TakeOwners(q, q.completed[|q.taken|]);
    var e := q.completed[|q.taken|];
    var r := q.(driver := Holding(e.id, e.len), taken := q.taken + [e]);
    assert Next(q, Take) == r;
    assert r.taken == r.completed[..|r.taken|];
  }

  lemma {:induction false} CallKeeps(q: Queue)
    requires Inv(q) && Enabled(q, Call)
    ensures Inv(Next(q, Call))
  {
    hide Range, Together, Ids, Callback;
    assert Owners(Next(q, Call)) == Owners(q);
  }

  lemma {:induction false} PostSlots(q: Queue)
    requires Inv(q) && Enabled(q, Post)
    ensures Counters(Next(q, Post)) && Slots(Next(q, Post))
    ensures forall i :: q.fetched <= i < |q.posted| ==> Next(q, Post).avail[i % q.n] == q.avail[i % q.n]
  {
    hide Owners, Range;
    var r := Next(q, Post);
    assert q.availIdx % q.n == |q.posted| % q.n by { hide Slots; LowHalf(|q.posted|, q.n); }
    forall i | q.fetched <= i < |q.posted| ensures r.avail[i % q.n] == q.avail[i % q.n] {
      Arith.ModDistinct(i, |q.posted|, q.n);
    }
  }

  lemma {:induction false} PostKeeps(q: Queue)
    requires Inv(q) && Enabled(q, Post)
    ensures Inv(Next(q, Post))
  {
    hide Range, Counters, Slots, Together, Ids;
    PostSlots(q);
    assert Owners(Next(q, Post)) == Owners(q);
  }

  lemma {:induction false} PublishOwners(q: Queue)
    requires q.fetched <= |q.posted| && |q.taken| <= |q.completed| && q.driver.Posted?
    ensures Owners(q.(driver := Idle, posted := q.posted + [q.driver.id])) == Owners(q)
  {
    hide Together, Ids;
    var id := q.driver.id;
    assert (q.posted + [id])[q.fetched..] == q.posted[q.fetched..] + [id];
    OneMore(q.posted[q.fetched..], id);
    WhoeverHasIt(multiset(q.posted[q.fetched..]), multiset(q.held), multiset(Ids(q.completed[|q.taken|..])),
      multiset{}, id);
    assert multiset{} + multiset{id} == multiset{id} && multiset(DriverIds(Idle)) == multiset{};
  }

  lemma {:induction false} PublishSlots(q: Queue)
    requires Inv(q) && Enabled(q, Publish)
    ensures Counters(Next(q, Publish)) && Slots(Next(q, Publish))
    ensures q.fetched <= |q.posted| && |q.taken| <= |q.completed|
  {
    hide Owners, Range;
    assert Counters(Next(q, Publish)) by {
      hide Slots;
      WrapSucc(|q.posted|);
      WrapSucc(Seen(q));
    }
  }

  lemma {:induction false} PublishKeeps(q: Queue)
    requires Inv(q) && Enabled(q, Publish)
    ensures Inv(Next(q, Publish))
  {
    hide Range, Counters, Slots, Together, Ids;
    PublishSlots(q);
    PublishOwners(q);
    assert Owners(Next(q, Publish)) == Owners(q.(driver := Idle, posted := q.posted + [q.driver.id]));
  }

  lemma {:induction false} FetchOwners(q: Queue, id: nat)
    requires q.fetched < |q.posted| && |q.taken| <= |q.completed| && id == q.posted[q.fetched] && Owners(q)[id] <= 1
    ensures id !in q.held
    ensures Owners(q.(held := q.held + {id}, fetched := q.fetched + 1)) == Owners(q)
  {
    hide Together, Ids, DriverIds;
    var rest := q.posted[q.fetched + 1..];
    assert q.posted[q.fetched..] == [id] + rest;
    OneMore(rest, id);
    OfferedNotHeld(q, id);
    SetMultiset(q.held, id);
    WhoeverHasIt(multiset(rest), multiset(q.held), multiset(Ids(q.completed[|q.taken|..])),
                 multiset(DriverIds(q.driver)), id);
  }

  lemma {:induction false} OfferedNotHeld(q: Queue, id: nat)
    requires q.fetched < |q.posted| && |q.taken| <= |q.completed| && id == q.posted[q.fetched] && Owners(q)[id] <= 1
    ensures id !in q.held
  {
    hide Ids, DriverIds;
    assert q.posted[q.fetched..][0] == id;
    assert multiset(q.posted[q.fetched..])[id] >= 1;
    assert Owners(q)[id] >= 1 + multiset(q.held)[id];
  }

  lemma {:induction false} FetchesOldest(q: Queue)
    requires Inv(q) && Enabled(q, Fetch)
    ensures q.fetched < |q.posted| && |q.taken| <= |q.completed| && q.avail[q.lastAvail % q.n] == q.posted[q.fetched]
    ensures Owners(q)[q.posted[q.fetched]] <= 1
  {
    hide Owners, Range;
    NotFull(q) by { hide Slots; }
    OwnersBound(q, q.posted[q.fetched]);
    LowHalf(q.fetched, q.n);
  }

  lemma {:induction false} FetchSlots(q: Queue)
    requires Inv(q) && Enabled(q, Fetch) && q.fetched < |q.posted|
    requires q.avail[q.lastAvail % q.n] == q.posted[q.fetched]
    ensures Counters(Next(q, Fetch)) && Slots(Next(q, Fetch))
  {
    hide Owners, Range;
    WrapSucc(q.fetched);
    assert Counters(Next(q, Fetch)) by { hide Slots; }
  }

  lemma {:induction false} FetchKeeps(q: Queue)
    requires Inv(q) && Enabled(q, Fetch)
    ensures Inv(Next(q, Fetch))
  {
    hide Range, Counters, Slots, Together, Ids, Enabled;
    FetchesOldest(q);
    FetchSlots(q);
    var id := q.posted[q.fetched];
    FetchOwners(q, id);
    assert Owners(Next(q, Fetch)) == Owners(q.(held := q.held + {id}, fetched := q.fetched + 1));
    hide Owners;
  }

  lemma {:induction false} FillSlots(q: Queue, u: Used, data: seq<byte>)
    requires Inv(q) && Enabled(q, Fill(u, data))
    ensures Counters(Next(q, Fill(u, data))) && Slots(Next(q, Fill(u, data)))
    ensures forall i :: Seen(q) <= i < |q.completed| ==> Next(q, Fill(u, data)).used[i % q.n] == q.used[i % q.n]
  {
    hide Owners, Range;
    assert |q.held| > 0;
    var r := Next(q, Fill(u, data));
    assert q.usedIdx % q.n == |q.completed| % q.n by { hide Slots; LowHalf(|q.completed|, q.n); }
    forall i | Seen(q) <= i < |q.completed| ensures r.used[i % q.n] == q.used[i % q.n] {
      Arith.ModDistinct(i, |q.completed|, q.n);
    }
  }

  lemma {:induction false} FillKeeps(q: Queue, u: Used, data: seq<byte>)
    requires Inv(q) && Enabled(q, Fill(u, data))
    ensures Inv(Next(q, Fill(u, data)))
  {
    hide Range, Counters, Slots, Together, Ids;
    FillSlots(q, u, data);
    assert Owners(Next(q, Fill(u, data))) == Owners(q);
  }

  lemma {:induction false} CompleteOwners(q: Queue, u: Used)
    requires q.fetched <= |q.posted| && |q.taken| <= |q.completed| && u.id in q.held
    ensures Owners(q.(held := q.held - {u.id}, completed := q.completed + [u])) == Owners(q)
  {
    hide Together;
    var pending := q.completed[|q.taken|..];
    assert (q.completed + [u])[|q.taken|..] == pending + [u];
    IdsOfConcat(pending, [u]);
    assert Ids([u]) == [u.id];
    OneMore(Ids(pending), u.id);
    SetMultiset(q.held, u.id);
    hide Ids;
    WhoeverHasIt(multiset(q.posted[q.fetched..]), multiset(q.held - {u.id}), multiset(Ids(pending)),
                 multiset(DriverIds(q.driver)), u.id);
  }

  lemma {:induction false} CompleteSlots(q: Queue)
    requires Inv(q) && Enabled(q, Complete)
    ensures Counters(Next(q, Complete)) && Slots(Next(q, Complete))
    ensures q.filling.value.id in q.held && |q.taken| <= |q.completed| && q.fetched <= |q.posted|
  {
    hide Owners, Range;
    WrapSucc(|q.completed|);
    assert |q.held| > 0;
    assert Counters(Next(q, Complete)) by { hide Slots; }
  }

  lemma {:induction false} CompleteKeeps(q: Queue)
    requires Inv(q) && Enabled(q, Complete)
    ensures Inv(Next(q, Complete))
  {
    hide Together, Ids, Range, Counters, Slots;
    CompleteSlots(q);
    var u := q.filling.value;
    CompleteOwners(q, u);
    var r := Next(q, Complete);
    assert Owners(r) == Owners(q.(held := q.held - {u.id}, completed := q.completed + [u]));
    hide Owners;
    assert q.taken == r.completed[..|q.taken|];
  }

  // Every interleaving

  predicate Schedule(q: Queue, steps: seq<Step>)
    requires q.Shaped()
    decreases |steps|
  {
    steps == [] || (Enabled(q, steps[0]) && Schedule(Next(q, steps[0]), steps[1..]))
  }

  function After(q: Queue, steps: seq<Step>): (r: Queue)
    requires q.Shaped() && Schedule(q, steps)
    ensures r.Shaped() && r.n == q.n
    decreases |steps|
  {
    if steps == [] then q else After(Next(q, steps[0]), steps[1..])
  }

  lemma {:induction false} InvAlways(q: Queue, steps: seq<Step>)
    requires Inv(q) && Schedule(q, steps)
    ensures Inv(After(q, steps)) && After(q, steps).n == q.n
    decreases |steps|
  {
    if steps != [] {
      hide Inv, Enabled, Next;
      StepKeeps(q, steps[0]);
      InvAlways(Next(q, steps[0]), steps[1..]);
    }
  }

  lemma {:induction false} StepKeeps(q: Queue, s: Step)
    requires Inv(q) && Enabled(q, s)
    ensures Inv(Next(q, s))
  {
    hide *;
    match s
    case Look => LookKeeps(q);
    case Take => TakeKeeps(q);
    case Call => CallKeeps(q);
    case Post => PostKeeps(q);
    case Publish => PublishKeeps(q);
    case Fetch => FetchKeeps(q);
    case Fill(u, data) => FillKeeps(q, u, data);
    case Complete => CompleteKeeps(q);
  }

  /** Main result, for every interleaving of poll turns and device steps from a fresh queue: each buffer has exactly
      one owner, the available index runs one queue ahead of `seen` (modulo 2^16) whenever the driver is between
      turns or inside one, and the driver has read the completions in order, each once. */
  lemma {:induction false} EveryInterleaving(n: nat, steps: seq<Step>)
    requires 0 < n <= QMAX && U16 % n == 0 && Schedule(Fresh(n), steps)
    ensures var q := After(Fresh(n), steps);
            && Inv(q)
            && (forall id: nat :: id < n ==> Owners(q)[id] == 1)
            && q.availIdx == (q.seen + n) % U16
            && q.taken == q.completed[..|q.taken|]
            && (q.driver.Idle? && q.seen == q.usedIdx ==> q.taken == q.completed)
  {
    hide *;
    FreshInv(n);
    InvAlways(Fresh(n), steps);
    EachOwnedOnce(After(Fresh(n), steps));
    IndicesTrack(After(Fresh(n), steps));
  }

  lemma {:induction false} EachOwnedOnce(q: Queue)
    requires Inv(q)
    ensures forall id: nat :: id < q.n ==> Owners(q)[id] == 1
  {
    forall id: nat | id < q.n ensures Owners(q)[id] == 1 {
      OwnersBound(q, id);
      hide *;
    }
  }

  lemma {:induction false} IndicesTrack(q: Queue)
    requires Inv(q)
    ensures q.availIdx == (q.seen + q.n) % U16 && q.taken == q.completed[..|q.taken|]
    ensures q.driver.Idle? && q.seen == q.usedIdx ==> q.taken == q.completed
  {
    NotFull(q);
    hide Owners, Slots, Range;
    WrapMore(Seen(q), q.n);
  }

  /** While the callback reads a buffer, the device does not hold it and it is not on offer. */
  lemma {:induction false} CallbackOwnsBuffer(q: Queue)
    requires Inv(q) && q.driver.Holding?
    ensures q.driver.id < q.n && q.driver.id !in q.held && q.driver.id !in q.posted[q.fetched..]
  {
    var id := q.driver.id;
    OwnersBound(q, id);
    assert multiset(DriverIds(q.driver))[id] == 1;
    assert multiset(q.held)[id] == 0 && multiset(q.posted[q.fetched..])[id] == 0;
  }

  // The driver's own form

  class RxQueue {
    var n: nat
    var avail: array<nat>
    var availIdx: nat
    var used: array<Used>
    var usedIdx: nat
    var seen: nat
    // the device, and the histories
    var driver: Driver
    var lastAvail: nat
    var held: set<nat>
    var filling: Option<Used>
    ghost var posted: seq<nat>
    ghost var fetched: nat
    ghost var completed: seq<Used>
    ghost var taken: seq<Used>
    var rxb: seq<seq<byte>>
    ghost var wrote: seq<seq<byte>>
    ghost var delivered: seq<seq<byte>>

    ghost function View(): Queue
      reads this, avail, used
    {
      Queue(n, avail[..], availIdx, used[..], usedIdx, seen, driver, lastAvail, held, filling, posted, fetched,
            completed, taken, rxb, wrote, delivered)
    }

    ghost predicate Valid()
      reads this, avail, used
      ensures Valid() ==> View().Shaped()
    {
      View().Shaped()
    }

    /** The receive half of `init`, for the queue sizes `setup_q` accepts. */
    constructor Init(size: nat)
      requires 0 < size <= QMAX
      ensures Valid() && View() == Fresh(size) && fresh(avail) && fresh(used)
    {
      n := size;
      avail := new nat[size](i requires 0 <= i < size => i);
      used := new Used[size](_ => Used(0, 0));
      availIdx, usedIdx, seen, lastAvail := size, 0, 0, 0;
      driver, held, filling := Idle, {}, None;
      posted, fetched, completed, taken := Range(size), 0, [], [];
      rxb, wrote, delivered := seq(size, _ => Zeros(BUF + 10)), [], [];
      new;
      assert avail[..] == Range(size);
      assert used[..] == seq(size, _ => Used(0, 0));
    }

    /** The device picks up the next buffer on offer. */
    method DeviceFetch() returns (ghost ran: seq<Step>)
      requires Valid()
      modifies this
      ensures Valid() && avail == old(avail) && used == old(used) && driver == old(driver) && seen == old(seen)
      ensures ran == if Enabled(old(View()), Fetch) then [Fetch] else []
      ensures View() == if Enabled(old(View()), Fetch) then Next(old(View()), Fetch) else old(View())
    {
      ran := [];
      if lastAvail != availIdx {
        held := held + {avail[lastAvail % n]};
        lastAvail := (lastAvail + 1) % U16;
        fetched, ran := fetched + 1, [Fetch];
      }
    }

    /** The device writes a buffer it holds, and the used entry. */
    method DeviceFill(u: Used, data: seq<byte>) returns (ghost ran: seq<Step>)
      requires Valid()
      modifies this, used
      ensures Valid() && avail == old(avail) && used == old(used) && driver == old(driver) && seen == old(seen)
      ensures ran == if Enabled(old(View()), Fill(u, data)) then [Fill(u, data)] else []
      ensures View() == if Enabled(old(View()), Fill(u, data)) then Next(old(View()), Fill(u, data)) else old(View())
    {
      hide Write;
      ran := [];
      if filling == None && u.id in held && |data| <= BUF + 10 && (u.len > BUF + 10 || u.len == |data|) {
        used[usedIdx % n] := u;
        rxb, wrote := Write(rxb, u.id, data), wrote + [data];
        filling := Some(u);
        ran := [Fill(u, data)];
      }
    }

    /** The device advances the used index over the entry it has written. */
    method DeviceComplete() returns (ghost ran: seq<Step>)
      requires Valid()
      modifies this
      ensures Valid() && avail == old(avail) && used == old(used) && driver == old(driver) && seen == old(seen)
      ensures ran == if Enabled(old(View()), Complete) then [Complete] else []
      ensures View() == if Enabled(old(View()), Complete) then Next(old(View()), Complete) else old(View())
    {
      ran := [];
      if filling.Some? {
        held := held - {filling.value.id};
        usedIdx := (usedIdx + 1) % U16;
        completed, ran := completed + [filling.value], [Complete];
        filling := None;
      }
    }

    /** One step of the device, if it may take it. */
    method DeviceStep(s: Step) returns (ghost ran: seq<Step>)
      requires Valid() && (s.Fetch? || s.Fill? || s.Complete?)
      modifies this, used
      ensures Valid() && avail == old(avail) && used == old(used) && driver == old(driver) && seen == old(seen)
      ensures ran == if Enabled(old(View()), s) then [s] else []
      ensures View() == if Enabled(old(View()), s) then Next(old(View()), s) else old(View())
    {
      hide *;
      match s
      case Fetch => ran := DeviceFetch();
      case Fill(u, data) => ran := DeviceFill(u, data);
      case Complete => ran := DeviceComplete();
    }

    method DeviceRuns(steps: seq<Step>) returns (ghost ran: seq<Step>)
      requires Valid() && AllDevice(steps)
      modifies this, used
      ensures Valid() && avail == old(avail) && used == old(used) && driver == old(driver) && seen == old(seen)
      ensures taken == old(taken) && delivered == old(delivered)
      ensures n == old(n) && (steps == [] ==> usedIdx == old(usedIdx))
      ensures Schedule(old(View()), ran) && View() == After(old(View()), ran)
    {
      ghost var start := View();
      ran := [];
      for i := 0 to |steps|
        invariant Valid() && avail == old(avail) && used == old(used) && driver == old(driver) && seen == old(seen)
        invariant taken == old(taken) && delivered == old(delivered)
        invariant n == old(n) && (i == 0 ==> usedIdx == old(usedIdx))
        invariant Schedule(start, ran) && View() == After(start, ran)
      {
        hide Next, Enabled;
        ghost var more := DeviceStep(steps[i]);
        Extend(start, ran, more);
        ran := ran + more;
      }
    }

    /** `poll`: `script[k]` is what the device does before the driver's k-th access to the shared rings or the buffer,
        whether that reads the used index, reads the used entry, runs the callback, writes the available slot or
        advances the available index. The frames are what the callback was given. */
    method Poll(script: seq<seq<Step>>) returns (frames: seq<seq<byte>>, ghost ran: seq<Step>)
      requires Valid() && driver == Idle && forall k :: 0 <= k < |script| ==> AllDevice(script[k])
      modifies this, avail, used
      ensures Valid() && driver == Idle && seen == usedIdx && avail == old(avail) && used == old(used)
      ensures Schedule(old(View()), ran) && View() == After(old(View()), ran)
      ensures delivered == old(delivered) + frames
    {
      hide Schedule, After;
      ghost var start := View();
      var k := 0;
      frames := [];
      ran := DeviceRuns(if k < |script| then script[k] else []);
      while seen != usedIdx
        invariant Valid() && driver == Idle && avail == old(avail) && used == old(used) && n == old(n)
        invariant Schedule(start, ran) && View() == After(start, ran)
        invariant 0 <= k <= |script| && delivered == start.delivered + frames
        decreases |script| - k, (usedIdx - seen) % U16
      {
        ghost var more: seq<Step>;
        frames, more, k := Turn(script, k, frames, start.delivered);
        Extend(start, ran, more);
        ran := ran + more;
      }
    }

    /** One turn of the loop, from the test that found the used index ahead: read the completion, run the callback,
        post the buffer, publish it. */
    method Turn(script: seq<seq<Step>>, k: nat, sofar: seq<seq<byte>>, ghost base: seq<seq<byte>>)
      returns (frames: seq<seq<byte>>, ghost ran: seq<Step>, next: nat)
      requires Valid() && driver == Idle && seen != usedIdx && k <= |script|
      requires forall i :: 0 <= i < |script| ==> AllDevice(script[i])
      requires delivered == base + sofar
      modifies this, avail, used
      ensures Valid() && driver == Idle && avail == old(avail) && used == old(used) && n == old(n)
      ensures Schedule(old(View()), ran) && View() == After(old(View()), ran)
      ensures delivered == base + frames
      ensures k <= next <= |script| && (k < |script| ==> k < next)
      ensures k == |script| ==> (usedIdx - seen) % U16 < old((usedIdx - seen) % U16)
    {
      hide Schedule, After, Callback, Next, Enabled;
      ghost var start := View();
      ran := LookUsed(if k < |script| then script[k] else []);
      ghost var more := TakeUsed(if k + 1 < |script| then script[k + 1] else []);
      Extend(start, ran, more);
      ran := ran + more;
      var calls;
      calls, more := RunCallback(if k + 2 < |script| then script[k + 2] else []);
      Extend(start, ran, more);
      ran := ran + more;
      frames := sofar + calls;
      more := PostBuffer(if k + 3 < |script| then script[k + 3] else []);
      Extend(start, ran, more);
      ran := ran + more;
      more := PublishBuffer(if k + 4 < |script| then script[k + 4] else []);
      Extend(start, ran, more);
      ran := ran + more;
      next := Min(|script|, k + 5);
      if k == |script| { DistanceShrinks(start.usedIdx, start.seen); }
    }

    /** The loop test has read a used index other than `seen`; the device goes on before the entry is read. */
    method LookUsed(env: seq<Step>) returns (ghost ran: seq<Step>)
      requires Valid() && driver == Idle && seen != usedIdx && AllDevice(env)
      modifies this, used
      ensures Valid() && driver == Ready && avail == old(avail) && used == old(used) && n == old(n) && seen == old(seen)
      ensures delivered == old(delivered) && (env == [] ==> usedIdx == old(usedIdx))
      ensures Schedule(old(View()), ran) && View() == After(old(View()), ran)
    {
      hide Schedule, After;
      ghost var start := View();
      driver := Ready;
      OneStep(start, Look);
      ran := DeviceRuns(env);
      Extend(start, [Look], ran);
      ran := [Look] + ran;
    }

    method TakeUsed(env: seq<Step>) returns (ghost ran: seq<Step>)
      requires Valid() && driver == Ready && AllDevice(env)
      modifies this, used
      ensures Valid() && driver.Holding? && avail == old(avail) && used == old(used) && n == old(n) && seen == old(seen)
      ensures delivered == old(delivered) && (env == [] ==> usedIdx == old(usedIdx))
      ensures Schedule(old(View()), ran) && View() == After(old(View()), ran)
    {
      hide Schedule, After;
      ghost var start := View();
      var e := used[seen % n];
      taken, driver := taken + [e], Holding(e.id % U16, e.len);
      OneStep(start, Take);
      ran := DeviceRuns(env);
      Extend(start, [Take], ran);
      ran := [Take] + ran;
    }

    /** The callback reads the buffer behind its ten-byte header, if id and length are in range. */
    method RunCallback(env: seq<Step>) returns (calls: seq<seq<byte>>, ghost ran: seq<Step>)
      requires Valid() && driver.Holding? && AllDevice(env)
      modifies this, used
      ensures Valid() && driver.Served? && avail == old(avail) && used == old(used) && n == old(n) && seen == old(seen)
      ensures delivered == old(delivered) + calls && (env == [] ==> usedIdx == old(usedIdx))
      ensures Schedule(old(View()), ran) && View() == After(old(View()), ran)
    {
      hide Schedule, After;
      ghost var start := View();
      calls := [];
      if driver.id < n && 24 <= driver.len <= BUF + 10 {
        calls := [rxb[driver.id][10..driver.len]];
      }
      delivered := delivered + calls;
      driver := Served(driver.id);
      OneStep(start, Call);
      ran := DeviceRuns(env);
      Extend(start, [Call], ran);
      ran := [Call] + ran;
    }

    method PostBuffer(env: seq<Step>) returns (ghost ran: seq<Step>)
      requires Valid() && driver.Served? && AllDevice(env)
      modifies this, avail, used
      ensures Valid() && driver.Posted? && avail == old(avail) && used == old(used) && n == old(n) && seen == old(seen)
      ensures delivered == old(delivered) && (env == [] ==> usedIdx == old(usedIdx))
      ensures Schedule(old(View()), ran) && View() == After(old(View()), ran)
    {
      hide Schedule, After;
      ghost var start := View();
      avail[availIdx % n] := driver.id;
      driver := Posted(driver.id);
      assert View() == Next(start, Post);
      OneStep(start, Post);
      ran := DeviceRuns(env);
      Extend(start, [Post], ran);
      ran := [Post] + ran;
    }

    method PublishBuffer(env: seq<Step>) returns (ghost ran: seq<Step>)
      requires Valid() && driver.Posted? && AllDevice(env)
      modifies this, used
      ensures Valid() && driver.Idle? && avail == old(avail) && used == old(used) && n == old(n)
      ensures seen == (old(seen) + 1) % U16 && delivered == old(delivered) && (env == [] ==> usedIdx == old(usedIdx))
      ensures Schedule(old(View()), ran) && View() == After(old(View()), ran)
    {
      hide Schedule, After, Callback, Write, Buffers;
      ghost var start := View();
      posted := posted + [driver.id];
      availIdx, seen, driver := (availIdx + 1) % U16, (seen + 1) % U16, Idle;
      OneStep(start, Publish);
      ran := DeviceRuns(env);
      Extend(start, [Publish], ran);
      ran := [Publish] + ran;
    }
  }

  lemma {:induction false} DistanceShrinks(used: nat, seen: nat)
    requires used < U16 && seen < U16 && used != seen
    ensures (used - (seen + 1) % U16) % U16 < (used - seen) % U16
  {
  }

  predicate AllDevice(steps: seq<Step>) {
    forall i :: 0 <= i < |steps| ==> steps[i].Fetch? || steps[i].Fill? || steps[i].Complete?
  }

  lemma {:induction false} OneStep(q: Queue, s: Step)
    requires q.Shaped() && Enabled(q, s)
    ensures Schedule(q, [s]) && After(q, [s]) == Next(q, s)
  {
    assert [s][1..] == [];
  }

  lemma {:induction false} Extend(q: Queue, a: seq<Step>, b: seq<Step>)
    requires q.Shaped() && Schedule(q, a) && Schedule(After(q, a), b)
    ensures Schedule(q, a + b) && After(q, a + b) == After(After(q, a), b)
    decreases |a|
  {
    if a == [] {
      assert a + b == b;
    } else {
      hide Next, Enabled;
      assert (a + b)[1..] == a[1..] + b;
      Extend(Next(q, a[0]), a[1..], b);
    }
  }
}
