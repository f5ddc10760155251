/** What a queue size that does not divide 2^16 leads to: a run in which the driver overwrites an offer that the device
    has not fetched. */
module VirtioWrap {
  import opened Bytes
  import opened Arith
  import opened VirtioRing

  /** The driver's next Post changes a slot that still holds an unfetched offer. */
  ghost predicate Overwrites(q: Queue) {
    && q.Shaped() && Enabled(q, Post)
    && exists i: nat :: Lost(q, i)
  }

  ghost predicate Lost(q: Queue, i: nat)
    requires q.Shaped() && Enabled(q, Post)
  {
    && q.fetched <= i < |q.posted| && q.avail[i % q.n] == q.posted[i]
    && Next(q, Post).avail[i % q.n] != q.posted[i]
  }

  lemma {:induction false} Then(q: Queue, steps: seq<Step>, s: Step)
    requires q.Shaped() && Schedule(q, steps) && Enabled(After(q, steps), s)
    ensures Schedule(q, steps + [s]) && After(q, steps + [s]) == Next(After(q, steps), s)
  {
    hide Enabled, Next, Schedule, After;
    OneStep(After(q, steps), s);
    Extend(q, steps, [s]);
  }

  /** The queue after k rounds in which each buffer goes from offer to device to driver and back, one at a time. */
  ghost predicate Rounds(q: Queue, n: nat, k: nat)
    ensures Rounds(q, n, k) ==> 0 < n <= QMAX && n + k <= U16 && q.Shaped()
  {
    && 0 < n <= QMAX && n + k <= U16 && q.Shaped() && q.n == n
    && q.avail == Range(n) && q.availIdx == (n + k) % U16 && q.lastAvail == q.usedIdx == q.seen == k && q.fetched == k
    && q.driver == Idle && q.held == {} && q.filling == None
    && |q.posted| == n + k && (forall i :: 0 <= i < n + k ==> q.posted[i] == i % n)
  }

  lemma {:induction false} FreshRounds(n: nat)
    requires 0 < n <= QMAX
    ensures Rounds(Fresh(n), n, 0)
  {
    var q := Fresh(n);
    forall i | 0 <= i < n ensures q.posted[i] == i % n {
      DivModUnique(i, n, 0, i);
    }
  }

  /** The first half of a round: the device fetches and completes buffer k % n, and the driver takes it and runs the
      callback, which is skipped for this empty frame. */
  lemma {:induction false} HalfRound(q: Queue, n: nat, k: nat) returns (steps: seq<Step>)
    requires Rounds(q, n, k) && k + 1 < U16
    ensures Schedule(q, steps)
    ensures var z := After(q, steps);
            && z.Shaped() && z.n == n && z.driver == Served(k % n) && z.avail == q.avail && z.availIdx == q.availIdx
            && z.lastAvail == z.usedIdx == k + 1 && z.seen == k && z.fetched == k + 1 && z.held == {}
            && z.filling == None
            && z.posted == q.posted
  {
    hide Schedule, After, Next, Enabled, Rounds;
    var u := Used(k % n, 0);
    RoundFetch(q, n, k);
    var q1 := Next(q, Fetch);
    RoundDevice(q1, n, k);
    var q3 := Next(Next(q1, Fill(u, [])), Complete);
    RoundTake(q3, n, k);
    ScheduleNothing(q);
    Then(q, [], Fetch);
    Then(q, [] + [Fetch], Fill(u, []));
    Then(q, [] + [Fetch] + [Fill(u, [])], Complete);
    Then(q, [] + [Fetch] + [Fill(u, [])] + [Complete], Look);
    Then(q, [] + [Fetch] + [Fill(u, [])] + [Complete] + [Look], Take);
    Then(q, [] + [Fetch] + [Fill(u, [])] + [Complete] + [Look] + [Take], Call);
    steps := [] + [Fetch] + [Fill(u, [])] + [Complete] + [Look] + [Take] + [Call];
  }

  lemma {:induction false} RoundFetch(q: Queue, n: nat, k: nat)
    requires Rounds(q, n, k) && k + 1 < U16
    ensures Enabled(q, Fetch)
    ensures Next(q, Fetch) == q.(lastAvail := k + 1, held := {k % n}, fetched := k + 1)
    ensures q.Shaped() && q.n == n && n > 0 && q.usedIdx == q.seen == k && k < U16 && q.filling == None
    ensures q.driver == Idle
  {
    assert q.avail[q.lastAvail % q.n] == k % n && q.held + {k % n} == {k % n};
    assert n + k == U16 ==> (n + k) % U16 == 0;
    assert n + k < U16 ==> (n + k) % U16 == n + k;
    assert k + 1 < U16 ==> (k + 1) % U16 == k + 1;
  }

  lemma {:induction false} RoundDevice(q1: Queue, n: nat, k: nat)
    requires q1.Shaped() && q1.n == n > 0 && q1.held == {k % n} && q1.filling == None && q1.usedIdx == k && k + 1 < U16
    ensures var u := Used(k % n, 0);
            && Enabled(q1, Fill(u, [])) && Enabled(Next(q1, Fill(u, [])), Complete)
            && Next(Next(q1, Fill(u, [])), Complete)
            == q1.(used := q1.used[k % n := u], usedIdx := k + 1, held := {}, completed := q1.completed + [u],
                   mem := Write(q1.mem, k % n, []), wrote := q1.wrote + [[]])
  {
    hide Write;
    assert {k % n} - {k % n} == {};
  }

  lemma {:induction false} RoundTake(q3: Queue, n: nat, k: nat)
    requires q3.Shaped() && q3.n == n > 0 && q3.driver == Idle && q3.seen == k && q3.usedIdx == k + 1
    requires q3.used[k % n] == Used(k % n, 0) && n <= QMAX
    ensures Enabled(q3, Look) && Enabled(Next(q3, Look), Take) && Enabled(Next(Next(q3, Look), Take), Call)
    ensures Next(Next(Next(q3, Look), Take), Call)
         == q3.(driver := Served(k % n), taken := q3.taken + [Used(k % n, 0)])
  {
    assert k % n < n;
  }

  lemma {:induction false} ScheduleNothing(q: Queue)
    requires q.Shaped()
    ensures Schedule(q, []) && After(q, []) == q
  {
  }

  /** While the available index has not wrapped, posting puts the buffer back where it was fetched. */
  lemma {:induction false} FullRound(q: Queue, n: nat, k: nat) returns (steps: seq<Step>)
    requires Rounds(q, n, k) && n + k < U16
    ensures Schedule(q, steps) && Rounds(After(q, steps), n, k + 1)
  {
    var half := HalfRound(q, n, k);
    hide Schedule, After;
    var z := After(q, half);
    var id := k % n;
    RoundPost(q, z, n, k);
    hide Next, Enabled, Rounds;
    Then(q, half, Post);
    Then(q, half + [Post], Publish);
    steps := half + [Post] + [Publish];
  }

  lemma {:induction false} RoundPost(q: Queue, z: Queue, n: nat, k: nat)
    requires Rounds(q, n, k) && n + k < U16
    requires z.Shaped() && z.n == n && z.driver == Served(k % n) && z.avail == q.avail && z.availIdx == q.availIdx
    requires z.lastAvail == z.usedIdx == k + 1 && z.seen == k && z.fetched == k + 1 && z.held == {} && z.filling == None
    requires z.posted == q.posted
    ensures Enabled(z, Post) && Enabled(Next(z, Post), Publish) && Rounds(Next(Next(z, Post), Publish), n, k + 1)
  {
    hide Rounds, Enabled, Next;
    Unwrapped(q, n, k);
    PostBack(z, n, k);
    RoundsNext(q, z, n, k);
  }

  /** The buffer goes back into the slot it came from. */
  lemma {:induction false} PostBack(z: Queue, n: nat, k: nat)
    requires 0 < n && n + k < U16 && z.Shaped() && z.n == n && z.driver == Served(k % n) && z.availIdx == n + k
    requires z.avail == Range(n) && z.seen == k
    ensures Enabled(z, Post) && Enabled(Next(z, Post), Publish)
    ensures Next(Next(z, Post), Publish)
         == z.(driver := Idle, availIdx := (n + k + 1) % U16, seen := k + 1, posted := z.posted + [k % n])
  {
    hide Range, Next, Enabled;
    PostStays(z, n, k);
    PublishBack(Next(z, Post), k % n);
  }

  lemma {:induction false} PostStays(z: Queue, n: nat, k: nat)
    requires 0 < n && n + k < U16 && z.Shaped() && z.n == n && z.driver == Served(k % n) && z.availIdx == n + k
    requires z.avail == Range(n)
    ensures Enabled(z, Post) && Next(z, Post) == z.(driver := Posted(k % n))
  {
    hide Range;
    SameSlot(n, k);
    InPlace(n, k % n);
  }

  lemma {:induction false} PublishBack(y: Queue, id: nat)
    requires y.Shaped() && y.driver == Posted(id) && y.seen + 1 < U16
    ensures Enabled(y, Publish)
    ensures Next(y, Publish)
         == y.(driver := Idle, availIdx := (y.availIdx + 1) % U16, seen := y.seen + 1, posted := y.posted + [id])
  {
  }

  lemma {:induction false} InPlace(n: nat, id: nat)
    requires id < n
    ensures Range(n)[id := id] == Range(n)
  {
  }

  lemma {:induction false} Unwrapped(q: Queue, n: nat, k: nat)
    requires Rounds(q, n, k) && n + k < U16
    ensures q.availIdx == n + k && q.avail == Range(n)
  {
  }

  lemma {:induction false} RoundsNext(q: Queue, z: Queue, n: nat, k: nat)
    requires Rounds(q, n, k) && n + k < U16 && z.Shaped() && z.n == n && z.avail == q.avail && z.posted == q.posted
    requires z.lastAvail == z.usedIdx == k + 1 && z.fetched == k + 1 && z.held == {} && z.filling == None
    ensures var r := z.(driver := Idle, availIdx := (n + k + 1) % U16, seen := k + 1, posted := z.posted + [k % n]);
            Rounds(r, n, k + 1)
  {
    SameSlot(n, k);
  }

  lemma {:induction false} SameSlot(n: nat, k: nat)
    requires 0 < n
    ensures (n + k) % n == k % n
  {
    ModAddMultiple(k, n, 1);
  }

  lemma {:induction false} ManyRounds(n: nat, k: nat) returns (steps: seq<Step>)
    requires 0 < n <= QMAX && n + k <= U16
    ensures Schedule(Fresh(n), steps) && Rounds(After(Fresh(n), steps), n, k)
    decreases k
  {
    hide Rounds;
    if k == 0 {
      FreshRounds(n);
      ScheduleNothing(Fresh(n));
      steps := [];
    } else {
      hide Schedule, After;
      var before := ManyRounds(n, k - 1);
      var more := FullRound(After(Fresh(n), before), n, k - 1);
      Extend(Fresh(n), before, more);
      steps := before + more;
    }
  }

  /** At the wrap the available index names slot 0, which is not where the fetched buffer came from. */
  lemma {:induction false} WrapOverwrites(n: nat) returns (steps: seq<Step>)
    requires 0 < n <= QMAX && U16 % n != 0
    ensures Schedule(Fresh(n), steps) && Overwrites(After(Fresh(n), steps))
  {
    hide Schedule, After;
    var k := U16 - n;
    var before := ManyRounds(n, k);
    var q := After(Fresh(n), before);
    var half := HalfRound(q, n, k);
    Extend(Fresh(n), before, half);
    steps := before + half;
    var z := After(Fresh(n), steps);
    var r := U16 % n;
    AtWrap(n, r);
    assert z.driver == Served(r) && z.availIdx == 0;
    var i := U16 - r;
    assert z.posted[i] == i % n == 0 && z.avail[0] == 0 && Next(z, Post).avail[0] == r;
    assert Lost(z, i);
  }

  lemma {:induction false} AtWrap(n: nat, r: nat)
    requires 0 < n <= QMAX && r == U16 % n
    ensures (U16 - n) % n == r && (U16 - r) % n == 0
  {
    SameSlot(n, U16 - n);
    DivModUnique(U16 - r, n, U16 / n, 0);
  }

  /** Main result: some interleaving from a fresh queue overwrites an unfetched offer if and only if the queue size does
      not divide 2^16. */
  lemma {:induction false} OverwriteIff(n: nat)
    requires 0 < n <= QMAX
    ensures (exists steps :: Schedule(Fresh(n), steps) && Overwrites(After(Fresh(n), steps))) <==> U16 % n != 0
  {
    hide Schedule, After;
    if U16 % n != 0 {
      var steps := WrapOverwrites(n);
    } else {
      FreshInv(n);
      forall steps | Schedule(Fresh(n), steps) ensures !Overwrites(After(Fresh(n), steps)) {
        InvAlways(Fresh(n), steps);
        NeverOverwrites(After(Fresh(n), steps));
      }
    }
  }

  lemma {:induction false} NeverOverwrites(q: Queue)
    requires Inv(q)
    ensures !Overwrites(q)
  {
    if Enabled(q, Post) {
      PostSlots(q);
      hide Inv, Counters, Slots, Next;
      forall i: nat ensures !Lost(q, i) {
      }
    }
  }
}
