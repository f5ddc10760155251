/** What reaches the network code: over every interleaving the callbacks are given exactly the packets that the device
    wrote, in the order of their completions, each once. */
module VirtioFrames {
  import opened Bytes
  import opened VirtioRing

  /** The buffer of a completion still holds what the device wrote for it. */
  ghost predicate Holds(q: Queue, u: Used, data: seq<byte>)
    requires q.Shaped()
  {
    u.id < q.n && (u.len <= BUF + 10 ==> |data| == u.len && q.mem[u.id][..|data|] == data)
  }

  /** Every buffer between its completion and the end of its callback holds what was written. */
  ghost predicate Stored(q: Queue)
    requires q.Shaped()
  {
    && |q.wrote| == |q.completed| + (if q.filling.Some? then 1 else 0)
    && (forall i :: 0 <= i < |q.completed| ==>
          q.completed[i].id < q.n && (q.completed[i].len <= BUF + 10 ==> |q.wrote[i]| == q.completed[i].len))
    && (forall i :: |q.taken| <= i < |q.completed| ==> Holds(q, q.completed[i], q.wrote[i]))
    && (q.filling.Some? ==> Holds(q, q.filling.value, q.wrote[|q.completed|]))
    && (q.driver.Holding? ==>
          && 0 < |q.taken| <= |q.completed| && q.taken[|q.taken| - 1] == Used(q.driver.id, q.driver.len)
          && Holds(q, Used(q.driver.id, q.driver.len), q.wrote[|q.taken| - 1]))
  }

  /** The positions of the completions that pass the driver's checks. */
  function Passed(s: seq<Used>, n: nat): (at: seq<nat>)
    ensures forall k :: 0 <= k < |at| ==> at[k] < |s|
  {
    if s == [] then []
    else
      var last := s[|s| - 1];
      Passed(s[..|s| - 1], n) + if last.id < n && 24 <= last.len <= BUF + 10 then [|s| - 1] else []
  }

  /** How many completions the driver has run the callback for. */
  function Called(q: Queue): int {
    |q.taken| - if q.driver.Holding? then 1 else 0
  }

  ghost predicate Delivered(q: Queue)
    requires q.Shaped() && Stored(q) && |q.taken| <= |q.completed|
  {
    && q.taken == q.completed[..|q.taken|]
    && var at := Passed(q.taken[..Called(q)], q.n);
       && |q.delivered| == |at|
       && forall k :: 0 <= k < |at| ==> |q.wrote[at[k]]| >= 24 && q.delivered[k] == q.wrote[at[k]][10..]
  }

  ghost predicate Good(q: Queue) {
    Inv(q) && Stored(q) && Delivered(q)
  }

  // What `Passed` lists

  lemma {:induction false} PassedSnoc(s: seq<Used>, e: Used, n: nat)
    ensures Passed(s + [e], n) == Passed(s, n) + if e.id < n && 24 <= e.len <= BUF + 10 then [|s|] else []
  {
    assert (s + [e])[..|s|] == s;
  }

  lemma {:induction false} PassedIncreases(s: seq<Used>, n: nat)
    ensures forall j, k :: 0 <= j < k < |Passed(s, n)| ==> Passed(s, n)[j] < Passed(s, n)[k]
    ensures forall i :: 0 <= i < |s| ==> (i in Passed(s, n) <==> s[i].id < n && 24 <= s[i].len <= 2058)
  {
    if s != [] {
      var front := s[..|s| - 1];
      PassedIncreases(front, n);
      forall i | 0 <= i < |s| ensures i in Passed(s, n) <==> s[i].id < n && 24 <= s[i].len <= 2058 {
        if i < |front| { assert front[i] == s[i]; }
      }
    }
  }

  lemma {:induction false} PassedExtends(s: seq<Used>, more: seq<Used>, n: nat)
    ensures |Passed(s, n)| <= |Passed(s + more, n)|
    ensures Passed(s + more, n)[..|Passed(s, n)|] == Passed(s, n)
    ensures forall k :: |Passed(s, n)| <= k < |Passed(s + more, n)| ==> Passed(s + more, n)[k] >= |s|
    decreases |more|
  {
    if more == [] {
      assert s + more == s;
    } else {
      var front, last := more[..|more| - 1], more[|more| - 1];
      PassedExtends(s, front, n);
      PassedSnoc(s + front, last, n);
      assert s + more == (s + front) + [last];
    }
  }

  // Every step keeps it

  lemma {:induction false} FreshGood(n: nat)
    requires 0 < n <= QMAX && U16 % n == 0
    ensures Good(Fresh(n))
  {
    FreshInv(n);
    hide Inv, Range;
  }

  lemma {:induction false} Bounds(q: Queue)
    requires Inv(q)
    ensures q.Shaped() && |q.taken| <= |q.completed| && q.taken == q.completed[..|q.taken|]
  {
    hide Slots, Owners, Range;
  }

  /** The buffer that the device writes is none of those waiting for their callback. */
  lemma {:induction false} FilledApart(q: Queue, id: nat)
    requires Inv(q) && id in q.held
    ensures |q.taken| <= |q.completed|
    ensures forall i :: |q.taken| <= i < |q.completed| ==> q.completed[i].id != id
    ensures q.driver.Holding? ==> q.driver.id != id
    ensures id < q.n
  {
    OwnersBound(q, id);
    hide Range, Slots;
    var ids := Ids(q.completed[|q.taken|..]);
    assert multiset(ids)[id] == 0 && multiset(DriverIds(q.driver))[id] == 0;
    forall i | |q.taken| <= i < |q.completed| ensures q.completed[i].id != id {
      assert q.completed[|q.taken|..][i - |q.taken|] == q.completed[i];
      assert ids[i - |q.taken|] == q.completed[i].id;
      assert ids[i - |q.taken|] in multiset(ids);
    }
    if q.driver.Holding? { assert DriverIds(q.driver)[0] in multiset(DriverIds(q.driver)); }
  }

  lemma {:induction false} FillStored(q: Queue, u: Used, data: seq<byte>)
    requires Inv(q) && q.Shaped() && Stored(q) && Enabled(q, Fill(u, data))
    ensures Stored(Next(q, Fill(u, data)))
  {
    FilledApart(q, u.id);
    Bounds(q);
    hide Inv, Write;
    var r := Next(q, Fill(u, data));
    forall i | |r.taken| <= i < |r.completed| ensures Holds(r, r.completed[i], r.wrote[i]) {
      assert Holds(q, q.completed[i], q.wrote[i]);
    }
  }

  lemma {:induction false} TakeEffect(q: Queue)
    requires Inv(q) && Enabled(q, Take)
    ensures q.Shaped() && |q.taken| < |q.completed|
    ensures var e := q.completed[|q.taken|];
            Next(q, Take) == q.(driver := Holding(e.id, e.len), taken := q.taken + [e])
  {
    hide Counters, Slots, Owners, Range;
    TakesOldest(q);
    TakenId(q);
  }

  lemma {:induction false} TakeStored(q: Queue)
    requires Inv(q) && q.Shaped() && Stored(q) && Enabled(q, Take)
    ensures Stored(Next(q, Take))
  {
    hide Inv, Next, Enabled;
    TakeEffect(q);
    var e := q.completed[|q.taken|];
    var r := q.(driver := Holding(e.id, e.len), taken := q.taken + [e]);
    assert Holds(q, e, q.wrote[|q.taken|]);
    assert Stored(r);
  }

  lemma {:induction false} OtherStored(q: Queue, s: Step)
    requires q.Shaped() && Stored(q) && Enabled(q, s) && !s.Fill? && !s.Take?
    ensures Stored(Next(q, s))
  {
    hide Callback;
    var r := Next(q, s);
    assert r.mem == q.mem && r.n == q.n && r.wrote == q.wrote && r.taken == q.taken;
    if s.Complete? {
      forall i | |r.taken| <= i < |r.completed| ensures Holds(r, r.completed[i], r.wrote[i]) {
        if i < |q.completed| { assert Holds(q, q.completed[i], q.wrote[i]); }
      }
    } else {
      forall i | |r.taken| <= i < |r.completed| ensures Holds(r, r.completed[i], r.wrote[i]) {
        assert Holds(q, q.completed[i], q.wrote[i]);
      }
    }
  }

  /** The callback is given what the device wrote behind the header. */
  lemma {:induction false} CallDelivers(q: Queue)
    requires Good(q) && Enabled(q, Call)
    ensures var r := Next(q, Call); r.Shaped() && Stored(r) && |r.taken| <= |r.completed| && Delivered(r)
  {
    Bounds(q);
    OtherStored(q, Call);
    hide Inv;
    var r := Next(q, Call);
    var id, len, data := q.driver.id, q.driver.len, q.wrote[|q.taken| - 1];
    var front := q.taken[..|q.taken| - 1];
    assert q.taken == front + [Used(id, len)];
    PassedSnoc(front, Used(id, len), q.n);
    assert r.taken[..Called(r)] == q.taken && q.taken[..Called(q)] == front;
    if 24 <= len <= BUF + 10 {
      assert q.mem[id][10..len] == q.mem[id][..len][10..] == data[10..];
    }
  }

  lemma {:induction false} OtherDelivered(q: Queue, s: Step)
    requires Good(q) && Enabled(q, s) && !s.Call?
    requires var r := Next(q, s); r.Shaped() && Stored(r) && Inv(r)
    ensures |Next(q, s).taken| <= |Next(q, s).completed| && Delivered(Next(q, s))
  {
    Bounds(q);
    Bounds(Next(q, s));
    Histories(q, s);
    assert |q.completed| <= |q.wrote| && |Next(q, s).completed| <= |Next(q, s).wrote| && 0 <= Called(q) by {
      hide Inv, Next, Enabled;
    }
    hide Inv, Stored, Next, Enabled;
    DeliveredStays(q, Next(q, s));
  }

  lemma {:induction false} DeliveredStays(q: Queue, r: Queue)
    requires q.Shaped() && r.Shaped() && Stored(q) && Stored(r) && |q.taken| <= |q.completed| <= |q.wrote|
    requires |r.taken| <= |r.completed| <= |r.wrote| && r.taken == r.completed[..|r.taken|]
    requires Delivered(q) && q.taken <= r.taken && q.wrote <= r.wrote && r.delivered == q.delivered && r.n == q.n
    requires 0 <= Called(r) == Called(q)
    ensures Delivered(r)
  {
    hide Stored, Passed;
    assert r.taken[..Called(r)] == q.taken[..Called(q)];
    var at := Passed(q.taken[..Called(q)], q.n);
    forall k | 0 <= k < |at| ensures |r.wrote[at[k]]| >= 24 && r.delivered[k] == r.wrote[at[k]][10..] {
      assert r.wrote[at[k]] == q.wrote[at[k]];
    }
  }

  lemma {:induction false} Histories(q: Queue, s: Step)
    requires q.Shaped() && Enabled(q, s) && !s.Call?
    ensures var r := Next(q, s);
            && q.taken <= r.taken && q.wrote <= r.wrote && r.delivered == q.delivered && r.n == q.n
            && Called(r) == Called(q)
  {
    hide Write;
  }

  lemma {:induction false} StepGood(q: Queue, s: Step)
    requires Good(q) && Enabled(q, s)
    ensures Good(Next(q, s))
  {
    StepKeeps(q, s);
    hide Inv, Delivered, Stored, Next, Enabled;
    if s.Call? {
      CallDelivers(q);
    } else {
      if s.Fill? {
        FillStored(q, s.u, s.data);
      } else if s.Take? {
        TakeStored(q);
      } else {
        OtherStored(q, s);
      }
      OtherDelivered(q, s);
    }
  }

  lemma {:induction false} AlwaysGood(q: Queue, steps: seq<Step>)
    requires Good(q) && q.Shaped() && Schedule(q, steps)
    ensures Good(After(q, steps)) && After(q, steps).n == q.n
    ensures q.taken <= After(q, steps).taken && q.delivered <= After(q, steps).delivered
    decreases |steps|
  {
    if steps != [] {
      hide Good, Enabled, Next;
      StepGood(q, steps[0]);
      OnlyGrows(q, steps[0]);
      AlwaysGood(Next(q, steps[0]), steps[1..]);
    }
  }

  lemma {:induction false} OnlyGrows(q: Queue, s: Step)
    requires q.Shaped() && Enabled(q, s)
    ensures q.taken <= Next(q, s).taken && q.delivered <= Next(q, s).delivered
  {
    hide Write, Callback;
  }

  /** Main result: between any two moments outside a turn of the poll loop, in any interleaving from a fresh queue, the
      callbacks are given exactly the packets behind the ten-byte header of the completions read in between whose
      length is from 24 to 2058, in their order and each once. */
  lemma {:induction false} CallbacksGetPackets(n: nat, before: seq<Step>, during: seq<Step>) returns (at: seq<nat>)
    requires 0 < n <= QMAX && U16 % n == 0 && Schedule(Fresh(n), before)
    requires var q := After(Fresh(n), before);
             q.driver.Idle? && Schedule(q, during) && After(q, during).driver.Idle?
    ensures var q := After(Fresh(n), before);
            var r := After(q, during);
            && q.taken <= r.taken && q.delivered <= r.delivered && |at| == |r.delivered| - |q.delivered|
            && (forall j, k :: 0 <= j < k < |at| ==> at[j] < at[k])
            && (forall k :: 0 <= k < |at| ==>
                  && |q.taken| <= at[k] < |r.taken| && at[k] < |r.wrote| && |r.wrote[at[k]]| == r.taken[at[k]].len >= 10
                  && r.delivered[|q.delivered| + k] == r.wrote[at[k]][10..])
            && (forall i :: |q.taken| <= i < |r.taken| ==> (i in at <==> 24 <= r.taken[i].len <= 2058))
  {
    hide Good, Schedule, After;
    FreshGood(n);
    AlwaysGood(Fresh(n), before);
    var q := After(Fresh(n), before);
    AlwaysGood(q, during);
    at := PacketsBetween(q, After(q, during));
  }

  lemma {:induction false} PacketsBetween(q: Queue, r: Queue) returns (at: seq<nat>)
    requires Good(q) && Good(r) && q.n == r.n && q.driver.Idle? && r.driver.Idle?
    requires q.taken <= r.taken && q.delivered <= r.delivered
    ensures && |at| == |r.delivered| - |q.delivered|
            && (forall j, k :: 0 <= j < k < |at| ==> at[j] < at[k])
            && (forall k :: 0 <= k < |at| ==>
                  && |q.taken| <= at[k] < |r.taken| && at[k] < |r.wrote| && |r.wrote[at[k]]| == r.taken[at[k]].len >= 10
                  && r.delivered[|q.delivered| + k] == r.wrote[at[k]][10..])
            && (forall i :: |q.taken| <= i < |r.taken| ==> (i in at <==> 24 <= r.taken[i].len <= 2058))
  {
    hide *;
    InBetween(q);
    InBetween(r);
    at := LaterOnes(q.taken, r.taken, q.n);
    var all, m := Passed(r.taken, q.n), |q.delivered|;
    forall k | 0 <= k < |at|
      ensures at[k] < |r.wrote| && |r.wrote[at[k]]| == r.taken[at[k]].len >= 10
              && r.delivered[m + k] == r.wrote[at[k]][10..]
    {
      assert at[k] == all[m + k] && at[k] in at;
    }
  }

  /** Outside a turn every callback has run. */
  lemma {:induction false} InBetween(q: Queue)
    requires Good(q) && q.driver.Idle?
    ensures q.Shaped() && |q.taken| <= |q.completed| <= |q.wrote| && q.taken == q.completed[..|q.taken|]
    ensures forall i :: 0 <= i < |q.taken| ==>
              q.taken[i].id < q.n && (q.taken[i].len <= 2058 ==> |q.wrote[i]| == q.taken[i].len)
    ensures var at := Passed(q.taken, q.n);
            && |q.delivered| == |at|
            && forall k :: 0 <= k < |at| ==> |q.wrote[at[k]]| >= 24 && q.delivered[k] == q.wrote[at[k]][10..]
  {
    Bounds(q);
    hide Inv, Holds;
    assert q.taken[..Called(q)] == q.taken;
  }

  lemma {:induction false} LaterOnes(s: seq<Used>, t: seq<Used>, n: nat) returns (at: seq<nat>)
    requires s <= t && forall i :: 0 <= i < |t| ==> t[i].id < n
    ensures |Passed(s, n)| <= |Passed(t, n)| && at == Passed(t, n)[|Passed(s, n)|..]
    ensures forall j, k :: 0 <= j < k < |at| ==> at[j] < at[k]
    ensures forall k :: 0 <= k < |at| ==> |s| <= at[k] < |t| && 24 <= t[at[k]].len <= 2058
    ensures forall i :: |s| <= i < |t| ==> (i in at <==> 24 <= t[i].len <= 2058)
  {
    hide Passed;
    PassedExtends(s, t[|s|..], n);
    assert s + t[|s|..] == t;
    PassedIncreases(t, n);
    var all, m := Passed(t, n), |Passed(s, n)|;
    at := all[m..];
    forall k | 0 <= k < |at| ensures |s| <= at[k] < |t| && 24 <= t[at[k]].len <= 2058 {
      assert at[k] == all[m + k] && at[k] in all;
    }
    forall k | 0 <= k < m ensures all[k] < |s| { assert all[k] == all[..m][k]; }
    forall i | |s| <= i < |t| ensures i in at <==> 24 <= t[i].len <= 2058 {
      if i in all {
        var k :| 0 <= k < |all| && all[k] == i;
        assert all[m..][k - m] == i;
      }
    }
  }
}
