/** What the response reader does with any bytes at all, well-formed or not. */
module DnsMeaning {
  import opened Bytes
  import opened Dns

  /** Whatever is skipped within the message is a name: labels of 1 to 63 bytes, fewer than 128, then the root or a
      pointer. */
  lemma {:induction false} OnlyNamesSkipped(d: seq<byte>, o: nat, k: nat) returns (labels: seq<Label>, end: NameEnd)
    requires SkipName(d, o, k) <= |d|
    ensures GoodLabels(labels) && GoodEnd(end) && k + |labels| < 128
    ensures o <= SkipName(d, o, k) && d[o..SkipName(d, o, k)] == Wire(labels) + EndBytes(end)
    decreases |d| - o
  {
    var e := SkipName(d, o, k);
    if d[o] == 0 {
      labels, end := [], Root;
      assert d[o..e] == [0];
    } else if d[o] >= 192 {
      labels, end := [], Pointer(d[o] - 192, d[o + 1]);
      assert d[o..e] == [d[o], d[o + 1]];
    } else {
      var n := d[o];
      var more;
      more, end := OnlyNamesSkipped(d, o + 1 + n, k + 1);
      labels := [d[o + 1..o + 1 + n]] + more;
      LabelInFront(d, o, e, more, end);
    }
  }

  lemma {:induction false} LabelInFront(d: seq<byte>, o: nat, e: nat, more: seq<Label>, end: NameEnd)
    requires o < |d| && 1 <= d[o] <= 63 && o + 1 + d[o] <= e <= |d| && GoodLabels(more) && GoodEnd(end)
    requires d[o + 1 + d[o]..e] == Wire(more) + EndBytes(end)
    ensures var labels := [d[o + 1..o + 1 + d[o]]] + more;
            GoodLabels(labels) && d[o..e] == Wire(labels) + EndBytes(end)
  {
    var piece := d[o + 1..o + 1 + d[o]];
    GoodCons(piece, more);
    assert ([piece] + more)[1..] == more;
    assert Wire([piece] + more) == [d[o]] + piece + Wire(more);
    hide Wire, EndBytes;
    NameSlices(d, o, d[o], e);
    Assoc([d[o]] + piece, Wire(more), EndBytes(end));
  }

  lemma {:induction false} NameSlices(d: seq<byte>, o: nat, n: nat, e: nat)
    requires o < |d| && o + 1 + n <= e <= |d|
    ensures d[o..e] == [d[o]] + d[o + 1..o + 1 + n] + d[o + 1 + n..e]
  {
  }

  /** An answer record at o: a name, ten fixed bytes at p, and data up to `next`. */
  predicate RecordAt(d: seq<byte>, o: nat, p: nat, next: nat) {
    p == SkipName(d, o, 0) && p + 10 <= |d| && next == p + 10 + Get16(d, p + 8) <= |d|
  }

  /** Type A, class IN, four bytes of data. */
  predicate AddressAt(d: seq<byte>, p: nat)
    requires p + 10 <= |d|
  {
    Get16(d, p) == 1 && Get16(d, p + 2) == 1 && Get16(d, p + 8) == 4
  }

  /** Records one behind the other, none of them an address. */
  ghost predicate Passed(d: seq<byte>, o: nat, count: nat, to: nat)
    decreases count
  {
    if count == 0 then o == to
    else exists p: nat, next: nat :: RecordAt(d, o, p, next) && !AddressAt(d, p) && Passed(d, next, count - 1, to)
  }

  /** Among the first `left` records from o on, the one behind `count` others is the first address. */
  ghost predicate FoundAt(d: seq<byte>, o: nat, left: nat, count: nat, at: nat, ip: seq<byte>) {
    && count < left && Passed(d, o, count, at)
    && var p := SkipName(d, at, 0); RecordAt(d, at, p, p + 14) && AddressAt(d, p) && ip == d[p + 10..p + 14]
  }

  /** An address is found exactly when one of the announced records is one and all before it lie inside the message. */
  lemma {:induction false} ScanMeaning(d: seq<byte>, o: nat, left: nat, ip: seq<byte>)
    requires o <= |d|
    ensures ScanRecords(d, o, left) == Answered(ip)
            <==> exists count: nat, at: nat :: FoundAt(d, o, left, count, at, ip)
    decreases left
  {
    hide SkipName, ScanRecords, Get16;
    if left == 0 {
      ScanNothing(d, o);
    } else {
      ScanTurn(d, o, left);
      var p := SkipName(d, o, 0);
      if p + 10 <= |d| && p + 10 + Get16(d, p + 8) <= |d| {
        var next := p + 10 + Get16(d, p + 8);
        assert RecordAt(d, o, p, next);
        if AddressAt(d, p) {
          FoundHere(d, o, left, ip);
        } else {
          ScanMeaning(d, next, left - 1, ip);
          FoundBehind(d, o, p, next, left - 1, left, ip);
        }
      } else {
        NothingThere(d, o, left, ip);
      }
    }
  }

  lemma {:induction false} FoundHere(d: seq<byte>, o: nat, left: nat, ip: seq<byte>)
    requires o <= |d| && left > 0
    requires var p := SkipName(d, o, 0); RecordAt(d, o, p, p + 14) && AddressAt(d, p)
    ensures (exists count: nat, at: nat :: FoundAt(d, o, left, count, at, ip))
            <==> (var p := SkipName(d, o, 0); ip == d[p + 10..p + 14])
  {
    hide SkipName, Get16;
    var p := SkipName(d, o, 0);
    if ip == d[p + 10..p + 14] { assert FoundAt(d, o, left, 0, o, ip); }
    forall count: nat, at: nat | FoundAt(d, o, left, count, at, ip) ensures count == 0 && at == o { }
  }

  lemma {:induction false} FoundBehind(d: seq<byte>, o: nat, p: nat, next: nat, rest: nat, left: nat, ip: seq<byte>)
    requires left == rest + 1 && RecordAt(d, o, p, next) && !AddressAt(d, p)
    ensures (exists count: nat, at: nat :: FoundAt(d, o, left, count, at, ip))
            <==> (exists count: nat, at: nat :: FoundAt(d, next, rest, count, at, ip))
  {
    hide SkipName, Get16;
    if count: nat, at: nat :| FoundAt(d, o, left, count, at, ip) {
      assert count > 0 && FoundAt(d, next, rest, count - 1, at, ip);
    }
    if count: nat, at: nat :| FoundAt(d, next, rest, count, at, ip) {
      assert FoundAt(d, o, left, count + 1, at, ip);
    }
  }

  lemma {:induction false} NothingThere(d: seq<byte>, o: nat, left: nat, ip: seq<byte>)
    requires var p := SkipName(d, o, 0); p + 10 > |d| || p + 10 + Get16(d, p + 8) > |d|
    ensures forall count: nat, at: nat :: !FoundAt(d, o, left, count, at, ip)
  {
    hide SkipName, Get16;
  }

  /** When a datagram counts at all: from port 53 to the port of a pending query, with lengths inside the datagram,
      its id and the response bit; an error code then fails the query. */
  lemma {:induction false} HeardMeaning(p: seq<byte>, id: nat, port: nat)
    ensures Heard(p, id, port) != Ignored <==>
              && |p| >= 20 && Get16(p, 0) == 53 && Get16(p, 2) == port && 20 <= Get16(p, 4) <= |p|
              && id != 0 && Get16(p, 8) == id && p[10] >= 128
    ensures Heard(p, id, port) != Ignored && p[11] % 16 != 0 ==> Heard(p, id, port) == Failed
    ensures Heard(p, id, port) != Ignored && p[11] % 16 == 0 ==>
              var d := p[8..Get16(p, 4)];
              match SkipQuestions(d, 12, Get16(p, 12))
              case None => Heard(p, id, port) == Failed
              case Some(o) => Heard(p, id, port) == ScanRecords(d, o, Get16(p, 14))
  {
    hide SkipQuestions, ScanRecords;
    if |p| >= 8 && 20 <= Get16(p, 4) <= |p| {
      var d := p[8..Get16(p, 4)];
      assert d[0] == p[8] && d[1] == p[9] && d[2] == p[10] && d[3] == p[11];
      assert d[4] == p[12] && d[5] == p[13] && d[6] == p[14] && d[7] == p[15];
    }
  }
}
