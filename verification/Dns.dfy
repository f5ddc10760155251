/** The DNS codec of kernel/net.c (RFC 1035, section 4.1): query names out, responses in. */
module Dns {
  import opened Bytes

  const DOT: byte := 46
  const QUERY_LIMIT: nat := 500
  const MAX_SKIPS: nat := 128
  const TYPE_A: nat := 1
  const CLASS_IN: nat := 1

  type Label = seq<byte>

  predicate GoodLabel(l: Label) {
    1 <= |l| <= 63
  }

  predicate GoodLabels(labels: seq<Label>) {
    forall i :: 0 <= i < |labels| ==> GoodLabel(labels[i])
  }

  /** Labels on the wire, without the end of the name. */
  function Wire(labels: seq<Label>): (w: seq<byte>)
    requires GoodLabels(labels)
    ensures 2 * |labels| <= |w|
  {
    if labels == [] then [] else [|labels[0]|] + labels[0] + Wire(labels[1..])
  }

  // Host names

  /** The end of the label that starts at `s`. */
  function LabelEnd(host: seq<byte>, s: nat): (e: nat)
    requires s <= |host|
    ensures s <= e <= |host| && (e < |host| ==> host[e] == DOT) && forall i :: s <= i < e ==> host[i] != DOT
    decreases |host| - s
  {
    if s < |host| && host[s] != DOT then LabelEnd(host, s + 1) else s
  }

  lemma {:induction false} LabelEndStep(host: seq<byte>, s: nat)
    requires s <= |host|
    ensures if s < |host| && host[s] != DOT then LabelEnd(host, s) == LabelEnd(host, s + 1) else LabelEnd(host, s) == s
  {
  }

  function Behind(host: seq<byte>, e: nat): (s: nat)
    requires e <= |host|
    ensures e <= s <= |host|
  {
    if e < |host| then e + 1 else e
  }

  /** The dot-separated labels from `s` on; one dot may end the name. */
  function LabelsOf(host: seq<byte>, s: nat): seq<Label>
    requires s <= |host|
    decreases |host| - s
  {
    if s == |host| then []
    else
      var e := LabelEnd(host, s);
      [host[s..e]] + LabelsOf(host, Behind(host, e))
  }

  /** Every label followed by a dot. */
  function Dotted(labels: seq<Label>): seq<byte> {
    if labels == [] then [] else labels[0] + [DOT] + Dotted(labels[1..])
  }

  /** The labels are the host name's: put back together they spell it, with or without its last dot, and no label
      contains a dot. */
  lemma {:induction false} LabelsSpell(host: seq<byte>, s: nat)
    requires s <= |host|
    ensures var l := LabelsOf(host, s);
            && (Dotted(l) == host[s..] || Dotted(l) == host[s..] + [DOT])
            && (forall i :: 0 <= i < |l| ==> DOT !in l[i])
    decreases |host| - s
  {
    hide LabelEnd, Dotted;
    if s == |host| {
      NothingDotted();
      assert host[s..] == [];
    } else {
      var e := LabelEnd(host, s);
      var t := Behind(host, e);
      LabelsSpell(host, t);
      var w, rest := host[s..e], LabelsOf(host, t);
      assert LabelsOf(host, s) == [w] + rest;
      hide LabelsOf;
      DottedCons(w, rest);
      if e < |host| {
        assert w + [DOT] + host[t..] == host[s..];
        assert w + [DOT] + (host[t..] + [DOT]) == host[s..] + [DOT];
      } else {
        LabelsEnd(host);
        NothingDotted();
        assert w == host[s..] && w + [DOT] + [] == host[s..] + [DOT];
      }
    }
  }

  lemma {:induction false} LabelsEnd(host: seq<byte>)
    ensures LabelsOf(host, |host|) == []
  {
  }

  lemma {:induction false} NothingDotted()
    ensures Dotted([]) == []
  {
  }

  lemma {:induction false} DottedCons(l: Label, rest: seq<Label>)
    ensures Dotted([l] + rest) == l + [DOT] + Dotted(rest)
  {
    assert ([l] + rest)[1..] == rest;
  }

  // The query

  /** What the encoder of `dns_lookup` writes for the labels from `s` on, the first length byte at offset `o`. */
  function QName(host: seq<byte>, s: nat, o: nat): Option<seq<byte>>
    requires s <= |host|
    decreases |host| - s
  {
    if s == |host| then Some([0])
    else
      var e := LabelEnd(host, s);
      var n := e - s;
      if n == 0 || n > 63 || o + n >= QUERY_LIMIT then None
      else
        match QName(host, Behind(host, e), o + 1 + n)
        case None => None
        case Some(rest) => Some([n] + host[s..e] + rest)
  }

  /** A host name is accepted exactly when its labels have 1 to 63 bytes and fit, and then it is they that are
      written. */
  lemma {:induction false} QNameMeaning(host: seq<byte>, s: nat, o: nat)
    requires s <= |host| && o <= QUERY_LIMIT
    ensures var l := LabelsOf(host, s);
            QName(host, s, o)
            == if GoodLabels(l) && o + |Wire(l)| <= QUERY_LIMIT then Some(Wire(l) + [0]) else None
    decreases |host| - s
  {
    var l := LabelsOf(host, s);
    if s == |host| {
      assert Wire([]) + [0] == [0];
    } else {
      var e := LabelEnd(host, s);
      var t, n := Behind(host, e), e - s;
      var rest := LabelsOf(host, t);
      assert l == [host[s..e]] + rest && l[0] == host[s..e] && l[1..] == rest;
      GoodCons(host[s..e], rest);
      if 1 <= n <= 63 && o + n < QUERY_LIMIT {
        QNameMeaning(host, t, o + 1 + n);
        if GoodLabels(rest) {
          assert [n] + host[s..e] + (Wire(rest) + [0]) == [n] + host[s..e] + Wire(rest) + [0];
        }
      }
    }
  }

  lemma {:induction false} GoodCons(l: Label, rest: seq<Label>)
    ensures GoodLabels([l] + rest) <==> GoodLabel(l) && GoodLabels(rest)
  {
    if GoodLabels([l] + rest) {
      assert ([l] + rest)[0] == l;
      assert forall i :: 0 <= i < |rest| ==> rest[i] == ([l] + rest)[i + 1];
    }
  }

  /** Labels read back from the wire up to the root label; the second component is the position behind it. */
  function ReadName(d: seq<byte>, o: nat): Option<(seq<Label>, nat)>
    decreases |d| - o
  {
    if o >= |d| then None
    else if d[o] == 0 then Some(([], o + 1))
    else if d[o] > 63 || o + 1 + d[o] > |d| then None
    else
      match ReadName(d, o + 1 + d[o])
      case None => None
      case Some((rest, end)) => Some(([d[o + 1..o + 1 + d[o]]] + rest, end))
  }

  lemma {:induction false} WireStep(d: seq<byte>, o: nat, labels: seq<Label>, tail: seq<byte>)
    requires GoodLabels(labels) && labels != [] && o <= |d| && d[o..] == Wire(labels) + tail
    ensures GoodLabels(labels[1..])
    ensures var l := labels[0];
            && o + 1 + |l| <= |d| && d[o] == |l| && 1 <= |l| <= 63 && d[o + 1..o + 1 + |l|] == l
            && d[o + 1 + |l|..] == Wire(labels[1..]) + tail && |Wire(labels)| == 1 + |l| + |Wire(labels[1..])|
  {
    var l := labels[0];
    assert GoodLabel(l);
    var w := Wire(labels[1..]);
    Assoc([|l|] + l, w, tail);
    hide Wire, GoodLabels, GoodLabel;
    FrontSlices(d, o, l, w + tail);
  }

  lemma {:induction false} FrontSlices(d: seq<byte>, o: nat, l: Label, rest: seq<byte>)
    requires |l| < 256 && o <= |d| && d[o..] == [|l|] + l + rest
    ensures o + 1 + |l| <= |d| && d[o] == |l| && d[o + 1..o + 1 + |l|] == l && d[o + 1 + |l|..] == rest
  {
    assert |d[o..]| == 1 + |l| + |rest|;
    assert d[o] == d[o..][0];
    assert d[o + 1..o + 1 + |l|] == d[o..][1..1 + |l|];
    assert d[o + 1 + |l|..] == d[o..][1 + |l|..];
  }

  lemma {:induction false} WireReadsBack(d: seq<byte>, o: nat, labels: seq<Label>, tail: seq<byte>)
    requires GoodLabels(labels) && o <= |d| && d[o..] == Wire(labels) + ([0] + tail)
    ensures ReadName(d, o) == Some((labels, o + |Wire(labels)| + 1))
    decreases |labels|
  {
    if labels == [] {
      assert d[o] == d[o..][0] == 0;
    } else {
      WireStep(d, o, labels, [0] + tail);
      WireReadsBack(d, o + 1 + |labels[0]|, labels[1..], tail);
      assert labels == [labels[0]] + labels[1..];
    }
  }

  /** The query message: recursion desired, one question of type A and class IN. */
  function Query(id: nat, name: seq<byte>): seq<byte>
    requires id < U16
  {
    Front(id) + name + Put16(TYPE_A) + Put16(CLASS_IN)
  }

  /** The question of an accepted host name reads back as its labels, and skipping the name stops at QTYPE exactly
      when it has at most 127 labels. */
  lemma {:induction false} QueryReadsBack(host: seq<byte>, id: nat)
    requires id < U16 && QName(host, 0, 12).Some?
    ensures var q := Query(id, QName(host, 0, 12).value);
            var o := |q| - 4;
            && ReadName(q, 12) == Some((LabelsOf(host, 0), o))
            && Get16(q, o) == 1 && Get16(q, o + 2) == 1
            && Get16(q, 0) == id && Get16(q, 2) == 0x0100 && Get16(q, 4) == 1 && q[6..12] == [0, 0, 0, 0, 0, 0]
            && (SkipName(q, 12, 0) == o <==> |LabelsOf(host, 0)| <= 127)
  {
    hide Query, QName, LabelsOf, Wire, Put16, Get16, SkipName, ReadName;
    AcceptedName(host);
    var l := LabelsOf(host, 0);
    var name, tail := Wire(l) + [0], Put16(TYPE_A) + Put16(CLASS_IN);
    QueryTail(id, name);
    var q := Query(id, name);
    Assoc(Wire(l), [0], tail);
    WireReadsBack(q, 12, l, tail);
    WireSkips(q, 12, 0, l, Root, tail);
  }

  lemma {:induction false} AcceptedName(host: seq<byte>)
    requires QName(host, 0, 12).Some?
    ensures var l := LabelsOf(host, 0); GoodLabels(l) && QName(host, 0, 12) == Some(Wire(l) + [0])
  {
    hide QName, LabelsOf, Wire;
    QNameMeaning(host, 0, 12);
  }

  /** A host name of n one-byte labels. */
  function ManyLabels(n: nat): (h: seq<byte>)
    ensures |h| == 2 * n
  {
    if n == 0 then [] else [0x61, DOT] + ManyLabels(n - 1)
  }

  lemma {:induction false} LabelsOfMany(host: seq<byte>, s: nat, n: nat)
    requires s <= |host| && host[s..] == ManyLabels(n)
    ensures var l := LabelsOf(host, s); |l| == n && GoodLabels(l) && |Wire(l)| == 2 * n
    decreases n
  {
    if n > 0 {
      var rest := host[s..];
      assert host[s] == rest[0] && host[s + 1] == rest[1] == DOT && host[s + 2..] == rest[2..] == ManyLabels(n - 1);
      LabelEndStep(host, s);
      LabelEndStep(host, s + 1);
      hide LabelEnd;
      LabelsOfMany(host, s + 2, n - 1);
      var l, more := LabelsOf(host, s), LabelsOf(host, s + 2);
      assert l == [host[s..s + 1]] + more && l[0] == host[s..s + 1] && l[1..] == more;
      GoodCons(host[s..s + 1], more);
    }
  }

  /** Accepted names that the response reader cannot skip: those of 128 to 244 one-byte labels. */
  lemma {:induction false} LongNameNotSkipped(n: nat, id: nat)
    requires 128 <= n <= 244 && id < U16
    ensures QName(ManyLabels(n), 0, 12).Some?
    ensures var q := Query(id, QName(ManyLabels(n), 0, 12).value); SkipName(q, 12, 0) != |q| - 4
  {
    hide QName, SkipName, Query, ManyLabels, Wire;
    var host := ManyLabels(n);
    assert host[0..] == host;
    LabelsOfMany(host, 0, n);
    QNameMeaning(host, 0, 12);
    QueryReadsBack(host, id);
  }

  lemma {:induction false} QueryTail(id: nat, name: seq<byte>)
    requires id < U16
    ensures var q := Query(id, name);
            && |q| == 16 + |name| && q[12..] == name + (Put16(TYPE_A) + Put16(CLASS_IN))
            && Get16(q, |q| - 4) == TYPE_A && Get16(q, |q| - 2) == CLASS_IN
            && Get16(q, 0) == id && Get16(q, 2) == 0x0100 && Get16(q, 4) == 1 && q[6..12] == [0, 0, 0, 0, 0, 0]
  {
    var q := Query(id, name);
    var front := Front(id);
    assert q == front + (name + (Put16(TYPE_A) + Put16(CLASS_IN)));
    var o := 12 + |name|;
    assert q[o..] == Put16(TYPE_A) + Put16(CLASS_IN);
    assert q[o] == q[o..][0] && q[o + 1] == q[o..][1] && q[o + 2] == q[o..][2] && q[o + 3] == q[o..][3];
  }

  /** The encoder of `dns_lookup`: false when a label is empty or too long or the name does not fit. */
  method EncodeQuery(q: array<byte>, host: seq<byte>, id: nat) returns (size: nat, ok: bool)
    requires q.Length == 512 && id < U16 && host != []
    modifies q
    ensures ok == QName(host, 0, 12).Some?
    ensures ok ==> var m := Query(id, QName(host, 0, 12).value); size == |m| <= 512 && q[..size] == m
  {
    hide QName, Query, LabelEnd, Wire, Front;
    BeginQuery(q, id);
    var o, s := 12, 0;
    ghost var name: seq<byte> := [];
    assert Front(id) + name == Front(id);
    PrefixNothing(QName(host, 0, 12));
    while s < |host|
      invariant s <= |host| && 12 <= o <= QUERY_LIMIT && o == 12 + |name| && q[..o] == Front(id) + name
      invariant QName(host, 0, 12) == Prefixed(name, QName(host, s, o))
      decreases |host| - s
    {
      QNameStep(host, s, o);
      ghost var before := s;
      var end, good := WriteLabel(q, host, s, o);
      if !good { return 0, false; }
      ghost var piece := [end - before] + host[before..end];
      Assoc(Front(id), name, piece);
      o := o + 1 + (end - s);
      PrefixedMore(name, piece, QName(host, Behind(host, end), o));
      name := name + piece;
      s := if end < |host| then end + 1 else end;
    }
    QNameEnd(host, o);
    EndQuery(q, o, id, name);
    size, ok := o + 5, true;
  }

  function Front(id: nat): (f: seq<byte>)
    requires id < U16
    ensures |f| == 12
  {
    Put16(id) + Put16(0x0100) + Put16(1) + Zeros(6)
  }

  method BeginQuery(q: array<byte>, id: nat)
    requires q.Length == 512 && id < U16
    modifies q
    ensures q[..12] == Front(id)
  {
    hide Put16, Splice;
    CopyInto(q, 0, Zeros(512));
    FrontFields(q[..], Put16(id), Put16(0x0100), Put16(1));
    CopyInto(q, 0, Put16(id));
    CopyInto(q, 2, Put16(0x0100));
    CopyInto(q, 4, Put16(1));
  }

  lemma {:induction false} FrontFields(z: seq<byte>, a: seq<byte>, b: seq<byte>, c: seq<byte>)
    requires |z| == 512 && z[0..0 + 512] == Zeros(512) && |a| == 2 && |b| == 2 && |c| == 2
    ensures Splice(Splice(Splice(z, 0, a), 2, b), 4, c)[..12] == a + b + c + Zeros(6)
  {
    hide Splice;
    var y := Splice(z, 0, a);
    var x := Splice(y, 2, b);
    var w := Splice(x, 4, c);
    assert z == Zeros(512);
    assert w[0] == x[0] == y[0] == y[0..2][0] && w[1] == x[1] == y[1] == y[0..2][1];
    assert w[2] == x[2] == x[2..4][0] && w[3] == x[3] == x[2..4][1];
    assert w[4] == w[4..6][0] && w[5] == w[4..6][1];
    assert forall i :: 6 <= i < 12 ==> w[i] == x[i] == y[i] == z[i] == 0;
  }

  method EndQuery(q: array<byte>, o: nat, id: nat, ghost name: seq<byte>)
    requires q.Length == 512 && id < U16 && o == 12 + |name| <= QUERY_LIMIT && q[..o] == Front(id) + name
    modifies q
    ensures q[..o + 5] == Query(id, name + [0])
  {
    hide Put16, Front, Query;
    q[o] := 0;
    CopyInto(q, o + 1, Put16(TYPE_A));
    CopyInto(q, o + 3, Put16(CLASS_IN));
    assert q[o + 1..o + 3] == Put16(TYPE_A);
    QueryParts(q[..o + 5], id, name);
  }

  /** One label behind its length byte; the length byte is filled in last. */
  method WriteLabel(q: array<byte>, host: seq<byte>, start: nat, lp: nat) returns (s: nat, ok: bool)
    requires q.Length == 512 && start < |host| && lp <= QUERY_LIMIT
    modifies q
    ensures s <= |host|
    ensures ok == (0 < LabelEnd(host, start) - start <= 63 && lp + LabelEnd(host, start) - start < QUERY_LIMIT)
    ensures ok ==> s == LabelEnd(host, start)
    ensures ok ==> q[..lp + 1 + s - start] == old(q[..lp]) + ([s - start] + host[start..s])
  {
    hide LabelEnd, Splice;
    ghost var z := q[..];
    LabelEndStep(host, start);
    if lp + 1 >= QUERY_LIMIT { return start, false; }
    s, ok := CopyLabel(q, host, start, lp + 1);
    if !ok { return; }
    var n := s - start;
    if n == 0 { return s, false; }
    LabelPlaced(z, lp, n, host[start..s]);
    q[lp] := n;
  }

  /** The characters of one label, at most 63 and below the limit. */
  method CopyLabel(q: array<byte>, host: seq<byte>, start: nat, at: nat) returns (s: nat, ok: bool)
    requires q.Length == 512 && start < |host| && at <= QUERY_LIMIT
    modifies q
    ensures s <= |host|
    ensures ok == (LabelEnd(host, start) - start <= 63 && at + LabelEnd(host, start) - start <= QUERY_LIMIT)
    ensures ok ==> s == LabelEnd(host, start) && at + s - start <= 512
                   && q[..] == Splice(old(q[..]), at, host[start..s])
  {
    hide LabelEnd, Splice, Copied;
    s := start;
    ghost var z := q[..];
    CopiedNothing(z, at, host, start);
    while s < |host| && host[s] != DOT
      invariant start <= s <= LabelEnd(host, start) && s - start <= 63 && at + s - start <= QUERY_LIMIT
      invariant LabelEnd(host, s) == LabelEnd(host, start)
      invariant Copied(q[..], z, at, host, start, s)
    {
      LabelEndStep(host, s);
      if s - start >= 63 || at + s - start >= QUERY_LIMIT { return s, false; }
      CopiedMore(q[..], z, at, host, start, s);
      q[at + s - start] := host[s];
      s := s + 1;
    }
    LabelEndStep(host, s);
    CopiedMeans(q[..], z, at, host, start, s);
    ok := true;
  }

  /** The characters from `start` to `s` are in place, everything else is as it was. */
  ghost predicate Copied(r: seq<byte>, z: seq<byte>, at: nat, host: seq<byte>, start: nat, s: nat) {
    start <= s <= |host| && at + (s - start) <= |z| && r == Splice(z, at, host[start..s])
  }

  lemma {:induction false} CopiedNothing(z: seq<byte>, at: nat, host: seq<byte>, start: nat)
    requires at <= |z| && start <= |host|
    ensures Copied(z, z, at, host, start, start)
  {
    SpliceNothing(z, at);
    assert host[start..start] == [];
  }

  lemma {:induction false} CopiedMore(r: seq<byte>, z: seq<byte>, at: nat, host: seq<byte>, start: nat, s: nat)
    requires Copied(r, z, at, host, start, s) && start <= s < |host| && at + (s + 1 - start) <= |z| == |r|
    ensures Copied(r[at + s - start := host[s]], z, at, host, start, s + 1)
  {
    SpliceOneMore(z, at, host, start, s);
  }

  lemma {:induction false} CopiedMeans(r: seq<byte>, z: seq<byte>, at: nat, host: seq<byte>, start: nat, s: nat)
    requires Copied(r, z, at, host, start, s)
    ensures start <= s <= |host| && at + (s - start) <= |z| && r == Splice(z, at, host[start..s])
  {
  }

  lemma {:induction false} SpliceNothing(z: seq<byte>, at: nat)
    requires at <= |z|
    ensures Splice(z, at, []) == z
  {
  }

  lemma {:induction false} SpliceOneMore(z: seq<byte>, at: nat, host: seq<byte>, start: nat, s: nat)
    requires start <= s < |host| && at + (s + 1 - start) <= |z|
    ensures Splice(z, at, host[start..s])[at + (s - start) := host[s]] == Splice(z, at, host[start..s + 1])
  {
    hide Splice;
    var a, b, n := host[start..s], host[start..s + 1], s - start;
    assert b == a + [host[s]];
    var x, y := Splice(z, at, a)[at + n := host[s]], Splice(z, at, b);
    assert y[at..at + n] == y[at..at + n + 1][..n] == a && y[at + n] == y[at..at + n + 1][n] == host[s];
    assert Splice(z, at, a)[at..at + n] == a;
    forall i | 0 <= i < |z| ensures x[i] == y[i] {
      if at <= i < at + n { assert y[i] == y[at..at + n][i - at] && x[i] == Splice(z, at, a)[at..at + n][i - at]; }
    }
  }

  lemma {:induction false} LabelPlaced(z: seq<byte>, lp: nat, n: byte, w: seq<byte>)
    requires lp + 1 + |w| <= |z|
    ensures Splice(z, lp + 1, w)[lp := n][..lp + 1 + |w|] == z[..lp] + ([n] + w)
  {
    var m := lp + 1 + |w|;
    var y := Splice(z, lp + 1, w);
    var r := y[lp := n];
    assert r[lp + 1..m] == y[lp + 1..m] == w;
    forall i | 0 <= i < lp ensures r[i] == z[i] { assert r[i] == y[i]; }
    assert r[..lp] == z[..lp];
    assert r[..m] == r[..lp] + ([r[lp]] + r[lp + 1..m]);
  }

  ghost function Prefixed(name: seq<byte>, rest: Option<seq<byte>>): Option<seq<byte>> {
    if rest.None? then None else Some(name + rest.value)
  }

  lemma {:induction false} PrefixNothing(rest: Option<seq<byte>>)
    ensures Prefixed([], rest) == rest
  {
    if rest.Some? { assert [] + rest.value == rest.value; }
  }

  lemma {:induction false} PrefixedMore(name: seq<byte>, piece: seq<byte>, rest: Option<seq<byte>>)
    ensures Prefixed(name, Prefixed(piece, rest)) == Prefixed(name + piece, rest)
  {
    if rest.Some? { assert name + (piece + rest.value) == name + piece + rest.value; }
  }

  lemma {:induction false} QNameStep(host: seq<byte>, s: nat, o: nat)
    requires s < |host|
    ensures var e := LabelEnd(host, s);
            && (e == s || e - s > 63 || o + e - s >= QUERY_LIMIT ==> QName(host, s, o).None?)
            && (0 < e - s <= 63 && o + e - s < QUERY_LIMIT ==>
                  QName(host, s, o) == Prefixed([e - s] + host[s..e], QName(host, Behind(host, e), o + 1 + e - s)))
  {
  }

  lemma {:induction false} QNameEnd(host: seq<byte>, o: nat)
    ensures QName(host, |host|, o) == Some([0])
  {
  }

  lemma {:induction false} QueryParts(q: seq<byte>, id: nat, name: seq<byte>)
    requires id < U16 && |q| == 17 + |name|
    requires q[..12 + |name|] == Front(id) + name && q[12 + |name|] == 0
    requires q[13 + |name|..15 + |name|] == Put16(TYPE_A) && q[15 + |name|..] == Put16(CLASS_IN)
    ensures q == Query(id, name + [0])
  {
    hide Put16, Front;
    var o := 12 + |name|;
    var front := Front(id);
    assert q == q[..o] + [q[o]] + q[o + 1..o + 3] + q[o + 3..];
    assert front + name + [0] == front + (name + [0]);
  }

  // Names in responses

  datatype NameEnd = Root | Pointer(hi: nat, lo: byte)

  predicate GoodEnd(e: NameEnd) {
    e.Pointer? ==> e.hi < 64
  }

  function EndBytes(e: NameEnd): (b: seq<byte>)
    requires GoodEnd(e)
    ensures 1 <= |b| <= 2
  {
    if e.Root? then [0] else [192 + e.hi, e.lo]
  }

  /** `dns_skip_name`: the position behind the name at `o`, or one past the end; `labels` counts the turns so far. */
  function SkipName(d: seq<byte>, o: nat, labels: nat): nat
    decreases |d| - o
  {
    if o >= |d| || labels >= MAX_SKIPS then |d| + 1
    else if d[o] == 0 then o + 1
    else if d[o] >= 192 then o + 2
    else if d[o] > 63 || o + 1 + d[o] > |d| then |d| + 1
    else SkipName(d, o + 1 + d[o], labels + 1)
  }

  method SkipNameLoop(d: seq<byte>, start: nat) returns (end: nat)
    ensures end == SkipName(d, start, 0)
  {
    var o, labels := start, 0;
    while o < |d| && labels < MAX_SKIPS
      invariant labels <= MAX_SKIPS && SkipName(d, start, 0) == SkipName(d, o, labels)
      decreases |d| - o
    {
      labels := labels + 1;
      var z := d[o];
      if z == 0 { return o + 1; }
      if z >= 192 { return o + 2; }
      if z >= 64 || o + 1 + z > |d| { return |d| + 1; }
      o := o + 1 + z;
    }
    return |d| + 1;
  }

  /** Skipping a well-formed name stops right behind it exactly when the loop's budget covers its labels. */
  lemma {:induction false} WireSkips(d: seq<byte>, o: nat, k: nat, labels: seq<Label>, e: NameEnd, tail: seq<byte>)
    requires GoodLabels(labels) && GoodEnd(e) && o <= |d| && d[o..] == Wire(labels) + (EndBytes(e) + tail)
    ensures SkipName(d, o, k)
         == if k + |labels| < MAX_SKIPS then o + |Wire(labels)| + |EndBytes(e)| else |d| + 1
    decreases |labels|
  {
    if labels == [] {
      assert d[o] == d[o..][0] == EndBytes(e)[0];
    } else {
      WireStep(d, o, labels, EndBytes(e) + tail);
      WireSkips(d, o + 1 + |labels[0]|, k + 1, labels[1..], e, tail);
    }
  }

  /** A name of RFC 1035, section 3.1: at most 255 bytes. */
  datatype Name = Name(labels: seq<Label>, end: NameEnd)

  predicate GoodName(n: Name) {
    GoodLabels(n.labels) && GoodEnd(n.end) && |Wire(n.labels)| + |EndBytes(n.end)| <= 255
  }

  function NameBytes(n: Name): seq<byte>
    requires GoodName(n)
  {
    Wire(n.labels) + EndBytes(n.end)
  }

  /** Every name within the limit is skipped exactly: 255 bytes hold at most 127 labels. */
  lemma {:induction false} NameSkips(d: seq<byte>, o: nat, n: Name, tail: seq<byte>)
    requires GoodName(n) && o <= |d| && d[o..] == NameBytes(n) + tail
    ensures SkipName(d, o, 0) == o + |NameBytes(n)| <= |d|
  {
    hide Wire;
    assert Wire(n.labels) + EndBytes(n.end) + tail == Wire(n.labels) + (EndBytes(n.end) + tail);
    WireSkips(d, o, 0, n.labels, n.end, tail);
  }

  // Responses

  datatype Question = Question(name: Name, qtype: nat, qclass: nat)

  predicate GoodQuestion(q: Question) {
    GoodName(q.name) && q.qtype < U16 && q.qclass < U16
  }

  function QuestionBytes(q: Question): seq<byte>
    requires GoodQuestion(q)
  {
    NameBytes(q.name) + (Put16(q.qtype) + Put16(q.qclass))
  }

  datatype Record = Record(name: Name, rtype: nat, rclass: nat, ttl: nat, rdata: seq<byte>)

  predicate GoodRecord(r: Record) {
    GoodName(r.name) && r.rtype < U16 && r.rclass < U16 && r.ttl < U32 && |r.rdata| < U16
  }

  function Fixed(r: Record): (b: seq<byte>)
    requires GoodRecord(r)
    ensures |b| == 10 && Get16(b, 0) == r.rtype && Get16(b, 2) == r.rclass && Get16(b, 8) == |r.rdata|
  {
    Put16(r.rtype) + Put16(r.rclass) + Put32(r.ttl) + Put16(|r.rdata|)
  }

  function RecordBytes(r: Record): seq<byte>
    requires GoodRecord(r)
  {
    NameBytes(r.name) + (Fixed(r) + r.rdata)
  }

  predicate GoodQuestions(qs: seq<Question>) {
    forall i :: 0 <= i < |qs| ==> GoodQuestion(qs[i])
  }

  predicate GoodRecords(rs: seq<Record>) {
    forall i :: 0 <= i < |rs| ==> GoodRecord(rs[i])
  }

  function QuestionsBytes(qs: seq<Question>): seq<byte>
    requires GoodQuestions(qs)
  {
    if qs == [] then [] else QuestionBytes(qs[0]) + QuestionsBytes(qs[1..])
  }

  function RecordsBytes(rs: seq<Record>): seq<byte>
    requires GoodRecords(rs)
  {
    if rs == [] then [] else RecordBytes(rs[0]) + RecordsBytes(rs[1..])
  }

  /** The address in the first A/IN record of length 4. */
  function FirstAddress(rs: seq<Record>): Option<seq<byte>> {
    if rs == [] then None
    else if rs[0].rtype == TYPE_A && rs[0].rclass == CLASS_IN && |rs[0].rdata| == 4 then Some(rs[0].rdata)
    else FirstAddress(rs[1..])
  }

  /** `dns_done` and `dns_answer` after a datagram: untouched, -1, or 1 with an address. */
  datatype Outcome = Ignored | Failed | Answered(ip: seq<byte>)

  /** The position behind `left` questions at `o`; None when one runs past the end. */
  function SkipQuestions(d: seq<byte>, o: nat, left: nat): (r: Option<nat>)
    requires o <= |d|
    ensures r.Some? ==> r.value <= |d|
    decreases left
  {
    if left == 0 then Some(o)
    else
      var p := SkipName(d, o, 0);
      if p + 4 > |d| then None else SkipQuestions(d, p + 4, left - 1)
  }

  /** The outcome of scanning `left` answer records at `o`. */
  function ScanRecords(d: seq<byte>, o: nat, left: nat): (r: Outcome)
    requires o <= |d|
    ensures !r.Ignored? && (r.Answered? ==> |r.ip| == 4)
    decreases left
  {
    if left == 0 then Failed
    else
      var p := SkipName(d, o, 0);
      if p + 10 > |d| then Failed
      else
        var size := Get16(d, p + 8);
        if p + 10 + size > |d| then Failed
        else if Get16(d, p) == TYPE_A && Get16(d, p + 2) == CLASS_IN && size == 4 then Answered(d[p + 10..p + 14])
        else ScanRecords(d, p + 10 + size, left - 1)
  }

  /** The meaning of a DNS message for the query `id`. */
  function Understood(d: seq<byte>, id: nat): Outcome {
    if |d| < 12 || Get16(d, 0) != id || Get16(d, 2) < 0x8000 then Ignored
    else if Get16(d, 2) % 16 != 0 then Failed
    else
      match SkipQuestions(d, 12, Get16(d, 4))
      case None => Failed
      case Some(o) => ScanRecords(d, o, Get16(d, 6))
  }

  /** The meaning of a UDP datagram while query `id` is pending on `port`. */
  function Heard(p: seq<byte>, id: nat, port: nat): Outcome {
    if |p| < 8 || Get16(p, 4) < 8 || Get16(p, 4) > |p| then Ignored
    else if Get16(p, 0) != 53 || id == 0 || Get16(p, 2) != port then Ignored
    else Understood(p[8..Get16(p, 4)], id)
  }

  method SkipQuestionsLoop(d: seq<byte>, questions: nat) returns (r: Option<nat>)
    requires |d| >= 12
    ensures r == SkipQuestions(d, 12, questions)
  {
    hide SkipName;
    var o: nat := 12;
    for q := 0 to questions
      invariant o <= |d| && SkipQuestions(d, 12, questions) == SkipQuestions(d, o, questions - q)
    {
      o := SkipNameLoop(d, o);
      if o > |d| || o + 4 > |d| { return None; }
      o := o + 4;
    }
    return Some(o);
  }

  method ScanLoop(d: seq<byte>, start: nat, answers: nat) returns (found: Outcome)
    requires start <= |d|
    ensures found == ScanRecords(d, start, answers)
  {
    hide SkipName, ScanRecords;
    var o: nat := start;
    for a := 0 to answers
      invariant o <= |d| && ScanRecords(d, start, answers) == ScanRecords(d, o, answers - a)
    {
      ScanTurn(d, o, answers - a);
      o := SkipNameLoop(d, o);
      if o > |d| || o + 10 > |d| { return Failed; }
      var rtype, rclass, rdl := Get16(d, o), Get16(d, o + 2), Get16(d, o + 8);
      o := o + 10;
      if o + rdl > |d| { return Failed; }
      if rtype == TYPE_A && rclass == CLASS_IN && rdl == 4 { return Answered(d[o..o + 4]); }
      o := o + rdl;
    }
    ScanNothing(d, o);
    return Failed;
  }

  /** One turn over the answer records. */
  lemma {:induction false} ScanTurn(d: seq<byte>, o: nat, left: nat)
    requires o <= |d| && left > 0
    ensures var p := SkipName(d, o, 0);
            && (p + 10 > |d| ==> ScanRecords(d, o, left) == Failed)
            && (p + 10 <= |d| ==>
                  var next := p + 10 + Get16(d, p + 8);
                  && (next > |d| ==> ScanRecords(d, o, left) == Failed)
                  && (next <= |d| ==>
                        ScanRecords(d, o, left)
                        == if Get16(d, p) == TYPE_A && Get16(d, p + 2) == CLASS_IN && next == p + 14
                           then Answered(d[p + 10..p + 14]) else ScanRecords(d, next, left - 1)))
  {
    hide SkipName, Get16;
  }

  class Resolver {
    var id: nat
    var port: nat
    var done: int
    var answer: seq<byte>

    /** `handle_udp`. */
    method HandleUdp(p: seq<byte>)
      modifies this`done, this`answer
      ensures match Heard(p, id, port)
              case Ignored => done == old(done) && answer == old(answer)
              case Failed => done == -1 && answer == old(answer)
              case Answered(ip) => done == 1 && answer == ip
    {
      hide SkipName, SkipQuestions, ScanRecords;
      if |p| < 8 { return; }
      var sp, dp, size := Get16(p, 0), Get16(p, 2), Get16(p, 4);
      if size < 8 || size > |p| || sp != 53 || id == 0 || dp != port { return; }
      var d := p[8..size];
      var n := size - 8;
      if n < 12 || Get16(d, 0) != id || Get16(d, 2) < 0x8000 { return; }
      if Get16(d, 2) % 16 != 0 {
        done := -1;
        return;
      }
      var questions, answers := Get16(d, 4), Get16(d, 6);
      var skipped := SkipQuestionsLoop(d, questions);
      if skipped.None? {
        done := -1;
        return;
      }
      var found := ScanLoop(d, skipped.value, answers);
      if found.Answered? {
        answer := found.ip;
        done := 1;
        return;
      }
      done := -1;
    }
  }

  // Well-formed responses are understood

  lemma {:induction false} QuestionsSkipped(d: seq<byte>, o: nat, qs: seq<Question>, tail: seq<byte>)
    requires GoodQuestions(qs) && o <= |d| && d[o..] == QuestionsBytes(qs) + tail
    ensures SkipQuestions(d, o, |qs|) == Some(o + |QuestionsBytes(qs)|) && d[o + |QuestionsBytes(qs)|..] == tail
    decreases |qs|
  {
    hide SkipName, NameBytes;
    if qs != [] {
      var q, rest := qs[0], QuestionsBytes(qs[1..]);
      assert GoodQuestion(q);
      var name, fixed := NameBytes(q.name), Put16(q.qtype) + Put16(q.qclass);
      Assoc(QuestionBytes(q), rest, tail);
      Assoc(name, fixed, rest + tail);
      NameSkips(d, o, q.name, fixed + (rest + tail));
      var p := o + |name|;
      Behind2(d, o, name, fixed, rest + tail);
      QuestionsSkipped(d, p + 4, qs[1..], tail);
    }
  }

  lemma {:induction false} Behind2(d: seq<byte>, o: nat, a: seq<byte>, b: seq<byte>, c: seq<byte>)
    requires o <= |d| && d[o..] == a + (b + c)
    ensures |d| == o + |a| + |b| + |c| && d[o + |a|..o + |a| + |b|] == b && d[o + |a| + |b|..] == c
  {
    var m, n := |a|, |a| + |b|;
    var z := a + (b + c);
    assert |d| == o + n + |c|;
    assert z[m..n] == b && z[n..] == c;
    assert d[o + m..o + n] == d[o..][m..n];
    assert d[o + n..] == d[o..][n..];
  }

  lemma {:induction false} ScanStep(d: seq<byte>, o: nat, left: nat, r: Record)
    requires left > 0 && o <= |d| && GoodRecord(r)
    requires var p := SkipName(d, o, 0);
             p + 10 + |r.rdata| <= |d| && d[p..p + 10] == Fixed(r) && d[p + 10..p + 10 + |r.rdata|] == r.rdata
    ensures ScanRecords(d, o, left)
         == if r.rtype == TYPE_A && r.rclass == CLASS_IN && |r.rdata| == 4 then Answered(r.rdata)
            else ScanRecords(d, SkipName(d, o, 0) + 10 + |r.rdata|, left - 1)
  {
    hide SkipName, Fixed, GoodName;
    FixedAt(d, SkipName(d, o, 0), Fixed(r));
  }

  lemma {:induction false} RecordsScanned(d: seq<byte>, o: nat, rs: seq<Record>, tail: seq<byte>)
    requires GoodRecords(rs) && o <= |d| && d[o..] == RecordsBytes(rs) + tail
    ensures ScanRecords(d, o, |rs|) == match FirstAddress(rs) case Some(ip) => Answered(ip) case None => Failed
    decreases |rs|
  {
    hide SkipName, NameBytes, Fixed, ScanRecords;
    if rs == [] {
      ScanNothing(d, o);
    } else {
      var r, rest := rs[0], RecordsBytes(rs[1..]);
      assert GoodRecord(r);
      var name, fixed := NameBytes(r.name), Fixed(r);
      Assoc(RecordBytes(r), rest, tail);
      Assoc(name, fixed + r.rdata, rest + tail);
      Assoc(fixed, r.rdata, rest + tail);
      NameSkips(d, o, r.name, fixed + r.rdata + (rest + tail));
      var p := o + |name|;
      Behind2(d, o, name, fixed, r.rdata + (rest + tail));
      Behind2(d, p, fixed, r.rdata, rest + tail);
      ScanStep(d, o, |rs|, r);
      RecordsScanned(d, p + 10 + |r.rdata|, rs[1..], tail);
    }
  }

  lemma {:induction false} ScanNothing(d: seq<byte>, o: nat)
    requires o <= |d|
    ensures ScanRecords(d, o, 0) == Failed
  {
  }

  lemma {:induction false} FixedAt(d: seq<byte>, p: nat, f: seq<byte>)
    requires |f| == 10 && p + 10 <= |d| && d[p..p + 10] == f
    ensures Get16(d, p) == Get16(f, 0) && Get16(d, p + 2) == Get16(f, 2) && Get16(d, p + 8) == Get16(f, 8)
  {
    assert f[0] == d[p] && f[1] == d[p + 1] && f[2] == d[p + 2] && f[3] == d[p + 3];
    assert f[8] == d[p + 8] && f[9] == d[p + 9];
  }

  /** A response message; `rest` holds the other two counts, `tail` the sections behind the answers. */
  function Response(id: nat, flags: nat, qs: seq<Question>, rs: seq<Record>, rest: seq<byte>,
                    tail: seq<byte>): seq<byte>
    requires id < U16 && flags < U16 && |qs| < U16 && |rs| < U16 && |rest| == 4 && GoodQuestions(qs) && GoodRecords(rs)
  {
    Put16(id) + Put16(flags) + Put16(|qs|) + Put16(|rs|) + rest + (QuestionsBytes(qs) + (RecordsBytes(rs) + tail))
  }

  lemma {:induction false} ResponseShape(id: nat, flags: nat, qs: seq<Question>, rs: seq<Record>, rest: seq<byte>,
                                         tail: seq<byte>)
    requires id < U16 && flags < U16 && |qs| < U16 && |rs| < U16 && |rest| == 4 && GoodQuestions(qs) && GoodRecords(rs)
    ensures var d := Response(id, flags, qs, rs, rest, tail);
            && 12 <= |d| && Get16(d, 0) == id && Get16(d, 2) == flags && Get16(d, 4) == |qs| && Get16(d, 6) == |rs|
            && d[12..] == QuestionsBytes(qs) + (RecordsBytes(rs) + tail)
  {
    hide QuestionsBytes, RecordsBytes, GoodQuestions, GoodRecords, Put16, Get16;
    ResponseHeader(id, flags, |qs|, |rs|, rest, QuestionsBytes(qs) + (RecordsBytes(rs) + tail));
  }

  lemma {:induction false} ResponseHeader(a: nat, b: nat, c: nat, e: nat, rest: seq<byte>, body: seq<byte>)
    requires a < U16 && b < U16 && c < U16 && e < U16 && |rest| == 4
    ensures var d := Put16(a) + Put16(b) + Put16(c) + Put16(e) + rest + body;
            && |d| == 12 + |body| && Get16(d, 0) == a && Get16(d, 2) == b && Get16(d, 4) == c && Get16(d, 6) == e
            && d[12..] == body
  {
  }

  /** Every well-formed successful response to the pending query yields the first A/IN record of length 4, or a
      failure when there is none. */
  lemma {:induction false} ResponseUnderstood(id: nat, flags: nat, qs: seq<Question>, rs: seq<Record>,
                                              rest: seq<byte>, tail: seq<byte>)
    requires id < U16 && 0x8000 <= flags < U16 && flags % 16 == 0 && |qs| < U16 && |rs| < U16 && |rest| == 4
    requires GoodQuestions(qs) && GoodRecords(rs)
    ensures Understood(Response(id, flags, qs, rs, rest, tail), id)
         == match FirstAddress(rs) case Some(ip) => Answered(ip) case None => Failed
  {
    hide Response, QuestionsBytes, RecordsBytes, SkipQuestions, ScanRecords, FirstAddress, GoodQuestions,
         GoodRecords, Get16;
    var d := Response(id, flags, qs, rs, rest, tail);
    ResponseShape(id, flags, qs, rs, rest, tail);
    QuestionsSkipped(d, 12, qs, RecordsBytes(rs) + tail);
    RecordsScanned(d, 12 + |QuestionsBytes(qs)|, rs, tail);
  }

  /** The same behind a UDP header: source port 53 and the pending query's port. */
  lemma {:induction false} DatagramUnderstood(p: seq<byte>, id: nat, port: nat, m: seq<byte>, pad: seq<byte>,
                                              check: seq<byte>)
    requires 0 < id < U16 && port < U16 && 8 + |m| < U16 && |check| == 2
    requires p == Put16(53) + Put16(port) + Put16(8 + |m|) + check + m + pad
    ensures Heard(p, id, port) == Understood(m, id)
  {
    hide Understood;
    assert p[8..8 + |m|] == m;
  }

  /** The first address is the first: no record before it qualifies. */
  lemma {:induction false} FirstAddressIsFirst(rs: seq<Record>, i: nat)
    requires i < |rs| && rs[i].rtype == 1 && rs[i].rclass == 1 && |rs[i].rdata| == 4
    requires forall j :: 0 <= j < i ==> !(rs[j].rtype == 1 && rs[j].rclass == 1 && |rs[j].rdata| == 4)
    ensures FirstAddress(rs) == Some(rs[i].rdata)
  {
    if i > 0 { FirstAddressIsFirst(rs[1..], i - 1); }
  }
}
