/** The document tree of kernel/aster.c: nodes in one array, linked by parent, first child and next sibling. */
module AsterTree {
  import opened Bytes

  const MAX_NODES: nat := 384
  const MAX_OPEN: nat := 48

  datatype Kind = Root | Element | Text

  datatype Flag = Hidden | Bold | Underline

  /** What the style code reads of a node: id and class attributes and the inline style, where a zero scale or color
      means that none is set. */
  datatype Look = Look(id: string, classes: string, flags: set<Flag>, scale: nat, color: nat)

  const PLAIN := Look("", "", {}, 0, 0)

  datatype Node = Node(kind: Kind, tag: nat, parent: int, first: int, next: int, look: Look)

  // Trees

  /** Parents come before their children; the root is node 0 and has none. */
  predicate Parented(s: seq<Node>) {
    |s| > 0 && s[0].parent == -1 && forall i :: 0 < i < |s| ==> 0 <= s[i].parent < i
  }

  /** The first node from j on that names p as its parent, or -1. */
  function NextChild(s: seq<Node>, p: int, j: nat): (c: int)
    ensures c == -1 || (j <= c < |s| && s[c].parent == p)
    ensures forall i :: j <= i < |s| && (c == -1 || i < c) ==> s[i].parent != p
    decreases |s| - j
  {
    if j >= |s| then -1 else if s[j].parent == p then j else NextChild(s, p, j + 1)
  }

  /** The links are exactly what the parent fields say: children in creation order. */
  predicate Linked(s: seq<Node>)
    ensures Linked(s) ==> Parented(s)
  {
    && Parented(s)
    && (forall p :: 0 <= p < |s| ==> s[p].first == NextChild(s, p, 0))
    && s[0].next == -1
    && (forall c :: 0 < c < |s| ==> s[c].next == NextChild(s, s[c].parent, c + 1))
  }

  /** Link fields point forward, so following them ends. */
  predicate Forward(s: seq<Node>) {
    forall i :: 0 <= i < |s| ==> (s[i].first == -1 || i < s[i].first < |s|) && (s[i].next == -1 || i < s[i].next < |s|)
  }

  lemma {:induction false} LinkedForward(s: seq<Node>)
    requires Linked(s)
    ensures Forward(s)
  {
    forall i | 0 <= i < |s| ensures s[i].first == -1 || i < s[i].first < |s| {
      var c := NextChild(s, i, 0);
      assert s[i].first == c;
    }
  }

  // Child lists

  /** The list `first`, `next`, `next`, ... as a sequence. */
  function ListFrom(s: seq<Node>, c: int): seq<nat>
    requires Forward(s) && -1 <= c < |s|
    decreases if c == -1 then 0 else |s| - c
  {
    if c == -1 then [] else [c] + ListFrom(s, s[c].next)
  }

  /** The nodes from j on that name p, in index order. */
  function Naming(s: seq<Node>, p: int, j: nat): seq<nat>
    decreases |s| - j
  {
    if j >= |s| then [] else (if s[j].parent == p then [j] else []) + Naming(s, p, j + 1)
  }

  lemma {:induction false} NamingSkips(s: seq<Node>, p: int, j: nat)
    requires j <= |s|
    ensures NextChild(s, p, j) == -1 ==> Naming(s, p, j) == []
    ensures var c := NextChild(s, p, j); c != -1 ==> Naming(s, p, j) == [c as nat] + Naming(s, p, c + 1)
    decreases |s| - j
  {
    if j < |s| && s[j].parent != p { NamingSkips(s, p, j + 1); }
  }

  lemma {:induction false} ListIsNaming(s: seq<Node>, p: nat, j: nat)
    requires Linked(s) && p < |s| && j <= |s|
    ensures Forward(s) && ListFrom(s, NextChild(s, p, j)) == Naming(s, p, j)
    decreases |s| - j
  {
    hide NextChild, Naming, Forward;
    LinkedForward(s);
    NamingSkips(s, p, j);
    var c := NextChild(s, p, j);
    if c != -1 {
      assert c != 0 && s[c].next == NextChild(s, p, c + 1);
      ListIsNaming(s, p, c + 1);
      hide Linked;
      ListUnfold(s, c);
    }
  }

  lemma {:induction false} ListUnfold(s: seq<Node>, c: nat)
    requires Forward(s) && c < |s|
    ensures -1 <= s[c].next < |s| && ListFrom(s, c) == [c] + ListFrom(s, s[c].next)
  {
  }

  /** A node's child list holds exactly the nodes that name it as parent, in increasing order. */
  lemma {:induction false} ChildList(s: seq<Node>, p: nat)
    requires Linked(s) && p < |s|
    ensures Forward(s) && ListFrom(s, s[p].first) == Naming(s, p, 0)
  {
    ListIsNaming(s, p, 0);
  }

  // Ancestors and depth

  predicate Anc(s: seq<Node>, a: nat, x: nat)
    requires Parented(s) && x < |s|
    decreases x
  {
    a == x || (x > 0 && Anc(s, a, s[x].parent))
  }

  function Depth(s: seq<Node>, x: nat): nat
    requires Parented(s) && x < |s|
    decreases x
  {
    if x == 0 then 0 else 1 + Depth(s, s[x].parent)
  }

  lemma {:induction false} AncBelow(s: seq<Node>, a: nat, x: nat)
    requires Parented(s) && x < |s| && Anc(s, a, x)
    ensures a <= x
    decreases x
  {
    if a != x { AncBelow(s, a, s[x].parent); }
  }

  lemma {:induction false} AncTrans(s: seq<Node>, a: nat, b: nat, x: nat)
    requires Parented(s) && x < |s| && b < |s| && Anc(s, a, b) && Anc(s, b, x)
    ensures Anc(s, a, x)
    decreases x
  {
    if b != x { AncTrans(s, a, b, s[x].parent); }
  }

  /** A proper ancestor has a child on the way down. */
  lemma {:induction false} AncChild(s: seq<Node>, a: nat, x: nat) returns (c: nat)
    requires Parented(s) && x < |s| && Anc(s, a, x) && a != x
    ensures 0 < c < |s| && s[c].parent == a && Anc(s, c, x)
    decreases x
  {
    if s[x].parent == a {
      c := x;
    } else {
      c := AncChild(s, a, s[x].parent);
    }
  }

  // Adding a node

  /** The end of a sibling list. */
  function LastOf(s: seq<Node>, c: nat): (l: nat)
    requires Forward(s) && c < |s|
    ensures l < |s| && s[l].next == -1
    decreases |s| - c
  {
    if s[c].next == -1 then c else LastOf(s, s[c].next)
  }

  /** `add` below node p, as a value. */
  function AddNode(s: seq<Node>, p: nat, kind: Kind, tag: nat, look: Look): (t: seq<Node>)
    requires Forward(s) && p < |s|
    ensures |t| == |s| + 1
  {
    var k := |s|;
    var linked := if s[p].first == -1 then s[p := s[p].(first := k)]
                  else var l := LastOf(s, s[p].first); s[l := s[l].(next := k)];
    linked + [Node(kind, tag, p, -1, -1, look)]
  }

  lemma {:induction false} LastOfParent(s: seq<Node>, p: nat, c: nat)
    requires Linked(s) && Forward(s) && 0 < c < |s| && s[c].parent == p
    ensures var l := LastOf(s, c); 0 < l && s[l].parent == p && NextChild(s, p, l + 1) == -1
    decreases |s| - c
  {
    if s[c].next != -1 { LastOfParent(s, p, s[c].next); }
  }

  lemma {:induction false} NextChildGrows(s: seq<Node>, t: seq<Node>, q: int, j: nat)
    requires |t| == |s| + 1 && (forall i :: 0 <= i < |s| ==> t[i].parent == s[i].parent) && j <= |s|
    ensures NextChild(t, q, j) == if NextChild(s, q, j) != -1 then NextChild(s, q, j)
                                  else if t[|s|].parent == q then |s| else -1
    decreases |s| - j
  {
    if j < |s| && s[j].parent != q { NextChildGrows(s, t, q, j + 1); }
  }

  /** t is s with node |s| added below p: the new node ends p's child list, everything else is as before. */
  predicate Appended(s: seq<Node>, t: seq<Node>, p: nat) {
    && |t| == |s| + 1 && p < |s|
    && t[|s|].parent == p && t[|s|].first == -1 && t[|s|].next == -1
    && (forall i :: 0 <= i < |s| ==> t[i].parent == s[i].parent)
    && (forall i :: 0 <= i < |s| ==> t[i].first == if i == p && s[i].first == -1 then |s| else s[i].first)
    && (forall i :: 0 <= i < |s| ==> t[i].next == if s[i].parent == p && s[i].next == -1 then |s| else s[i].next)
  }

  lemma {:induction false} AddAppends(s: seq<Node>, p: nat, kind: Kind, tag: nat, look: Look)
    requires Linked(s) && Forward(s) && p < |s|
    ensures Appended(s, AddNode(s, p, kind, tag, look), p)
  {
    if s[p].first == -1 {
      AppendFirst(s, p, Node(kind, tag, p, -1, -1, look));
    } else {
      FirstIsChild(s, p);
      LastOfParent(s, p, s[p].first);
      AppendNext(s, p, LastOf(s, s[p].first), Node(kind, tag, p, -1, -1, look));
    }
  }

  lemma {:induction false} AppendFirst(s: seq<Node>, p: nat, node: Node)
    requires Linked(s) && p < |s| && s[p].first == -1 && node.parent == p && node.first == -1 && node.next == -1
    ensures Appended(s, s[p := s[p].(first := |s|)] + [node], p)
  {
    hide Linked;
    var t := s[p := s[p].(first := |s|)] + [node];
    forall i | 0 <= i < |s| ensures t[i].next == if s[i].parent == p && s[i].next == -1 then |s| else s[i].next {
      NoChildren(s, p, i);
    }
  }

  lemma {:induction false} AppendNext(s: seq<Node>, p: nat, l: nat, node: Node)
    requires Linked(s) && p < |s| && s[p].first != -1 && node.parent == p && node.first == -1 && node.next == -1
    requires 0 < l < |s| && s[l].parent == p && s[l].next == -1
    ensures Appended(s, s[l := s[l].(next := |s|)] + [node], p)
  {
    hide Linked;
    var t := s[l := s[l].(next := |s|)] + [node];
    forall i | 0 <= i < |s| ensures t[i].next == if s[i].parent == p && s[i].next == -1 then |s| else s[i].next {
      if s[i].parent == p && s[i].next == -1 {
        assert i != 0;
        OneLast(s, i, l);
      }
    }
  }

  lemma {:induction false} AppendLinks(s: seq<Node>, t: seq<Node>, p: nat)
    requires Linked(s) && Appended(s, t, p)
    ensures Linked(t) && Forward(t)
  {
    hide NextChild, Forward, Linked, Appended, Parented;
    ParentsFollow(s, t, p);
    FirstsFollow(s, t, p);
    NextsFollow(s, t, p);
    LinksMake(t);
    LinkedForward(t);
  }

  lemma {:induction false} ParentsFollow(s: seq<Node>, t: seq<Node>, p: nat)
    requires Parented(s) && Appended(s, t, p)
    ensures Parented(t) && |t| > 0
  {
    hide Linked;
    forall i | 0 < i < |t| ensures 0 <= t[i].parent < i {
      if i < |s| { assert t[i].parent == s[i].parent; }
    }
  }

  lemma {:induction false} LinksMake(t: seq<Node>)
    requires Parented(t) && |t| > 0 && t[0].next == -1
    requires forall q :: 0 <= q < |t| ==> t[q].first == NextChild(t, q, 0)
    requires forall c :: 0 < c < |t| ==> t[c].next == NextChild(t, t[c].parent, c + 1)
    ensures Linked(t)
  {
    hide NextChild;
  }

  lemma {:induction false} FirstsFollow(s: seq<Node>, t: seq<Node>, p: nat)
    requires Linked(s) && Appended(s, t, p)
    ensures forall q :: 0 <= q < |t| ==> t[q].first == NextChild(t, q, 0)
  {
    hide NextChild;
    forall q | 0 <= q < |t| ensures t[q].first == NextChild(t, q, 0) {
      NextChildGrows(s, t, q, 0);
      if q == |s| { NoneBeyond(s, q); }
    }
  }

  lemma {:induction false} NextsFollow(s: seq<Node>, t: seq<Node>, p: nat)
    requires Linked(s) && Appended(s, t, p)
    ensures t[0].next == -1 && forall c :: 0 < c < |t| ==> t[c].next == NextChild(t, t[c].parent, c + 1)
  {
    assert |t| > 0;
    hide Appended, Linked, NextChild;
    NextFollows(s, t, p, 0);
    forall c: nat | 0 < c < |t| ensures t[c].next == NextChild(t, t[c].parent, c + 1) {
      NextFollows(s, t, p, c);
    }
  }

  lemma {:induction false} NextFollows(s: seq<Node>, t: seq<Node>, p: nat, c: nat)
    requires Linked(s) && Appended(s, t, p) && c < |t|
    ensures c == 0 ==> t[c].next == -1
    ensures c > 0 ==> t[c].next == NextChild(t, t[c].parent, c + 1)
  {
    hide NextChild;
    if 0 < c < |s| { NextChildGrows(s, t, t[c].parent, c + 1); }
    if c == |s| { NoneAfter(t, p); }
  }

  lemma {:induction false} NoneAfter(s: seq<Node>, q: int)
    ensures NextChild(s, q, |s|) == -1
  {
  }

  lemma {:induction false} NoneBeyond(s: seq<Node>, q: nat)
    requires Parented(s) && q >= |s|
    ensures NextChild(s, q, 0) == -1
  {
  }

  // Preorder

  /** The traversal of `walk`: a node, then its child list. */
  function Walk(s: seq<Node>, n: nat): seq<nat>
    requires Forward(s) && n < |s|
    decreases |s| - n, 0
  {
    [n] + WalkList(s, s[n].first)
  }

  function WalkList(s: seq<Node>, c: int): seq<nat>
    requires Forward(s) && -1 <= c < |s|
    decreases if c == -1 then 0 else |s| - c, 1
  {
    if c == -1 then [] else Walk(s, c) + WalkList(s, s[c].next)
  }

  /** No ancestor of the newest node has a later sibling. */
  predicate Rightmost(s: seq<Node>)
    requires Parented(s)
  {
    forall x: nat :: x < |s| && Anc(s, x, |s| - 1) ==> s[x].next == -1
  }

  /** The setting of the next lemmas: a node is added below p, and p is on the rightmost path. */
  ghost predicate Grown(s: seq<Node>, t: seq<Node>, p: nat) {
    && Linked(s) && Forward(s) && Parented(s) && Rightmost(s)
    && Linked(t) && Forward(t) && Parented(t)
    && Appended(s, t, p) && p < |s| && Anc(s, p, |s| - 1)
  }

  lemma {:induction false} WalkUnfold(s: seq<Node>, n: nat)
    requires Forward(s) && n < |s|
    ensures Walk(s, n) == [n] + WalkList(s, s[n].first)
  {
  }

  lemma {:induction false} WalkListUnfold(s: seq<Node>, c: nat)
    requires Forward(s) && c < |s|
    ensures WalkList(s, c) == Walk(s, c) + WalkList(s, s[c].next)
  {
  }

  /** The new node's own list. */
  lemma {:induction false} NewList(s: seq<Node>, t: seq<Node>, p: nat)
    requires Grown(s, t, p)
    ensures WalkList(t, |s|) == [|s|] && WalkList(t, -1) == [] == WalkList(s, -1)
  {
    hide Linked, Rightmost;
    WalkListUnfold(t, |s|);
    WalkUnfold(t, |s|);
  }

  lemma {:induction false} WalkGrows(s: seq<Node>, t: seq<Node>, p: nat, n: nat)
    requires Grown(s, t, p) && n < |s|
    ensures Walk(t, n) == Walk(s, n) + if Anc(s, n, p) then [|s|] else []
    decreases |s| - n, 0
  {
    hide Linked, Rightmost, Walk, WalkList, Anc;
    var c := s[n].first;
    WalkUnfold(s, n);
    WalkUnfold(t, n);
    NewList(s, t, p);
    if c == -1 {
      if n != p && Anc(s, n, p) {
        var child := AncChild(s, n, p);
        NoChildren(s, n, child);
      }
      if n == p { AncSelf(s, p); }
    } else {
      FirstIsChild(s, n);
      WalkListGrows(s, t, p, c);
      var more := if Anc(s, n, p) then [|s|] else [];
      assert [n] + (WalkList(s, c) + more) == ([n] + WalkList(s, c)) + more;
    }
  }

  lemma {:induction false} AncSelf(s: seq<Node>, p: nat)
    requires Parented(s) && p < |s|
    ensures Anc(s, p, p)
  {
  }

  lemma {:induction false} FirstIsChild(s: seq<Node>, n: nat)
    requires Linked(s) && n < |s| && s[n].first != -1
    ensures 0 < s[n].first < |s| && s[s[n].first].parent == n
  {
  }

  lemma {:induction false} NoChildren(s: seq<Node>, n: nat, c: nat)
    requires Linked(s) && n < |s| && s[n].first == -1 && c < |s|
    ensures s[c].parent != n
  {
    assert NextChild(s, n, 0) == -1;
  }

  lemma {:induction false} WalkListGrows(s: seq<Node>, t: seq<Node>, p: nat, c: nat)
    requires Grown(s, t, p) && 0 < c < |s| && 0 <= s[c].parent < |s|
    ensures WalkList(t, c) == WalkList(s, c) + if Anc(s, s[c].parent, p) then [|s|] else []
    decreases |s| - c, 1
  {
    hide Linked, Rightmost, Walk, WalkList, Anc;
    var q := s[c].parent;
    WalkListUnfold(s, c);
    WalkListUnfold(t, c);
    NewList(s, t, p);
    WalkGrows(s, t, p, c);
    OnPath(s, t, p, c);
    if s[c].next == -1 {
      if q == p { AncSelf(s, p); }
    } else {
      NextSibling(s, c);
      WalkListGrows(s, t, p, s[c].next);
      var more := if Anc(s, q, p) then [|s|] else [];
      assert Walk(s, c) + (WalkList(s, s[c].next) + more) == (Walk(s, c) + WalkList(s, s[c].next)) + more;
    }
  }

  lemma {:induction false} NextSibling(s: seq<Node>, c: nat)
    requires Linked(s) && 0 < c < |s| && s[c].next != -1
    ensures c < s[c].next < |s| && s[s[c].next].parent == s[c].parent
  {
  }

  /** Where the path to p passes among the children of c's parent. */
  lemma {:induction false} OnPath(s: seq<Node>, t: seq<Node>, p: nat, c: nat)
    requires Grown(s, t, p) && 0 < c < |s|
    ensures Anc(s, c, p) ==> s[c].next == -1 && Anc(s, s[c].parent, p) && s[c].parent != p
    ensures s[c].next == -1 && Anc(s, s[c].parent, p) && s[c].parent != p ==> Anc(s, c, p)
  {
    hide Linked, Appended, Forward;
    var q := s[c].parent;
    if Anc(s, c, p) {
      AncTrans(s, c, p, |s| - 1);
      assert Anc(s, q, c);
      AncTrans(s, q, c, p);
      AncBelow(s, c, p);
    }
    if s[c].next == -1 && Anc(s, q, p) && q != p {
      var x := AncChild(s, q, p);
      AncTrans(s, x, p, |s| - 1);
      assert s[x].next == -1;
      OneLast(s, c, x);
    }
  }

  lemma {:induction false} OneLast(s: seq<Node>, c: nat, x: nat)
    requires Linked(s) && 0 < c < |s| && 0 < x < |s| && s[c].parent == s[x].parent && s[c].next == s[x].next == -1
    ensures c == x
  {
    assert NextChild(s, s[c].parent, c + 1) == -1 && NextChild(s, s[c].parent, x + 1) == -1;
  }

  // The state of the builder

  /** Nodes and open-element stack. */
  datatype Builder = Builder(nodes: seq<Node>, open: seq<nat>)

  /** The open elements are a path from the root downwards. */
  predicate RootPath(s: seq<Node>, open: seq<nat>) {
    && 0 < |open| && open[0] == 0
    && (forall j :: 0 <= j < |open| ==> open[j] < |s|)
    && (forall j :: 0 < j < |open| ==> s[open[j]].parent == open[j - 1])
  }

  ghost predicate Inv(b: Builder)
    ensures Inv(b) ==> 0 < |b.nodes| <= MAX_NODES && Forward(b.nodes) && Parented(b.nodes) && 0 < |b.open| <= MAX_OPEN
                       && forall j :: 0 <= j < |b.open| ==> b.open[j] < |b.nodes|
  {
    && 0 < |b.nodes| <= MAX_NODES
    && Linked(b.nodes) && Forward(b.nodes) && Rightmost(b.nodes)
    && b.nodes[0] == b.nodes[0].(kind := Root, tag := 0, look := PLAIN)
    && RootPath(b.nodes, b.open) && |b.open| <= MAX_OPEN
    && (forall j :: 0 <= j < |b.open| ==> Anc(b.nodes, b.open[j], |b.nodes| - 1))
    && (forall i: nat :: i < |b.nodes| ==> Depth(b.nodes, i) <= MAX_OPEN)
    && Walk(b.nodes, 0) == Upto(|b.nodes|)
  }

  function Upto(n: nat): seq<nat> {
    seq(n, i => i)
  }

  function Top(b: Builder): nat
    requires b.open != []
  {
    b.open[|b.open| - 1]
  }

  const EMPTY := Builder([Node(Root, 0, -1, -1, -1, PLAIN)], [0])

  lemma {:induction false} EmptyInv()
    ensures Inv(EMPTY)
  {
    var s := EMPTY.nodes;
    assert NextChild(s, 0, 1) == -1;
    assert Walk(s, 0) == [0] + WalkList(s, -1);
    assert Upto(1) == [0];
  }

  lemma {:induction false} AddGrows(s: seq<Node>, p: nat, kind: Kind, tag: nat, look: Look)
    requires Linked(s) && Forward(s) && Rightmost(s) && p < |s| && Anc(s, p, |s| - 1)
    ensures Parented(AddNode(s, p, kind, tag, look)) && Grown(s, AddNode(s, p, kind, tag, look), p)
  {
    hide Linked, Rightmost, AddNode, Appended, Forward;
    AddAppends(s, p, kind, tag, look);
    AppendLinks(s, AddNode(s, p, kind, tag, look), p);
  }

  lemma {:induction false} AncStable(s: seq<Node>, t: seq<Node>, a: nat, x: nat)
    requires Parented(s) && Parented(t) && |s| <= |t| && x < |s|
    requires forall i :: 0 <= i < |s| ==> t[i].parent == s[i].parent
    ensures Anc(t, a, x) == Anc(s, a, x) && Depth(t, x) == Depth(s, x)
    decreases x
  {
    if x > 0 { AncStable(s, t, a, s[x].parent); }
  }

  lemma {:induction false} PathDepth(s: seq<Node>, open: seq<nat>, j: nat)
    requires Parented(s) && RootPath(s, open) && j < |open|
    ensures Depth(s, open[j]) == j
    decreases j
  {
    if j > 0 { PathDepth(s, open, j - 1); }
  }

  lemma {:induction false} PathAnc(s: seq<Node>, open: seq<nat>, i: nat, j: nat)
    requires Parented(s) && RootPath(s, open) && i <= j < |open|
    ensures Anc(s, open[i], open[j])
    decreases j
  {
    if i < j { PathAnc(s, open, i, j - 1); }
  }

  lemma {:induction false} RightmostGrows(s: seq<Node>, t: seq<Node>, p: nat)
    requires Grown(s, t, p)
    ensures Rightmost(t)
  {
    hide Linked, Forward;
    var k := |s|;
    forall x: nat | x < |t| && Anc(t, x, k) ensures t[x].next == -1 {
      if x < k {
        AncStable(s, t, x, p);
        AncTrans(s, x, p, k - 1);
        AncBelow(s, x, p);
      }
    }
  }

  lemma {:induction false} NewNode(s: seq<Node>, t: seq<Node>, p: nat)
    requires Grown(s, t, p)
    ensures Depth(t, |s|) == 1 + Depth(t, p)
  {
    hide Linked, Forward, Rightmost;
  }

  lemma {:induction false} NewAnc(s: seq<Node>, t: seq<Node>, p: nat, a: nat)
    requires Grown(s, t, p) && Anc(t, a, p)
    ensures Anc(t, a, |s|)
  {
    hide Linked, Forward, Rightmost;
  }

  /** The open elements stay ancestors of the newest node. */
  lemma {:induction false} OpenGrows(s: seq<Node>, t: seq<Node>, open: seq<nat>)
    requires RootPath(s, open) && Grown(s, t, open[|open| - 1])
    ensures RootPath(t, open)
    ensures forall j :: 0 <= j < |open| ==> Anc(t, open[j], |s|)
  {
    hide Linked, Forward, Rightmost, Depth, Anc;
    var p := open[|open| - 1];
    forall j | 0 <= j < |open| ensures Anc(t, open[j], |s|) {
      PathAnc(s, open, j, |open| - 1);
      AncStable(s, t, open[j], p);
      NewAnc(s, t, p, open[j]);
    }
  }

  /** The new node is one deeper than the innermost open element. */
  lemma {:induction false} DepthGrows(s: seq<Node>, t: seq<Node>, open: seq<nat>)
    requires 0 < |open| && RootPath(s, open) && Grown(s, t, open[|open| - 1]) && |open| <= MAX_OPEN
    requires forall i: nat :: i < |s| ==> Depth(s, i) <= MAX_OPEN
    ensures forall i: nat :: i < |t| ==> Depth(t, i) <= MAX_OPEN
  {
    hide Linked, Forward, Rightmost, Depth, Anc, RootPath;
    NewDepth(s, t, open);
    forall i: nat | i < |t| ensures Depth(t, i) <= MAX_OPEN {
      if i < |s| { AncStable(s, t, 0, i); }
    }
  }

  lemma {:induction false} NewDepth(s: seq<Node>, t: seq<Node>, open: seq<nat>)
    requires 0 < |open| && RootPath(s, open) && Grown(s, t, open[|open| - 1]) && |open| <= MAX_OPEN
    ensures Depth(t, |s|) <= MAX_OPEN
  {
    hide Linked, Forward, Rightmost, Depth, Anc, RootPath;
    var p := open[|open| - 1];
    NewNode(s, t, p);
    AncStable(s, t, 0, p);
    PathDepth(s, open, |open| - 1);
  }

  /** `add` below the innermost open element keeps everything. */
  lemma {:induction false} AddKeeps(b: Builder, kind: Kind, tag: nat, look: Look)
    requires Inv(b) && |b.nodes| < MAX_NODES
    ensures Inv(b.(nodes := AddNode(b.nodes, Top(b), kind, tag, look)))
  {
    hide Linked, Rightmost, Walk, AddNode, Appended, Depth;
    var s, p := b.nodes, Top(b);
    var t := AddNode(s, p, kind, tag, look);
    AddGrows(s, p, kind, tag, look);
    RightmostGrows(s, t, p);
    WalkGrows(s, t, p, 0);
    PathAnc(s, b.open, 0, |b.open| - 1);
    OpenGrows(s, t, b.open);
    DepthGrows(s, t, b.open);
    RootKept(s, p, kind, tag, look);
    hide Anc, RootPath, Forward;
    assert Upto(|t|) == Upto(|s|) + [|s|];
  }

  lemma {:induction false} RootKept(s: seq<Node>, p: nat, kind: Kind, tag: nat, look: Look)
    requires Forward(s) && p < |s|
    ensures var t := AddNode(s, p, kind, tag, look);
            t[0].kind == s[0].kind && t[0].tag == s[0].tag && t[0].look == s[0].look
  {
  }

  /** Opening the newest node, when it is a child of the innermost open element. */
  lemma {:induction false} PushKeeps(b: Builder)
    requires Inv(b) && |b.open| < MAX_OPEN && b.nodes[|b.nodes| - 1].parent == Top(b)
    ensures Inv(b.(open := b.open + [|b.nodes| - 1]))
  {
    hide Linked, Rightmost, Walk, Depth;
  }

  /** Closing an element and everything opened inside it. */
  lemma {:induction false} PopKeeps(b: Builder, i: nat)
    requires Inv(b) && 0 < i <= |b.open|
    ensures Inv(b.(open := b.open[..i]))
  {
    hide Linked, Rightmost, Walk, Depth;
  }
}
