/** The style cascade of kernel/aster.c: selectors, matching, the pass over the rules for one node, and the pass down
    the ancestor chain. */
module AsterCascade {
  import opened Bytes
  import opened AsterTree
  import opened AsterParser

  const ANY_TAG: nat := 255
  const CHAIN_CAP: nat := 48

  datatype SelectorKind = Any | ByTag | ByClass | ById | ByTagClass | ByTagId

  datatype Selector = Selector(tag: nat, kind: SelectorKind, name: string)

  /** A zero scale and an absent color mean that the rule does not set them. */
  datatype Rule = Rule(sel: Selector, flags: set<Flag>, scale: nat, color: Option<nat>)

  datatype Style = Style(flags: set<Flag>, scale: nat, colorSet: bool, color: nat)

  // Selectors

  function TrimRight(s: string): (t: string)
    ensures |t| <= |s|
  {
    if s != [] && Space(s[|s| - 1]) then TrimRight(s[..|s| - 1]) else s
  }

  function Trim(s: string): string {
    TrimRight(s[SkipSpaces(s, 0)..])
  }

  predicate Combined(s: string) {
    exists i :: 0 <= i < |s| && (Space(s[i]) || s[i] == '>' || s[i] == '[' || s[i] == ':' || s[i] == '+')
  }

  /** The first '.' or '#', or the end. */
  function Mark(s: string, i: nat): (k: nat)
    requires i <= |s|
    ensures i <= k <= |s| && (k < |s| ==> s[k] == '.' || s[k] == '#')
    decreases |s| - i
  {
    if i < |s| && s[i] != '.' && s[i] != '#' then Mark(s, i + 1) else i
  }

  /** `selector`: None for what the engine does not support. */
  function ParseSelector(text: string): Option<Selector> {
    var s := Trim(text);
    if s == [] || Combined(s) then None
    else if s == "*" then Some(Selector(ANY_TAG, Any, ""))
    else
      var k := Mark(s, 0);
      if k == 0 then
        if |s| < 2 then None else Some(Selector(ANY_TAG, if s[0] == '.' then ByClass else ById, s[1..]))
      else
        var t := TagId(s[..k]);
        if t == UNKNOWN then None
        else if k == |s| then Some(Selector(t, ByTag, ""))
        else if k + 1 >= |s| then None
        else Some(Selector(t, if s[k] == '.' then ByTagClass else ByTagId, s[k + 1..]))
  }

  /** What every accepted selector looks like. */
  predicate Shape(sel: Selector) {
    match sel.kind
    case Any => sel.tag == ANY_TAG
    case ByClass => sel.tag == ANY_TAG && sel.name != ""
    case ById => sel.tag == ANY_TAG && sel.name != ""
    case ByTag => sel.tag != ANY_TAG && sel.tag != UNKNOWN
    case ByTagClass => sel.tag != ANY_TAG && sel.tag != UNKNOWN && sel.name != ""
    case ByTagId => sel.tag != ANY_TAG && sel.tag != UNKNOWN && sel.name != ""
  }

  lemma {:induction false} AcceptedShape(text: string)
    ensures ParseSelector(text).Some? ==> Shape(ParseSelector(text).value)
  {
    hide TagId, Combined, Trim;
  }

  // Matching

  function WordEnd(s: string, i: nat): (k: nat)
    requires i <= |s|
    ensures i <= k <= |s|
    decreases |s| - i
  {
    if i < |s| && !Space(s[i]) then WordEnd(s, i + 1) else i
  }

  /** Some white-space separated word of s, from i on, is `name`. */
  predicate HasWord(s: string, i: nat, name: string)
    requires i <= |s|
    decreases |s| - i
  {
    if i == |s| then false
    else
      var a := SkipSpaces(s, i);
      var z := WordEnd(s, a);
      s[a..z] == name || (z > i && HasWord(s, z, name))
  }

  /** `matches`. */
  predicate Matches(sel: Selector, n: Node) {
    (sel.tag == ANY_TAG || sel.tag == n.tag) &&
    match sel.kind
    case Any => true
    case ByTag => true
    case ByClass => HasWord(n.look.classes, 0, sel.name)
    case ByTagClass => HasWord(n.look.classes, 0, sel.name)
    case ById => n.look.id != "" && n.look.id == sel.name
    case ByTagId => n.look.id != "" && n.look.id == sel.name
  }

  /** `specof`. */
  function Spec(sel: Selector): nat {
    match sel.kind
    case ById => 100
    case ByTagId => 101
    case ByClass => 10
    case ByTagClass => 11
    case ByTag => 1
    case Any => 0
  }

  /** The counts of section 6.4.3 of CSS 2.1: id, class and type selectors in a selector. */
  function Counts(sel: Selector): (nat, nat, nat) {
    (if sel.kind == ById || sel.kind == ByTagId then 1 else 0,
     if sel.kind == ByClass || sel.kind == ByTagClass then 1 else 0,
     if sel.tag != ANY_TAG then 1 else 0)
  }

  predicate LessSpecific(a: Selector, b: Selector) {
    var (a1, a2, a3) := Counts(a);
    var (b1, b2, b3) := Counts(b);
    a1 < b1 || (a1 == b1 && (a2 < b2 || (a2 == b2 && a3 < b3)))
  }

  /** The engine's numbers order accepted selectors as CSS 2.1 does. */
  lemma {:induction false} SpecificityOrder(a: Selector, b: Selector)
    requires Shape(a) && Shape(b)
    ensures Spec(a) < Spec(b) <==> LessSpecific(a, b)
  {
  }

  // Picking a rule

  datatype Property = Scale | Color

  /** The rule matches the node and sets the property. */
  predicate Candidate(r: Rule, n: Node, p: Property) {
    Matches(r.sel, n) && (if p == Scale then r.scale != 0 else r.color.Some?)
  }

  /** Rule i comes no later than rule j in the order (specificity, position). */
  predicate Below(rs: seq<Rule>, i: nat, j: nat)
    requires i < |rs| && j < |rs|
  {
    Spec(rs[i].sel) < Spec(rs[j].sel) || (Spec(rs[i].sel) == Spec(rs[j].sel) && i <= j)
  }

  /** Rule w wins property p on node n among the first k rules: the greatest candidate; -1 when there is none. */
  ghost predicate Wins(rs: seq<Rule>, n: Node, p: Property, k: nat, w: int)
    requires k <= |rs|
  {
    if w == -1 then forall i :: 0 <= i < k ==> !Candidate(rs[i], n, p)
    else 0 <= w < k && Candidate(rs[w], n, p) && forall i :: 0 <= i < k && Candidate(rs[i], n, p) ==> Below(rs, i, w)
  }

  /** The winner, found by one pass. */
  function Winner(rs: seq<Rule>, n: Node, p: Property, k: nat): (w: int)
    requires k <= |rs|
    ensures w == -1 || (0 <= w < k && Candidate(rs[w], n, p))
    ensures Wins(rs, n, p, k, w)
  {
    if k == 0 then -1
    else
      var w := Winner(rs, n, p, k - 1);
      if Candidate(rs[k - 1], n, p) && (w == -1 || Spec(rs[k - 1].sel) >= Spec(rs[w].sel)) then k - 1 else w
  }

  lemma {:induction false} WinnerUnique(rs: seq<Rule>, n: Node, p: Property, k: nat, v: int, w: int)
    requires k <= |rs| && Wins(rs, n, p, k, v) && Wins(rs, n, p, k, w)
    ensures v == w
  {
  }

  /** Flags of all matching rules. */
  function FlagsOf(rs: seq<Rule>, n: Node, k: nat): set<Flag>
    requires k <= |rs|
  {
    if k == 0 then {} else FlagsOf(rs, n, k - 1) + if Matches(rs[k - 1].sel, n) then rs[k - 1].flags else {}
  }

  lemma {:induction false} FlagsMembers(rs: seq<Rule>, n: Node, k: nat, x: Flag)
    requires k <= |rs|
    ensures x in FlagsOf(rs, n, k) <==> exists i :: 0 <= i < k && Matches(rs[i].sel, n) && x in rs[i].flags
  {
    hide Matches;
    if k > 0 { FlagsMembers(rs, n, k - 1, x); }
  }

  /** A style after the rules have been applied to node n: flags accumulate, scale and color come from their winners. */
  function AfterRules(st: Style, rs: seq<Rule>, n: Node): Style {
    var s, c := Winner(rs, n, Scale, |rs|), Winner(rs, n, Color, |rs|);
    Style(st.flags + FlagsOf(rs, n, |rs|),
          if s == -1 then st.scale else rs[s].scale,
          st.colorSet || c != -1,
          if c == -1 then st.color else rs[c].color.value)
  }

  /** `rules`: one pass in source order, keeping the best specificity and position for scale and for color. */
  method ApplyRules(rs: seq<Rule>, n: Node, start: Style) returns (st: Style)
    ensures st == AfterRules(start, rs, n)
  {
    hide Matches, Wins, Spec;
    st := start;
    var cs, ss, co, so := 0, 0, -1, -1;
    for i := 0 to |rs|
      invariant so == Winner(rs, n, Scale, i) && co == Winner(rs, n, Color, i)
      invariant ss == if so == -1 then 0 else Spec(rs[so].sel)
      invariant cs == if co == -1 then 0 else Spec(rs[co].sel)
      invariant st == Style(start.flags + FlagsOf(rs, n, i), if so == -1 then start.scale else rs[so].scale,
                            start.colorSet || co != -1, if co == -1 then start.color else rs[co].color.value)
    {
      var r := rs[i];
      if Matches(r.sel, n) {
        var spc := Spec(r.sel);
        st := st.(flags := st.flags + r.flags);
        if r.scale != 0 && (spc > ss || (spc == ss && i >= so)) {
          st := st.(scale := r.scale);
          ss, so := spc, i;
        }
        if r.color.Some? && (spc > cs || (spc == cs && i >= co)) {
          st := st.(color := r.color.value, colorSet := true);
          cs, co := spc, i;
        }
      }
    }
  }

  // The ancestor chain

  /** Rules, then the inline style. */
  function AtNode(st: Style, rs: seq<Rule>, n: Node): Style {
    var a := AfterRules(st, rs, n);
    Style(a.flags + n.look.flags,
          if n.look.scale != 0 then n.look.scale else a.scale,
          a.colorSet || n.look.color != 0,
          if n.look.color != 0 then n.look.color else a.color)
  }

  /** `inh`: the node or an ancestor has tag t. */
  predicate Inherits(s: seq<Node>, x: nat, t: nat)
    requires Parented(s) && x < |s|
    decreases x
  {
    s[x].tag == t || (x > 0 && Inherits(s, s[x].parent, t))
  }

  /** The style before the cascade, from the tags on the way up. */
  function BaseStyle(s: seq<Node>, x: nat): Style
    requires Parented(s) && x < |s|
  {
    var st := Style({}, 1, false, 0x26394B);
    var st1 := if Inherits(s, x, H1) then Style({Bold}, 2, true, 0x1D3550)
               else if Inherits(s, x, H2) || Inherits(s, x, H3) then st.(flags := {Bold})
               else st;
    var st2 := if Inherits(s, x, STRONG) then st1.(flags := st1.flags + {Bold}) else st1;
    if Inherits(s, x, CODE) then st2.(color := 0x7B3F57, colorSet := true) else st2
  }

  /** The path from the root down to x. */
  function PathTo(s: seq<Node>, x: nat): (p: seq<nat>)
    requires Parented(s) && x < |s|
    ensures |p| == Depth(s, x) + 1 && p[|p| - 1] == x && p[0] == 0
    ensures forall i :: 0 <= i < |p| ==> p[i] < |s|
    decreases x
  {
    if x == 0 then [0] else PathTo(s, s[x].parent) + [x]
  }

  /** The cascade along a path, outermost node first. */
  function Along(st: Style, s: seq<Node>, rs: seq<Rule>, path: seq<nat>): Style
    requires forall i :: 0 <= i < |path| ==> path[i] < |s|
    decreases |path|
  {
    if path == [] then st else Along(AtNode(st, rs, s[path[0]]), s, rs, path[1..])
  }

  function LastPart(p: seq<nat>): seq<nat> {
    if |p| <= CHAIN_CAP then p else p[|p| - CHAIN_CAP..]
  }

  /** `resolved`: at most the last CHAIN_CAP nodes of the path take part. */
  method Resolve(s: seq<Node>, rs: seq<Rule>, n: nat) returns (st: Style)
    requires Parented(s) && n < |s|
    ensures st == Along(BaseStyle(s, n), s, rs, LastPart(PathTo(s, n)))
  {
    hide AtNode, BaseStyle;
    st := BaseStyle(s, n);
    var chain := CollectChain(s, n);
    ghost var part := LastPart(PathTo(s, n));
    ghost var start := st;
    var i := |chain|;
    assert part[0..] == part;
    while i > 0
      invariant 0 <= i <= |chain|
      invariant Along(st, s, rs, part[|chain| - i..]) == Along(start, s, rs, part)
    {
      i := i - 1;
      ghost var rest := part[|chain| - 1 - i..];
      assert rest[0] == chain[i] && rest[1..] == part[|chain| - i..];
      st := StyleNode(st, rs, s[chain[i]]);
    }
    assert part[|chain|..] == [];
  }

  /** The walk up the parents: the node first, at most CHAIN_CAP entries. */
  method CollectChain(s: seq<Node>, n: nat) returns (chain: seq<nat>)
    requires Parented(s) && n < |s|
    ensures var part := LastPart(PathTo(s, n));
            |chain| == |part| && forall j :: 0 <= j < |chain| ==> chain[j] == part[|part| - 1 - j] < |s|
    ensures |chain| == Min(48, Depth(s, n) + 1)
  {
    var store := new nat[CHAIN_CAP](_ => 0);
    var count := 0;
    var x: int := n;
    ghost var path := PathTo(s, n);
    while x >= 0 && count < CHAIN_CAP
      invariant -1 <= x < |s| && 0 <= count <= CHAIN_CAP && count <= |path|
      invariant x == -1 <==> count == |path|
      invariant x >= 0 ==> PathTo(s, x) == path[..|path| - count]
      invariant forall j :: 0 <= j < count ==> store[j] == path[|path| - 1 - j]
    {
      hide PathTo, Depth;
      store[count] := x;
      PathStep(s, x);
      count := count + 1;
      x := s[x].parent;
    }
    chain := store[..count];
  }

  /** The rules for one node, then its inline style. */
  method StyleNode(start: Style, rs: seq<Rule>, q: Node) returns (st: Style)
    ensures st == AtNode(start, rs, q)
  {
    hide AfterRules;
    st := ApplyRules(rs, q, start);
    st := st.(flags := st.flags + q.look.flags);
    if q.look.scale != 0 { st := st.(scale := q.look.scale); }
    if q.look.color != 0 { st := st.(color := q.look.color, colorSet := true); }
  }

  lemma {:induction false} PathStep(s: seq<Node>, x: nat)
    requires Parented(s) && x < |s|
    ensures x > 0 ==> PathTo(s, x) == PathTo(s, s[x].parent) + [x]
    ensures x == 0 ==> PathTo(s, x) == [0]
  {
  }

  // The cap never matters

  /** The root of a parsed document: no tag, no attributes. */
  predicate IsRoot(n: Node) {
    n.tag == UNKNOWN && n.look == PLAIN
  }

  /** Only the universal selector reaches the root, and it reaches every node. */
  lemma {:induction false} RootMatches(sel: Selector, root: Node, n: Node)
    requires Shape(sel) && IsRoot(root) && Matches(sel, root)
    ensures Matches(sel, n)
  {
  }

  lemma {:induction false} WinnerExists(rs: seq<Rule>, n: Node, p: Property, i: nat)
    requires i < |rs| && Candidate(rs[i], n, p)
    ensures Winner(rs, n, p, |rs|) != -1
  {
    assert Wins(rs, n, p, |rs|, Winner(rs, n, p, |rs|));
  }

  /** Applying the root first makes no difference to a node below it. */
  lemma {:induction false} RootFirst(st: Style, rs: seq<Rule>, root: Node, n: Node)
    requires (forall i :: 0 <= i < |rs| ==> Shape(rs[i].sel)) && IsRoot(root)
    ensures AtNode(AtNode(st, rs, root), rs, n) == AtNode(st, rs, n)
  {
    hide Matches, Winner;
    var a := AtNode(st, rs, root);
    var f, g := FlagsOf(rs, root, |rs|), FlagsOf(rs, n, |rs|);
    forall x | x in f ensures x in g {
      FlagsMembers(rs, root, |rs|, x);
      FlagsMembers(rs, n, |rs|, x);
      var i :| 0 <= i < |rs| && Matches(rs[i].sel, root) && x in rs[i].flags;
      RootMatches(rs[i].sel, root, n);
    }
    assert st.flags + f + g == st.flags + g;
    RootWinner(rs, root, n, Scale);
    RootWinner(rs, root, n, Color);
  }

  lemma {:induction false} RootWinner(rs: seq<Rule>, root: Node, n: Node, p: Property)
    requires (forall i :: 0 <= i < |rs| ==> Shape(rs[i].sel)) && IsRoot(root)
    ensures Winner(rs, n, p, |rs|) == -1 ==> Winner(rs, root, p, |rs|) == -1
  {
    var w := Winner(rs, root, p, |rs|);
    assert Wins(rs, root, p, |rs|, w);
    hide Winner;
    if w != -1 {
      RootMatches(rs[w].sel, root, n);
      WinnerExists(rs, n, p, w);
    }
  }

  /** The cascade over the capped chain equals the cascade along the full path from the root. */
  ghost predicate CapInvisible(s: seq<Node>, rs: seq<Rule>, x: nat) {
    && Parented(s) && x < |s|
    && Along(BaseStyle(s, x), s, rs, LastPart(PathTo(s, x))) == Along(BaseStyle(s, x), s, rs, PathTo(s, x))
  }

  /** Main result: over every parsed document and every list of accepted rules, the cap never shows. */
  lemma {:induction false} CapNeverMatters(h: string, look: string -> Look, rs: seq<Rule>, x: nat)
    requires x < |Parse(h, look).nodes| && forall i :: 0 <= i < |rs| ==> Shape(rs[i].sel)
    ensures CapInvisible(Parse(h, look).nodes, rs, x)
  {
    hide Parse, BaseStyle, AtNode, Linked, Rightmost, Walk;
    var s := Parse(h, look).nodes;
    var path := PathTo(s, x);
    assert |path| == Depth(s, x) + 1 <= MAX_OPEN + 1;
    if |path| > CHAIN_CAP {
      var st := BaseStyle(s, x);
      assert LastPart(path) == path[1..];
      RootFirst(st, rs, s[0], s[path[1]]);
      assert Along(st, s, rs, path) == Along(AtNode(st, rs, s[0]), s, rs, path[1..]);
    }
  }
}
