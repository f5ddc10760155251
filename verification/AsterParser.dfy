/** The tree-building part of `aster_parse_html`: a scanner over the text and a stack of open elements. */
module AsterParser {
  import opened Bytes
  import opened AsterTree

  // Character classes and scanning

  predicate Space(c: char) { c == ' ' || c == '\t' || c == '\r' || c == '\n' }

  function LowerAll(s: string): (t: string)
    ensures |t| == |s|
  {
    seq(|s|, i requires 0 <= i < |s| => Lower(s[i]))
  }

  /** The character at p; the C string's terminator behind the end. */
  function At(h: string, p: nat): char {
    if p < |h| then h[p] else '\0'
  }

  /** The text at p begins with `lit`, ignoring ASCII case. */
  predicate StartsWith(h: string, p: nat, lit: string) {
    p + |lit| <= |h| && forall i :: 0 <= i < |lit| ==> Lower(h[p + i]) == Lower(lit[i])
  }

  function ScanTo(h: string, p: nat, c: char): (q: nat)
    requires p <= |h|
    ensures p <= q <= |h| && (q < |h| ==> h[q] == c) && forall i :: p <= i < q ==> h[i] != c
    decreases |h| - p
  {
    if p < |h| && h[p] != c then ScanTo(h, p + 1, c) else p
  }

  /** Behind the next '>'. */
  function PastGt(h: string, p: nat): (q: nat)
    requires p <= |h|
    ensures p <= q <= |h| && (p < |h| ==> p < q)
  {
    var e := ScanTo(h, p, '>');
    if e < |h| then e + 1 else e
  }

  function CommentEnd(h: string, p: nat): (q: nat)
    requires p <= |h|
    ensures p <= q <= |h|
    decreases |h| - p
  {
    if p == |h| then p
    else if StartsWith(h, p, "-->") then p + 3
    else CommentEnd(h, p + 1)
  }

  function SkipSpaces(h: string, p: nat): (q: nat)
    requires p <= |h|
    ensures p <= q <= |h|
    decreases |h| - p
  {
    if p < |h| && Space(h[p]) then SkipSpaces(h, p + 1) else p
  }

  function NameEnd(h: string, p: nat): (q: nat)
    requires p <= |h|
    ensures p <= q <= |h|
    decreases |h| - p
  {
    if p < |h| && !Space(h[p]) && h[p] != '>' && h[p] != '/' then NameEnd(h, p + 1) else p
  }

  function FindText(h: string, p: nat, lit: string): (q: nat)
    requires p <= |h|
    ensures p <= q <= |h|
    decreases |h| - p
  {
    if p < |h| && !StartsWith(h, p, lit) then FindText(h, p + 1, lit) else p
  }

  /** The text run decodes to something: a character other than white space, `&nbsp;` counting as white space. */
  predicate HasInk(s: string, i: nat)
    decreases |s| - i
  {
    if i >= |s| then false
    else if Space(s[i]) then HasInk(s, i + 1)
    else if StartsWith(s, i, "&nbsp;") then HasInk(s, i + 6)
    else true
  }

  /** The attribute text ends in '/', trailing white space aside. */
  predicate SelfClosing(a: string) {
    a != [] && (if Space(a[|a| - 1]) then SelfClosing(a[..|a| - 1]) else a[|a| - 1] == '/')
  }

  // Tags

  const UNKNOWN: nat := 0
  const H1: nat := 5
  const H2: nat := 6
  const H3: nat := 7
  const BR: nat := 10
  const HR: nat := 11
  const STRONG: nat := 16
  const CODE: nat := 18
  const SCRIPT: nat := 27
  const STYLE: nat := 28
  const IMG: nat := 29

  const NAMES: seq<string> := ["", "html", "head", "body", "title", "h1", "h2", "h3", "p", "div", "br", "hr", "a",
                               "ul", "ol", "li", "strong", "em", "code", "span", "header", "footer", "main", "nav",
                               "section", "article",
                               "blockquote", "script", "style", "img", "button"]

  function IndexOf(names: seq<string>, name: string, i: nat): (k: nat)
    requires i <= |names|
    ensures k == 0 || i <= k < |names|
    decreases |names| - i
  {
    if i == |names| then 0 else if names[i] == name then i else IndexOf(names, name, i + 1)
  }

  /** `tagid`; b and i are the short forms of strong and em. */
  function TagId(name: string): (t: nat)
    ensures t < 31
  {
    var n := LowerAll(name);
    if n == "b" then STRONG else if n == "i" then STRONG + 1 else IndexOf(NAMES, n, 1)
  }

  predicate VoidTag(t: nat) { t == BR || t == HR || t == IMG }

  // Scanner

  datatype Token = Ink(any: bool) | Nothing | Close(tag: nat) | Open(tag: nat, self: bool, attrs: string)

  datatype Scan = Scan(token: Token, next: nat)

  /** One turn of the scanner at p. */
  function NextToken(h: string, p: nat): (r: Scan)
    requires p < |h|
    ensures p < r.next <= |h|
  {
    if h[p] != '<' then
      var q := ScanTo(h, p, '<');
      Scan(Ink(HasInk(h[p..q], 0)), q)
    else if StartsWith(h, p, "<!--") then Scan(Nothing, CommentEnd(h, p + 4))
    else if At(h, p + 1) == '!' || At(h, p + 1) == '?' then Scan(Nothing, PastGt(h, p))
    else if At(h, p + 1) == '/' then
      var from := SkipSpaces(h, p + 2);
      var to := NameEnd(h, from);
      Scan(Close(TagId(h[from..to])), PastGt(h, to))
    else OpenToken(h, p)
  }

  function OpenToken(h: string, p: nat): (r: Scan)
    requires p < |h|
    ensures p < r.next <= |h|
  {
    var from := SkipSpaces(h, p + 1);
    var to := NameEnd(h, from);
    var tag := TagId(h[from..to]);
    var gt := ScanTo(h, to, '>');
    var attrs := h[to..gt];
    var body := PastGt(h, to);
    var next := if tag == STYLE then PastGt(h, FindText(h, body, "</style"))
                else if tag == SCRIPT then PastGt(h, FindText(h, body, "</script"))
                else body;
    Scan(Open(tag, SelfClosing(attrs), attrs), next)
  }

  // Builder

  /** The innermost open element above the root with tag t, or 0. */
  function Closes(b: Builder, t: nat, i: nat): (k: nat)
    requires i < |b.open| && forall j :: 0 <= j < |b.open| ==> b.open[j] < |b.nodes|
    ensures k <= i
    ensures k > 0 ==> b.nodes[b.open[k]].tag == t
    ensures forall j :: k < j <= i ==> b.nodes[b.open[j]].tag != t
    decreases i
  {
    if i == 0 then 0 else if b.nodes[b.open[i]].tag == t then i else Closes(b, t, i - 1)
  }

  predicate StaysOpen(t: nat, self: bool) {
    t != STYLE && t != SCRIPT && !self && !VoidTag(t)
  }

  /** What one token does to nodes and stack; `look` stands for the attribute parser. */
  ghost function Step(b: Builder, tok: Token, look: string -> Look): (c: Builder)
    requires Inv(b) && |b.nodes| < MAX_NODES
  {
    match tok
    case Nothing => b
    case Ink(any) => if any then b.(nodes := AddNode(b.nodes, Top(b), Text, UNKNOWN, PLAIN)) else b
    case Close(t) => var k := Closes(b, t, |b.open| - 1); if k > 0 then b.(open := b.open[..k]) else b
    case Open(t, self, attrs) =>
      var c := b.(nodes := AddNode(b.nodes, Top(b), Element, t, look(attrs)));
      if StaysOpen(t, self) && |b.open| < MAX_OPEN then c.(open := c.open + [|b.nodes|]) else c
  }

  lemma {:induction false} StepKeeps(b: Builder, tok: Token, look: string -> Look)
    requires Inv(b) && |b.nodes| < MAX_NODES
    ensures Inv(Step(b, tok, look))
  {
    hide Linked, Rightmost, Walk, Depth, Anc, RootPath;
    match tok
    case Nothing =>
    case Ink(any) => AddKeeps(b, Text, UNKNOWN, PLAIN);
    case Close(t) =>
      var k := Closes(b, t, |b.open| - 1);
      if k > 0 { PopKeeps(b, k); }
    case Open(t, self, attrs) =>
      AddKeeps(b, Element, t, look(attrs));
      if StaysOpen(t, self) && |b.open| < MAX_OPEN {
        NewestChild(b, t, look(attrs));
        PushKeeps(b.(nodes := AddNode(b.nodes, Top(b), Element, t, look(attrs))));
      }
  }

  lemma {:induction false} NewestChild(b: Builder, t: nat, l: Look)
    requires Inv(b)
    ensures var s := AddNode(b.nodes, Top(b), Element, t, l);
            |s| == |b.nodes| + 1 && s[|b.nodes|].parent == Top(b)
  {
  }

  /** The main loop from position p on. */
  ghost function Build(h: string, p: nat, b: Builder, look: string -> Look): (c: Builder)
    requires p <= |h| && Inv(b)
    ensures Inv(c)
    decreases |h| - p
  {
    if p == |h| || |b.nodes| >= MAX_NODES then b
    else
      StepKeeps(b, NextToken(h, p).token, look);
      hide Inv, NextToken, Step;
      Build(h, NextToken(h, p).next, Step(b, NextToken(h, p).token, look), look)
  }

  /** `aster_parse_html` as a function of its text. */
  ghost function Parse(h: string, look: string -> Look): (c: Builder)
    ensures Inv(c)
  {
    EmptyInv();
    Build(h, 0, EMPTY, look)
  }

  /** Main result, for every text: a tree whose child lists hold exactly the nodes naming that parent in creation
      order, at most 48 levels below the root, whose preorder is the creation order. */
  lemma {:induction false} ParsedTree(h: string, look: string -> Look)
    ensures var s := Parse(h, look).nodes;
            && Linked(s) && Forward(s) && |s| <= MAX_NODES
            && (forall p: nat :: p < |s| ==> ListFrom(s, s[p].first) == Naming(s, p, 0))
            && (forall i: nat :: i < |s| ==> Anc(s, 0, i) && Depth(s, i) <= MAX_OPEN)
            && Walk(s, 0) == Upto(|s|)
  {
    hide Linked, Rightmost, Walk, Parse;
    var s := Parse(h, look).nodes;
    forall p: nat | p < |s| ensures ListFrom(s, s[p].first) == Naming(s, p, 0) { ChildList(s, p); }
    forall i: nat | i < |s| ensures Anc(s, 0, i) { RootIsAncestor(s, i); }
  }

  lemma {:induction false} RootIsAncestor(s: seq<Node>, i: nat)
    requires Parented(s) && i < |s|
    ensures Anc(s, 0, i)
    decreases i
  {
    if i > 0 { RootIsAncestor(s, s[i].parent); }
  }

  // The kernel's own form

  class Document {
    var nodes: array<Node>
    var count: nat

    ghost predicate Valid()
      reads this, nodes
    {
      nodes.Length == MAX_NODES && 0 < count <= MAX_NODES && Forward(nodes[..count])
    }

    constructor (store: array<Node>)
      requires store.Length == MAX_NODES
      ensures nodes == store && count == 0
    {
      nodes, count := store, 0;
    }

    /** `aster_document_init`. */
    method Init()
      requires nodes.Length == MAX_NODES
      modifies this, nodes
      ensures Valid() && nodes == old(nodes) && nodes[..count] == EMPTY.nodes
    {
      nodes[0] := Node(Root, UNKNOWN, -1, -1, -1, PLAIN);
      count := 1;
      assert nodes[..1] == EMPTY.nodes;
    }

    /** `add` below an existing node: -1 when the array is full. */
    method Add(p: nat, kind: Kind, tag: nat, look: Look) returns (i: int)
      requires Valid() && p < count
      modifies this`count, nodes
      ensures nodes == old(nodes)
      ensures i == if old(count) >= MAX_NODES then -1 else old(count) as int
      ensures count == if i == -1 then old(count) else old(count) + 1
      ensures nodes[..count]
           == if i == -1 then old(nodes[..count]) else AddNode(old(nodes[..count]), p, kind, tag, look)
    {
      if count >= MAX_NODES { return -1; }
      i := count;
      ghost var s := nodes[..count];
      nodes[i] := Node(kind, tag, p, -1, -1, look);
      assert nodes[..count] == s;
      if nodes[p].first < 0 {
        nodes[p] := nodes[p].(first := i);
      } else {
        var c := Last(nodes[p].first);
        nodes[c] := nodes[c].(next := i);
      }
      count := count + 1;
      assert nodes[..count] == AddNode(s, p, kind, tag, look);
    }

    /** The sibling walk inside `add`. */
    method Last(first: int) returns (c: nat)
      requires count <= nodes.Length && Forward(nodes[..count]) && 0 <= first < count
      ensures c < count && c == LastOf(nodes[..count], first)
    {
      ghost var s := nodes[..count];
      c := first;
      while nodes[c].next >= 0
        invariant 0 <= c < count && LastOf(s, c) == LastOf(s, first)
        decreases count - c
      {
        assert nodes[c] == s[c];
        c := nodes[c].next;
      }
      assert nodes[c] == s[c];
    }

    /** `aster_parse_html`, structure only: the return value says whether anything was added to the root. */
    method ParseHtml(h: string, look: string -> Look) returns (any: bool)
      requires nodes.Length == MAX_NODES
      modifies this, nodes
      ensures Valid() && nodes == old(nodes) && nodes[..count] == Parse(h, look).nodes
      ensures any <==> count > 1
    {
      hide Inv, NextToken, Step, AddNode, Forward;
      Init();
      var open := new nat[MAX_OPEN](_ => 0);
      var depth := 1;
      var p := 0;
      EmptyInv();
      ghost var b := EMPTY;
      assert open[..1] == [0];
      while p < |h| && count < MAX_NODES
        invariant 0 <= p <= |h| && 1 <= depth <= MAX_OPEN && Valid() && nodes == old(nodes)
        invariant Inv(b) && b == Builder(nodes[..count], open[..depth])
        invariant Build(h, 0, EMPTY, look) == Build(h, p, b, look)
        decreases |h| - p
      {
        var scan := NextToken(h, p);
        StepKeeps(b, scan.token, look);
        depth := Consume(scan.token, look, open, depth, b);
        b := Step(b, scan.token, look);
        assert Forward(b.nodes) by { InvForward(b); }
        p := scan.next;
      }
      any := count > 1;
    }

    /** The search down the stack for the element an end tag closes; 0 when there is none. */
    method InnermostOpen(t: nat, open: array<nat>, depth: nat, ghost b: Builder) returns (i: nat)
      requires Valid() && open.Length == MAX_OPEN && 1 <= depth <= MAX_OPEN
      requires Inv(b) && b == Builder(nodes[..count], open[..depth])
      ensures i < depth && i == Closes(b, t, depth - 1)
    {
      hide Linked, Rightmost, Walk, Depth, Anc, Forward, RootPath;
      i := depth - 1;
      while i > 0
        invariant 0 <= i < depth && Closes(b, t, depth - 1) == Closes(b, t, i)
      {
        assert b.open[i] == open[i] && b.nodes[open[i]] == nodes[open[i]];
        if nodes[open[i]].tag == t { return; }
        i := i - 1;
      }
    }

    method Consume(tok: Token, look: string -> Look, open: array<nat>, depth: nat, ghost b: Builder)
      returns (newDepth: nat)
      requires Valid() && open.Length == MAX_OPEN && 1 <= depth <= MAX_OPEN && count < MAX_NODES
      requires Inv(b) && b == Builder(nodes[..count], open[..depth])
      modifies this`count, nodes, open
      ensures nodes == old(nodes) && count <= MAX_NODES && 1 <= newDepth <= MAX_OPEN
      ensures Step(b, tok, look) == Builder(nodes[..count], open[..newDepth])
      ensures count >= old(count)
    {
      hide AddNode, Linked, Rightmost, Walk, Depth, Anc;
      newDepth := depth;
      assert Top(b) == open[depth - 1] < count;
      match tok
      case Nothing =>
      case Ink(any) =>
        if any { var i := Add(open[depth - 1], Text, UNKNOWN, PLAIN); }
      case Close(t) =>
        var i := InnermostOpen(t, open, depth, b);
        if i > 0 {
          newDepth := i;
          assert b.open[..i] == open[..i];
        }
      case Open(t, self, attrs) =>
        var idx := Add(open[depth - 1], Element, t, look(attrs));
        if StaysOpen(t, self) && depth < MAX_OPEN {
          open[depth] := idx;
          newDepth := depth + 1;
          assert open[..newDepth] == b.open + [idx];
        }
    }
  }

  lemma {:induction false} InvForward(b: Builder)
    requires Inv(b)
    ensures Forward(b.nodes) && 0 < |b.nodes| <= MAX_NODES
  {
  }
}
