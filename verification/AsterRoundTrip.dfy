/** Which tree belongs to which text: printing a document and parsing it gives back its elements and texts. */
module AsterRoundTrip {
  import opened Bytes
  import opened AsterTree
  import opened AsterParser

  /** Documents. A leaf has no end tag: a void element, or one whose start tag ends in a slash. The text of a raw
      element is not markup. */
  datatype Item =
    | Run(text: string)
    | Comment(text: string)
    | Declaration(mark: char, text: string)
    | Leaf(name: string, attrs: string)
    | Raw(name: string, attrs: string, content: string)
    | Nested(name: string, attrs: string, body: seq<Item>)

  function PrintItem(item: Item): (t: string)
    ensures item.Run? || (t != [] && t[0] == '<')
    decreases item
  {
    match item
    case Run(text) => text
    case Comment(text) => "<!--" + text + "-->"
    case Declaration(mark, text) => "<" + [mark] + text + ">"
    case Leaf(name, attrs) => "<" + name + attrs + ">"
    case Raw(name, attrs, content) => "<" + name + attrs + ">" + (content + ("</" + name + ">"))
    case Nested(name, attrs, body) => "<" + name + attrs + ">" + (Print(body) + ("</" + name + ">"))
  }

  function Print(items: seq<Item>): string
    decreases items
  {
    if items == [] then "" else PrintItem(items[0]) + Print(items[1..])
  }

  // Which documents

  predicate Blank(c: char) { c == ' ' || c == '\t' || c == '\r' || c == '\n' }

  predicate Named(name: string, lit: string) { LowerAll(name) == lit }

  predicate GoodName(name: string) {
    && name != [] && name[0] != '!' && name[0] != '?'
    && forall i :: 0 <= i < |name| ==> !Blank(name[i]) && name[i] != '>' && name[i] != '/'
  }

  predicate GoodAttrs(attrs: string) {
    (attrs != [] ==> Blank(attrs[0]) || attrs[0] == '/') && '>' !in attrs
  }

  /** The last character that is not blank is a slash. */
  predicate EndsInSlash(attrs: string) {
    exists k :: 0 <= k < |attrs| && attrs[k] == '/' && forall j :: k < j < |attrs| ==> Blank(attrs[j])
  }

  predicate IsVoid(name: string) { Named(name, "br") || Named(name, "hr") || Named(name, "img") }

  predicate IsRaw(name: string) { Named(name, "style") || Named(name, "script") }

  /** The text occurs nowhere, in whatever case. */
  predicate Lacks(s: string, lit: string) {
    forall i :: 0 <= i < |s| ==> !StartsWith(s, i, lit)
  }

  predicate GoodItem(item: Item)
    decreases item
  {
    match item
    case Run(text) => text != [] && '<' !in text
    case Comment(text) => Lacks(text, "-->")
    case Declaration(mark, text) =>
      (mark == '?' || (mark == '!' && !("--" <= text))) && '>' !in text
    case Leaf(name, attrs) =>
      GoodName(name) && GoodAttrs(attrs) && !IsRaw(name) && (IsVoid(name) || EndsInSlash(attrs))
    case Raw(name, attrs, content) =>
      && GoodName(name) && GoodAttrs(attrs) && IsRaw(name)
      && Lacks(content, if Named(name, "style") then "</style" else "</script")
    case Nested(name, attrs, body) =>
      && GoodName(name) && GoodAttrs(attrs) && !IsRaw(name) && !IsVoid(name) && !EndsInSlash(attrs)
      && Good(body)
  }

  /** Two runs of text in a row would read as one. */
  predicate Good(items: seq<Item>)
    decreases items
  {
    items != [] ==>
      && GoodItem(items[0]) && Good(items[1..])
      && (|items| > 1 && items[0].Run? ==> !items[1].Run?)
  }

  function Height(items: seq<Item>): nat
    decreases items
  {
    if items == [] then 0
    else
      var here := if items[0].Nested? then 1 + Height(items[0].body) else 0;
      var rest := Height(items[1..]);
      if here > rest then here else rest
  }

  // The nodes that belong to a document

  datatype Row = Row(kind: Kind, tag: nat, parent: int, look: Look)

  /** The rows of the items below node p, when the first of them is node k. */
  function Rows(items: seq<Item>, p: nat, k: nat, look: string -> Look): seq<Row>
    decreases items
  {
    if items == [] then []
    else
      var first := ItemRows(items[0], p, k, look);
      first + Rows(items[1..], p, k + |first|, look)
  }

  function ItemRows(item: Item, p: nat, k: nat, look: string -> Look): seq<Row>
    decreases item
  {
    match item
    case Run(text) => if HasInk(text, 0) then [Row(Text, UNKNOWN, p, PLAIN)] else []
    case Comment(_) => []
    case Declaration(_, _) => []
    case Leaf(name, attrs) => [Row(Element, TagId(name), p, look(attrs))]
    case Raw(name, attrs, _) => [Row(Element, TagId(name), p, look(attrs))]
    case Nested(name, attrs, body) => [Row(Element, TagId(name), p, look(attrs))] + Rows(body, k, k + 1, look)
  }

  function RowsOf(s: seq<Node>): (r: seq<Row>)
    ensures |r| == |s|
  {
    seq(|s|, i requires 0 <= i < |s| => Row(s[i].kind, s[i].tag, s[i].parent, s[i].look))
  }

  // Reading text at a position

  predicate Reads(h: string, p: nat, t: string) {
    p + |t| <= |h| && h[p..p + |t|] == t
  }

  lemma {:induction false} ReadsBoth(h: string, p: nat, a: string, b: string)
    requires Reads(h, p, a + b)
    ensures Reads(h, p, a) && Reads(h, p + |a|, b)
  {
    assert h[p..p + |a|] == (a + b)[..|a|];
    assert h[p + |a|..p + |a| + |b|] == (a + b)[|a|..];
  }

  lemma {:induction false} ReadsAt(h: string, p: nat, t: string, i: nat)
    requires Reads(h, p, t) && i < |t|
    ensures h[p + i] == t[i]
  {
    assert h[p..p + |t|][i] == h[p + i];
  }

  lemma {:induction false} ScanStops(h: string, p: nat, c: char, q: nat)
    requires p <= q <= |h| && (forall i :: p <= i < q ==> h[i] != c) && (q < |h| ==> h[q] == c)
    ensures ScanTo(h, p, c) == q
    decreases q - p
  {
    if p < q { ScanStops(h, p + 1, c, q); }
  }

  lemma {:induction false} NameStops(h: string, p: nat, q: nat)
    requires p <= q < |h| && (forall i :: p <= i < q ==> !Space(h[i]) && h[i] != '>' && h[i] != '/')
    requires Space(h[q]) || h[q] == '>' || h[q] == '/'
    ensures NameEnd(h, p) == q
    decreases q - p
  {
    if p < q { NameStops(h, p + 1, q); }
  }

  lemma {:induction false} FindStops(h: string, p: nat, lit: string, q: nat)
    requires p <= q < |h| && (forall i :: p <= i < q ==> !StartsWith(h, i, lit)) && StartsWith(h, q, lit)
    ensures FindText(h, p, lit) == q
    decreases q - p
  {
    if p < q { FindStops(h, p + 1, lit, q); }
  }

  lemma {:induction false} CommentStops(h: string, p: nat, q: nat)
    requires p <= q < |h| && (forall i :: p <= i < q ==> !StartsWith(h, i, "-->")) && StartsWith(h, q, "-->")
    ensures CommentEnd(h, p) == q + 3
    decreases q - p
  {
    if p < q { CommentStops(h, p + 1, q); }
  }

  lemma {:induction false} SlashMeaning(a: string)
    ensures SelfClosing(a) <==> EndsInSlash(a)
    decreases |a|
  {
    if a != [] && Blank(a[|a| - 1]) {
      SlashMeaning(a[..|a| - 1]);
      TrimSlash(a[..|a| - 1], a);
    } else if a != [] {
      SolidEnd(a);
    }
  }

  /** A blank at the end changes nothing. */
  lemma {:induction false} TrimSlash(b: string, a: string)
    requires |a| == |b| + 1 && b == a[..|b|] && Blank(a[|b|])
    ensures EndsInSlash(b) <==> EndsInSlash(a)
  {
    if k :| 0 <= k < |a| && a[k] == '/' && forall j :: k < j < |a| ==> Blank(a[j]) {
      assert b[k] == '/' && forall j :: k < j < |b| ==> Blank(b[j]);
    }
    if k :| 0 <= k < |b| && b[k] == '/' && forall j :: k < j < |b| ==> Blank(b[j]) {
      assert a[k] == '/' && forall j :: k < j < |a| ==> Blank(a[j]);
    }
  }

  lemma {:induction false} SolidEnd(a: string)
    requires a != [] && !Blank(a[|a| - 1])
    ensures EndsInSlash(a) <==> a[|a| - 1] == '/'
  {
    var e := |a| - 1;
    forall k | 0 <= k < e && a[k] == '/' ensures !(forall j :: k < j < |a| ==> Blank(a[j])) {
      assert k < e < |a| && !Blank(a[e]);
    }
  }

  /** What a tag name means: the table's entry of that name in any case, b and i for strong and em, else unknown. */
  lemma {:induction false} TagIdMeaning(name: string)
    ensures forall k: nat :: 0 < k < |NAMES| && Named(name, NAMES[k]) ==> TagId(name) == k
    ensures Named(name, "b") ==> TagId(name) == 16
    ensures Named(name, "i") ==> TagId(name) == 17
    ensures (forall k: nat :: 0 < k < |NAMES| ==> !Named(name, NAMES[k])) && !Named(name, "b") && !Named(name, "i") ==>
              TagId(name) == 0
  {
    hide IndexOf;
    var n := LowerAll(name);
    forall k: nat | 0 < k < |NAMES| && n == NAMES[k] ensures IndexOf(NAMES, n, 1) == k && n != "b" && n != "i" {
      NotShort(k);
      forall j | 0 < j < k ensures NAMES[j] != n { NamesDiffer(j, k); }
      IndexIs(n, 1, k);
    }
    if forall k: nat :: 0 < k < |NAMES| ==> NAMES[k] != n { IndexNone(n, 1); }
  }

  lemma {:induction false} IndexIs(name: string, i: nat, k: nat)
    requires i <= k < |NAMES| && NAMES[k] == name && forall j :: i <= j < k ==> NAMES[j] != name
    ensures IndexOf(NAMES, name, i) == k
    decreases k - i
  {
    if i < k { IndexIs(name, i + 1, k); }
  }

  lemma {:induction false} IndexNone(name: string, i: nat)
    requires i <= |NAMES| && forall j :: i <= j < |NAMES| ==> NAMES[j] != name
    ensures IndexOf(NAMES, name, i) == 0
    decreases |NAMES| - i
  {
    if i < |NAMES| { IndexNone(name, i + 1); }
  }

  lemma {:induction false} NotShort(k: nat)
    requires 0 < k < |NAMES|
    ensures NAMES[k] != [] && NAMES[k] != "b" && NAMES[k] != "i"
  {
  }

  /** No two names agree in length, first and last letter. */
  lemma {:induction false} NamesDiffer(j: nat, k: nat)
    requires 0 < j < k < |NAMES|
    ensures NAMES[j] != NAMES[k]
  {
    NotShort(j);
    NotShort(k);
    if k < 20 { EarlyNames(j, k); } else { LateNames(j, k); }
  }

  lemma {:induction false} EarlyNames(j: nat, k: nat)
    requires 0 < j < k < 20
    ensures NAMES[j] != NAMES[k]
  {
    if |NAMES[j]| == |NAMES[k]| && NAMES[j][0] == NAMES[k][0] {
      assert NAMES[j][|NAMES[j]| - 1] != NAMES[k][|NAMES[k]| - 1];
    }
  }

  lemma {:induction false} LateNames(j: nat, k: nat)
    requires 0 < j < k && 20 <= k < |NAMES|
    ensures NAMES[j] != NAMES[k]
  {
    if |NAMES[j]| == |NAMES[k]| && NAMES[j][0] == NAMES[k][0] {
      assert NAMES[j][|NAMES[j]| - 1] != NAMES[k][|NAMES[k]| - 1];
    }
  }

  // What the scanner makes of each piece

  lemma {:induction false} RunRead(h: string, p: nat, text: string)
    requires Reads(h, p, text) && text != [] && '<' !in text
    requires p + |text| < |h| ==> h[p + |text|] == '<'
    ensures p < |h| && NextToken(h, p) == Scan(Ink(HasInk(text, 0)), p + |text|)
  {
    var q := p + |text|;
    forall i | p <= i < q ensures h[i] != '<' { ReadsAt(h, p, text, i - p); }
    ScanStops(h, p, '<', q);
  }

  lemma {:induction false} CommentRead(h: string, p: nat, text: string)
    requires Reads(h, p, "<!--" + text + "-->") && Lacks(text, "-->")
    ensures p < |h| && NextToken(h, p) == Scan(Nothing, p + |text| + 7)
  {
    hide StartsWith, CommentEnd, Reads;
    ReadsBoth(h, p, "<!--" + text, "-->");
    ReadsBoth(h, p, "<!--", text);
    MarkRead(h, p, "<!--");
    var from, q := p + 4, p + 4 + |text|;
    MarkRead(h, q, "-->");
    forall i | from <= i < q ensures !StartsWith(h, i, "-->") { NoEarlyEnd(h, from, text, i - from); }
    CommentStops(h, from, q);
  }

  lemma {:induction false} MarkRead(h: string, p: nat, lit: string)
    requires Reads(h, p, lit) && lit != []
    ensures p + |lit| <= |h| && h[p] == lit[0] && StartsWith(h, p, lit)
  {
    forall k | p <= k < p + |lit| ensures h[k] == lit[k - p] { ReadsAt(h, p, lit, k - p); }
  }

  /** The end mark cannot begin inside the text and end in the mark itself. */
  lemma {:induction false} NoEarlyEnd(h: string, p: nat, text: string, i: nat)
    requires Reads(h, p, text) && Reads(h, p + |text|, "-->") && i < |text| && !StartsWith(text, i, "-->")
    ensures !StartsWith(h, p + i, "-->")
  {
    if i + 3 <= |text| {
      StartsWithin(h, p, text, i, "-->");
    } else {
      ReadsAt(h, p + |text|, "-->", i + 2 - |text|) by { hide *; }
      NotStarts(h, p + i, "-->", 2);
    }
  }

  lemma {:induction false} StartsWithin(h: string, p: nat, t: string, i: nat, lit: string)
    requires Reads(h, p, t) && i + |lit| <= |t|
    ensures StartsWith(h, p + i, lit) == StartsWith(t, i, lit)
  {
    forall k | i <= k < i + |lit| ensures h[p + k] == t[k] { ReadsAt(h, p, t, k); }
    forall j | 0 <= j < |lit| ensures Lower(h[p + i + j]) == Lower(lit[j]) <==> Lower(t[i + j]) == Lower(lit[j]) {
      assert h[p + (i + j)] == t[i + j];
    }
  }

  lemma {:induction false} NotStarts(h: string, p: nat, lit: string, j: nat)
    requires p + j < |h| && j < |lit| && Lower(h[p + j]) != Lower(lit[j])
    ensures !StartsWith(h, p, lit)
  {
  }

  lemma {:induction false} DeclarationRead(h: string, p: nat, mark: char, text: string)
    requires Reads(h, p, "<" + [mark] + text + ">") && GoodItem(Declaration(mark, text))
    ensures p < |h| && NextToken(h, p) == Scan(Nothing, p + |text| + 3)
  {
    var t := "<" + [mark] + text + ">";
    forall i | 0 <= i < |t| ensures h[p + i] == t[i] { ReadsAt(h, p, t, i); }
    assert t[0] == '<' && t[1] == mark;
    NotComment(h, p, mark, text);
    forall i | p <= i < p + |text| + 2 ensures h[i] != '>' {
      assert h[p + (i - p)] == t[i - p];
      if i >= p + 2 { assert t[i - p] == text[i - p - 2]; }
    }
    assert t[|text| + 2] == '>';
    ScanStops(h, p, '>', p + |text| + 2);
  }

  lemma {:induction false} NotComment(h: string, p: nat, mark: char, text: string)
    requires Reads(h, p, "<" + [mark] + text + ">") && GoodItem(Declaration(mark, text))
    ensures !StartsWith(h, p, "<!--")
  {
    var t := "<" + [mark] + text + ">";
    assert |t| == |text| + 3 && t[1] == mark && t[|text| + 2] == '>';
    assert forall i :: 0 <= i < |text| ==> t[i + 2] == text[i];
    if mark == '?' {
      ReadsAt(h, p, t, 1);
      NotStarts(h, p, "<!--", 1);
    } else if |text| == 0 || text[0] != '-' {
      ReadsAt(h, p, t, 2);
      NotStarts(h, p, "<!--", 2);
    } else {
      assert "--" <= text <==> |text| >= 2 && text[..2] == "--";
      ReadsAt(h, p, t, 3);
      NotStarts(h, p, "<!--", 3);
    }
  }

  /** Where the parts of a tag lie. */
  lemma {:induction false} TagParts(h: string, p: nat, mark: string, name: string, attrs: string)
    requires Reads(h, p, mark + name + attrs + ">")
    ensures p + |mark| + |name| + |attrs| < |h| && Reads(h, p, mark) && Reads(h, p + |mark|, name)
    ensures Reads(h, p + |mark| + |name|, attrs) && h[p + |mark| + |name| + |attrs|] == '>'
  {
    ReadsBoth(h, p, mark + name + attrs, ">");
    ReadsBoth(h, p, mark + name, attrs);
    ReadsBoth(h, p, mark, name);
    ReadsAt(h, p + |mark| + |name| + |attrs|, ">", 0);
  }

  lemma {:induction false} NameRead(h: string, from: nat, name: string, attrs: string)
    requires Reads(h, from, name) && GoodName(name) && Reads(h, from + |name|, attrs) && GoodAttrs(attrs)
    requires from + |name| + |attrs| < |h| && h[from + |name| + |attrs|] == '>'
    ensures SkipSpaces(h, from) == from && NameEnd(h, from) == from + |name| && h[from..from + |name|] == name
    ensures ScanTo(h, from + |name|, '>') == from + |name| + |attrs| && h[from] == name[0]
  {
    var to := from + |name|;
    ReadsAt(h, from, name, 0);
    forall i | from <= i < to ensures !Space(h[i]) && h[i] != '>' && h[i] != '/' { ReadsAt(h, from, name, i - from); }
    if attrs != [] { ReadsAt(h, to, attrs, 0); }
    NameStops(h, from, to);
    forall i | to <= i < to + |attrs| ensures h[i] != '>' {
      ReadsAt(h, to, attrs, i - to);
      assert attrs[i - to] in attrs;
    }
    ScanStops(h, to, '>', to + |attrs|);
  }

  lemma {:induction false} EndRead(h: string, p: nat, name: string)
    requires Reads(h, p, "</" + name + ">") && GoodName(name)
    ensures p < |h| && NextToken(h, p) == Scan(Close(TagId(name)), p + |name| + 3)
  {
    hide TagId, ScanTo, SkipSpaces, NameEnd, Reads, GoodName;
    assert "</" + name + "" + ">" == "</" + name + ">";
    TagParts(h, p, "</", name, "");
    assert Reads(h, p + 2 + |name|, "");
    assert GoodAttrs("");
    NameRead(h, p + 2, name, "");
    EndBegins(h, p);
  }

  lemma {:induction false} EndBegins(h: string, p: nat)
    requires Reads(h, p, "</")
    ensures h[p] == '<' && p + 1 < |h| && h[p + 1] == '/' && !StartsWith(h, p, "<!--")
  {
    ReadsAt(h, p, "</", 0);
    ReadsAt(h, p, "</", 1);
    if p + 1 < |h| { NotStarts(h, p, "<!--", 1); }
  }

  /** A start tag: its name, its attributes, whether it ends in a slash, and where the text behind it begins. */
  lemma {:induction false} StartRead(h: string, p: nat, name: string, attrs: string)
    requires Reads(h, p, "<" + name + attrs + ">") && GoodName(name) && GoodAttrs(attrs)
    ensures var body := p + |name| + |attrs| + 2;
            && body <= |h| && p < |h|
            && NextToken(h, p).token == Open(TagId(name), EndsInSlash(attrs), attrs)
            && NextToken(h, p).next == (if IsRaw(name) then
                 PastGt(h, FindText(h, body, if Named(name, "style") then "</style" else "</script"))
               else body)
  {
    hide *;
    assert IsRaw(name) <==> Named(name, "style") || Named(name, "script") by { RawNames(name); }
    TagParts(h, p, "<", name, attrs);
    NameRead(h, p + 1, name, attrs);
    StartBegins(h, p, name);
    PartRead(h, p + 1 + |name|, attrs);
    SlashMeaning(attrs);
    RawTags(name);
    OpenRead(h, p, name, attrs);
  }

  lemma {:induction false} PartRead(h: string, p: nat, t: string)
    requires Reads(h, p, t)
    ensures p + |t| <= |h| && h[p..p + |t|] == t
  {
  }

  lemma {:induction false} RawNames(name: string)
    ensures IsRaw(name) <==> Named(name, "style") || Named(name, "script")
    ensures !(Named(name, "style") && Named(name, "script"))
  {
  }

  lemma {:induction false} StartBegins(h: string, p: nat, name: string)
    requires Reads(h, p, "<") && Reads(h, p + 1, name) && GoodName(name)
    ensures p < |h| && NextToken(h, p) == OpenToken(h, p)
  {
    hide OpenToken;
    ReadsAt(h, p, "<", 0);
    ReadsAt(h, p + 1, name, 0);
    NotStarts(h, p, "<!--", 1);
  }

  lemma {:induction false} OpenRead(h: string, p: nat, name: string, attrs: string)
    requires p + |name| + |attrs| + 1 < |h| && h[p + |name| + |attrs| + 1] == '>'
    requires var from, to := p + 1, p + 1 + |name|;
             && SkipSpaces(h, from) == from && NameEnd(h, from) == to && h[from..to] == name
             && ScanTo(h, to, '>') == to + |attrs| && h[to..to + |attrs|] == attrs
    ensures var body := p + |name| + |attrs| + 2;
            && OpenToken(h, p).token == Open(TagId(name), SelfClosing(attrs), attrs)
            && OpenToken(h, p).next == (if TagId(name) == STYLE then PastGt(h, FindText(h, body, "</style"))
               else if TagId(name) == SCRIPT then PastGt(h, FindText(h, body, "</script"))
               else body)
  {
    hide TagId, ScanTo, SkipSpaces, NameEnd, FindText, SelfClosing;
  }

  lemma {:induction false} RawTags(name: string)
    ensures TagId(name) == STYLE <==> Named(name, "style")
    ensures TagId(name) == SCRIPT <==> Named(name, "script")
    ensures VoidTag(TagId(name)) <==> IsVoid(name)
  {
    hide LowerAll, TagId;
    TagIdMeaning(name);
    KnownNames();
    var t := TagId(name);
    TagIsName(name);
  }

  lemma {:induction false} KnownNames()
    ensures NAMES[28] == "style" && NAMES[27] == "script"
    ensures NAMES[10] == "br" && NAMES[11] == "hr" && NAMES[29] == "img"
    ensures |NAMES| == 31
  {
  }

  /** A known tag number stems from its name, or from b or i. */
  lemma {:induction false} TagIsName(name: string)
    ensures var t := TagId(name);
            t != 0 && t != 16 && t != 17 ==> t < |NAMES| && Named(name, NAMES[t])
  {
    hide LowerAll;
    IndexMatches(NAMES, LowerAll(name), 1);
  }

  lemma {:induction false} IndexMatches(names: seq<string>, name: string, i: nat)
    requires 0 < i <= |names|
    ensures var k := IndexOf(names, name, i); k > 0 ==> k < |names| && names[k] == name
    decreases |names| - i
  {
    if i < |names| && names[i] != name { IndexMatches(names, name, i + 1); }
  }

  /** A raw element reads up to its own end tag. */
  lemma {:induction false} RawRead(h: string, p: nat, name: string, attrs: string, content: string)
    requires Reads(h, p, PrintItem(Raw(name, attrs, content))) && GoodItem(Raw(name, attrs, content))
    ensures p < |h| && NextToken(h, p).token == Open(TagId(name), EndsInSlash(attrs), attrs)
    ensures NextToken(h, p).next == p + |PrintItem(Raw(name, attrs, content))|
  {
    hide TagId, EndsInSlash, NextToken, FindText, PastGt, StartsWith, LowerAll;
    var start, end := "<" + name + attrs + ">", "</" + name + ">";
    ReadsBoth(h, p, start, content + end);
    StartRead(h, p, name, attrs);
    var body := p + |start|;
    ReadsBoth(h, body, content, end);
    var lit := if Named(name, "style") then "</style" else "</script";
    var q := body + |content|;
    EndTagStarts(h, q, name, lit);
    forall i | body <= i < q ensures !StartsWith(h, i, lit) { NoStraddle(h, body, content, name, lit, i - body); }
    FindStops(h, body, lit, q);
    EndTagEnds(h, q, name);
  }

  lemma {:induction false} EndTagEnds(h: string, q: nat, name: string)
    requires Reads(h, q, "</" + name + ">") && GoodName(name)
    ensures q + |name| + 3 <= |h| && PastGt(h, q) == q + |name| + 3
  {
    var end := "</" + name + ">";
    forall i | q <= i < q + |end| - 1 ensures h[i] != '>' {
      ReadsAt(h, q, end, i - q);
      if i >= q + 2 { assert end[i - q] == name[i - q - 2]; }
    }
    ReadsAt(h, q, end, |end| - 1);
    ScanStops(h, q, '>', q + |end| - 1);
  }

  lemma {:induction false} EndTagStarts(h: string, q: nat, name: string, lit: string)
    requires Reads(h, q, "</" + name + ">")
    requires (Named(name, "style") && lit == "</style") || (Named(name, "script") && lit == "</script")
    ensures q < |h| && StartsWith(h, q, lit) && |lit| == |name| + 2
  {
    var end := "</" + name + ">";
    var low := LowerAll(name);
    assert lit == "</" + low;
    forall i | 0 <= i < |lit| ensures Lower(h[q + i]) == Lower(lit[i]) {
      ReadsAt(h, q, end, i);
      if i >= 2 { assert end[i] == name[i - 2] && lit[i] == low[i - 2] == Lower(name[i - 2]); }
    }
  }

  /** The end tag's beginning does not start inside the content: behind its '<' there is none. */
  lemma {:induction false} NoStraddle(h: string, body: nat, content: string, name: string, lit: string, i: nat)
    requires Reads(h, body, content) && Reads(h, body + |content|, "</" + name + ">") && i < |content|
    requires lit == "</style" || lit == "</script"
    requires !StartsWith(content, i, lit)
    ensures !StartsWith(h, body + i, lit)
  {
    if i + |lit| <= |content| {
      StartsWithin(h, body, content, i, lit);
    } else {
      var j := |content| - i;
      ReadsAt(h, body + |content|, "</" + name + ">", 0);
      NotStarts(h, body + i, lit, j);
    }
  }

  // What the builder makes of the tokens

  lemma {:induction false} AddRow(s: seq<Node>, p: nat, kind: Kind, tag: nat, look: Look)
    requires Forward(s) && p < |s|
    ensures RowsOf(AddNode(s, p, kind, tag, look)) == RowsOf(s) + [Row(kind, tag, p, look)]
  {
  }

  lemma {:induction false} BuildTurn(h: string, p: nat, b: Builder, look: string -> Look)
    requires p < |h| && Inv(b) && |b.nodes| < MAX_NODES
    ensures var scan := NextToken(h, p);
            && Inv(Step(b, scan.token, look))
            && Build(h, p, b, look) == Build(h, scan.next, Step(b, scan.token, look), look)
  {
    hide Inv, NextToken, Step;
    StepKeeps(b, NextToken(h, p).token, look);
  }

  lemma {:induction false} BuildFull(h: string, p: nat, b: Builder, look: string -> Look)
    requires p <= |h| && Inv(b) && |b.nodes| >= MAX_NODES
    ensures Build(h, p, b, look) == b
  {
    hide Inv;
  }

  /** From p to q the builder adds these rows and leaves the open elements as they are, or the node array fills up with
      the first of them. */
  ghost predicate Builds(h: string, p: nat, b: Builder, look: string -> Look, q: nat, rows: seq<Row>, c: Builder)
    requires p <= |h| && Inv(b)
  {
    if |b.nodes| + |rows| < MAX_NODES then
      && q <= |h| && Inv(c) && c.open == b.open && RowsOf(c.nodes) == RowsOf(b.nodes) + rows
      && Build(h, p, b, look) == Build(h, q, c, look)
    else
      RowsOf(Build(h, p, b, look).nodes) == (RowsOf(b.nodes) + rows)[..MAX_NODES]
  }

  lemma {:induction false} BuildsBoth(h: string, p: nat, b: Builder, look: string -> Look, q: nat, first: seq<Row>,
                                      c: Builder, r: nat, rest: seq<Row>, d: Builder)
    requires p <= |h| && q <= |h| && Inv(b) && Builds(h, p, b, look, q, first, c)
    requires |b.nodes| + |first| < MAX_NODES ==> Inv(c) && Builds(h, q, c, look, r, rest, d)
    ensures Builds(h, p, b, look, r, first + rest, d)
  {
    hide Inv, Build, RowsOf;
    var rows := RowsOf(b.nodes);
    assert rows + (first + rest) == (rows + first) + rest;
    if |b.nodes| + |first| < MAX_NODES {
      assert |c.nodes| == |b.nodes| + |first|;
    } else {
      assert ((rows + first) + rest)[..MAX_NODES] == (rows + first)[..MAX_NODES];
    }
  }

  /** A token that adds at most one row and opens nothing. */
  lemma {:induction false} OneToken(h: string, p: nat, b: Builder, look: string -> Look, rows: seq<Row>)
    requires p < |h| && Inv(b) && |b.nodes| < MAX_NODES && |rows| <= 1
    requires var scan := NextToken(h, p);
             var c := Step(b, scan.token, look);
             c.open == b.open && RowsOf(c.nodes) == RowsOf(b.nodes) + rows
    ensures var scan := NextToken(h, p);
            Builds(h, p, b, look, scan.next, rows, Step(b, scan.token, look))
  {
    hide Inv, NextToken, Step, Build, RowsOf;
    BuildTurn(h, p, b, look);
    var scan := NextToken(h, p);
    var c := Step(b, scan.token, look);
    if |b.nodes| + |rows| >= MAX_NODES {
      BuildFull(h, scan.next, c, look);
      assert (RowsOf(b.nodes) + rows)[..MAX_NODES] == RowsOf(b.nodes) + rows;
    }
  }

  /** The start tag of an element that stays open. */
  lemma {:induction false} Opened(b: Builder, t: nat, attrs: string, look: string -> Look)
    requires Inv(b) && |b.nodes| < MAX_NODES && |b.open| < MAX_OPEN
    requires t != STYLE && t != SCRIPT && !VoidTag(t)
    ensures var c := Step(b, Open(t, false, attrs), look);
            && c.open == b.open + [|b.nodes|]
            && RowsOf(c.nodes) == RowsOf(b.nodes) + [Row(Element, t, Top(b), look(attrs))]
  {
    hide AddNode, Linked, Rightmost, Walk, Depth, Anc, RootPath;
    AddRow(b.nodes, Top(b), Element, t, look(attrs));
  }

  /** The start tag of an element that takes no children, or for which the stack has no room. */
  lemma {:induction false} Added(b: Builder, t: nat, self: bool, attrs: string, look: string -> Look)
    requires Inv(b) && |b.nodes| < MAX_NODES
    requires t == STYLE || t == SCRIPT || VoidTag(t) || self || |b.open| >= MAX_OPEN
    ensures var c := Step(b, Open(t, self, attrs), look);
            && c.open == b.open
            && RowsOf(c.nodes) == RowsOf(b.nodes) + [Row(Element, t, Top(b), look(attrs))]
  {
    hide AddNode, Linked, Rightmost, Walk, Depth, Anc, RootPath;
    AddRow(b.nodes, Top(b), Element, t, look(attrs));
  }

  lemma {:induction false} Inked(b: Builder, any: bool, look: string -> Look)
    requires Inv(b) && |b.nodes| < MAX_NODES
    ensures var c := Step(b, Ink(any), look);
            && c.open == b.open
            && RowsOf(c.nodes) == RowsOf(b.nodes) + if any then [Row(Text, UNKNOWN, Top(b), PLAIN)] else []
  {
    hide AddNode, Linked, Rightmost, Walk, Depth, Anc, RootPath;
    AddRow(b.nodes, Top(b), Text, UNKNOWN, PLAIN);
  }

  /** The end tag of the innermost open element. */
  lemma {:induction false} Closed(b: Builder, t: nat, look: string -> Look)
    requires Inv(b) && |b.nodes| < MAX_NODES && |b.open| > 1 && RowsOf(b.nodes)[Top(b)].tag == t
    ensures Step(b, Close(t), look) == b.(open := b.open[..|b.open| - 1])
  {
    hide AddNode, Linked, Rightmost, Walk, Depth, Anc, RootPath;
  }

  lemma {:induction false} NothingBuilds(h: string, p: nat, b: Builder, look: string -> Look)
    requires p < |h| && Inv(b) && |b.nodes| < MAX_NODES && NextToken(h, p).token == Nothing
    ensures Builds(h, p, b, look, NextToken(h, p).next, [], b)
  {
    hide Inv, NextToken, RowsOf, Builds;
    assert RowsOf(b.nodes) + [] == RowsOf(b.nodes);
    OneToken(h, p, b, look, []);
  }

  lemma {:induction false} StartBuilds(h: string, p: nat, item: Item, b: Builder, look: string -> Look)
    returns (c: Builder)
    requires Inv(b) && |b.nodes| < MAX_NODES && Reads(h, p, PrintItem(item)) && GoodItem(item)
    requires item.Leaf? || item.Raw?
    ensures Builds(h, p, b, look, p + |PrintItem(item)|, ItemRows(item, Top(b), |b.nodes|, look), c)
  {
    hide Inv, Builds, NextToken, Step, TagId, EndsInSlash, LowerAll, RowsOf, Reads;
    if item.Leaf? {
      StartRead(h, p, item.name, item.attrs);
    } else {
      RawRead(h, p, item.name, item.attrs, item.content);
    }
    RawTags(item.name);
    Added(b, TagId(item.name), EndsInSlash(item.attrs), item.attrs, look);
    OneToken(h, p, b, look, [Row(Element, TagId(item.name), Top(b), look(item.attrs))]);
    c := Step(b, NextToken(h, p).token, look);
  }

  lemma {:induction false} ItemBuilds(h: string, p: nat, item: Item, b: Builder, look: string -> Look)
    returns (c: Builder)
    requires Inv(b) && |b.nodes| < MAX_NODES && Reads(h, p, PrintItem(item)) && GoodItem(item)
    requires item.Run? && p + |PrintItem(item)| < |h| ==> h[p + |PrintItem(item)|] == '<'
    requires item.Nested? ==> |b.open| + 1 + Height(item.body) <= MAX_OPEN
    ensures Builds(h, p, b, look, p + |PrintItem(item)|, ItemRows(item, Top(b), |b.nodes|, look), c)
    decreases item, 1
  {
    hide Inv, Builds, NextToken, Step, HasInk, TagId, EndsInSlash, LowerAll, RowsOf, Reads;
    match item
    case Run(text) =>
      RunRead(h, p, text);
      Inked(b, HasInk(text, 0), look);
      OneToken(h, p, b, look, ItemRows(item, Top(b), |b.nodes|, look));
      c := Step(b, NextToken(h, p).token, look);
    case Comment(text) =>
      CommentRead(h, p, text);
      NothingBuilds(h, p, b, look);
      c := b;
    case Declaration(mark, text) =>
      DeclarationRead(h, p, mark, text);
      NothingBuilds(h, p, b, look);
      c := b;
    case Leaf(_, _) => c := StartBuilds(h, p, item, b, look);
    case Raw(_, _, _) => c := StartBuilds(h, p, item, b, look);
    case Nested(_, _, _) => c := NestedBuilds(h, p, item, b, look);
  }

  /** From behind the start tag: the body, then the end tag. */
  lemma {:induction false} EndBuilds(h: string, q: nat, name: string, b: Builder, c0: Builder, look: string -> Look,
                                     row: Row, rows: seq<Row>, d: Builder)
    requires Inv(b) && Inv(c0) && Inv(d) && Reads(h, q, "</" + name + ">") && GoodName(name)
    requires row.tag == TagId(name) && RowsOf(c0.nodes) == RowsOf(b.nodes) + [row] && c0.open == b.open + [|b.nodes|]
    requires d.open == c0.open && RowsOf(d.nodes) == RowsOf(c0.nodes) + rows && |d.nodes| < MAX_NODES
    ensures var c := d.(open := b.open);
            && q + |name| + 3 <= |h| && Inv(c) && RowsOf(c.nodes) == RowsOf(b.nodes) + ([row] + rows)
            && Build(h, q, d, look) == Build(h, q + |name| + 3, c, look)
  {
    hide Inv, NextToken, Step, TagId, RowsOf, Build, Reads, Closes;
    EndRead(h, q, name);
    assert RowsOf(d.nodes)[|b.nodes|] == row;
    Closed(d, TagId(name), look);
    assert d.open[..|d.open| - 1] == b.open;
    BuildTurn(h, q, d, look);
    assert (RowsOf(b.nodes) + [row]) + rows == RowsOf(b.nodes) + ([row] + rows);
  }

  lemma {:induction false} NestedBuilds(h: string, p: nat, item: Item, b: Builder, look: string -> Look)
    returns (c: Builder)
    requires Inv(b) && |b.nodes| < MAX_NODES && Reads(h, p, PrintItem(item)) && GoodItem(item)
    requires item.Nested? && |b.open| + 1 + Height(item.body) <= MAX_OPEN
    ensures Builds(h, p, b, look, p + |PrintItem(item)|, ItemRows(item, Top(b), |b.nodes|, look), c)
    decreases item, 0
  {
    hide Inv, NextToken, Step, TagId, EndsInSlash, LowerAll, RowsOf, Build, Print, Rows, GoodName, GoodAttrs;
    var name, attrs, body, k := item.name, item.attrs, item.body, |b.nodes|;
    var start, end := "<" + name + attrs + ">", "</" + name + ">";
    ReadsBoth(h, p, start, Print(body) + end);
    ReadsBoth(h, p + |start|, Print(body), end);
    StartRead(h, p, name, attrs);
    RawTags(name);
    Opened(b, TagId(name), attrs, look);
    BuildTurn(h, p, b, look);
    var c0 := Step(b, NextToken(h, p).token, look);
    var row := Row(Element, TagId(name), Top(b), look(attrs));
    var more := Rows(body, k, k + 1, look);
    var q := p + |start| + |Print(body)|;
    assert |c0.nodes| == k + 1;
    assert (RowsOf(b.nodes) + [row]) + more == RowsOf(b.nodes) + ([row] + more);
    if |c0.nodes| >= MAX_NODES {
      BuildFull(h, p + |start|, c0, look);
      c := b;
    } else {
      ReadsAt(h, q, end, 0);
      var d := ListBuilds(h, p + |start|, body, c0, look);
      if k + 1 + |more| < MAX_NODES {
        EndBuilds(h, q, name, b, c0, look, row, more, d);
        c := d.(open := b.open);
      } else {
        c := b;
      }
    }
  }

  lemma {:induction false} ListBuilds(h: string, p: nat, items: seq<Item>, b: Builder, look: string -> Look)
    returns (c: Builder)
    requires Inv(b) && |b.nodes| < MAX_NODES && Reads(h, p, Print(items)) && Good(items)
    requires p + |Print(items)| < |h| ==> h[p + |Print(items)|] == '<'
    requires |b.open| + Height(items) <= MAX_OPEN
    ensures p + |Print(items)| <= |h|
    ensures Builds(h, p, b, look, p + |Print(items)|, Rows(items, Top(b), |b.nodes|, look), c)
    decreases items
  {
    hide Inv, Build, RowsOf, PrintItem, ItemRows, GoodItem, Reads, Builds;
    var k, total := |b.nodes|, Print(items);
    assert p + |total| <= |h| by { PartRead(h, p, total); }
    if items == [] {
      c := b;
      EmptyBuilds(h, p, b, look);
    } else {
      var item, rest := items[0], items[1..];
      ReadsBoth(h, p, PrintItem(item), Print(rest));
      PartRead(h, p, PrintItem(item));
      var q := p + |PrintItem(item)|;
      NextBegins(h, q, items);
      c := ItemBuilds(h, p, item, b, look);
      var first := ItemRows(item, Top(b), k, look);
      var d := c;
      if k + |first| < MAX_NODES {
        BuiltSize(h, p, b, look, q, first, c);
        d := ListBuilds(h, q, rest, c, look);
      }
      BuildsBoth(h, p, b, look, q, first, c, q + |Print(rest)|, Rows(rest, Top(b), k + |first|, look), d);
      c := d;
    }
  }

  lemma {:induction false} EmptyBuilds(h: string, p: nat, b: Builder, look: string -> Look)
    requires p <= |h| && Inv(b) && |b.nodes| < MAX_NODES
    ensures Builds(h, p, b, look, p, [], b)
  {
    hide Inv, Build, RowsOf;
    assert RowsOf(b.nodes) + [] == RowsOf(b.nodes);
  }

  lemma {:induction false} BuiltSize(h: string, p: nat, b: Builder, look: string -> Look, q: nat, rows: seq<Row>,
                                     c: Builder)
    requires p <= |h| && Inv(b) && |b.nodes| + |rows| < MAX_NODES && Builds(h, p, b, look, q, rows, c)
    ensures q <= |h| && Inv(c) && c.open == b.open && |c.nodes| == |b.nodes| + |rows|
  {
    hide Inv, Build, RowsOf;
    assert |RowsOf(c.nodes)| == |RowsOf(b.nodes) + rows|;
  }

  /** Behind a run of text comes a tag, if anything. */
  lemma {:induction false} NextBegins(h: string, q: nat, items: seq<Item>)
    requires items != [] && Good(items) && Reads(h, q, Print(items[1..]))
    requires q + |Print(items[1..])| < |h| ==> h[q + |Print(items[1..])|] == '<'
    ensures items[0].Run? && q < |h| ==> h[q] == '<'
  {
    var rest := items[1..];
    if items[0].Run? && rest != [] {
      assert Print(rest) == PrintItem(rest[0]) + Print(rest[1..]);
      ReadsAt(h, q, Print(rest), 0);
    }
  }

  /** Main result: for every such document that nests at most 47 levels deep, parsing its print gives exactly its nodes,
      below the root and in preorder, up to the 384 that there is room for. */
  lemma {:induction false} ParsesBack(items: seq<Item>, look: string -> Look)
    requires Good(items) && Height(items) <= 47
    ensures var rows := [Row(Root, UNKNOWN, -1, PLAIN)] + Rows(items, 0, 1, look);
            RowsOf(Parse(Print(items), look).nodes) == if |rows| <= 384 then rows else rows[..384]
  {
    hide Inv, Build, Rows, Print, RowsOf;
    var h := Print(items);
    EmptyInv();
    assert Reads(h, 0, h) by { assert h[0..|h|] == h; }
    var c := ListBuilds(h, 0, items, EMPTY, look);
    RootRow();
    var root, rows := [Row(Root, UNKNOWN, -1, PLAIN)], Rows(items, 0, 1, look);
    if 1 + |rows| < MAX_NODES {
      BuildDone(h, c, look);
    } else if 1 + |rows| == MAX_NODES {
      assert (root + rows)[..MAX_NODES] == root + rows;
    }
  }

  lemma {:induction false} RootRow()
    ensures RowsOf(EMPTY.nodes) == [Row(Root, UNKNOWN, -1, PLAIN)] && |EMPTY.nodes| == 1 && EMPTY.open == [0]
  {
  }

  lemma {:induction false} BuildDone(h: string, c: Builder, look: string -> Look)
    requires Inv(c)
    ensures Build(h, |h|, c, look) == c
  {
    hide Inv;
  }

  // Texts that are no document of this form

  /** An end tag closes the innermost open element with that tag together with all that is open inside it; if there is
      none, it does nothing. The root is never closed. */
  lemma {:induction false} EndTagMeaning(b: Builder, t: nat, look: string -> Look)
    requires Inv(b) && |b.nodes| < MAX_NODES
    ensures (forall j :: 0 < j < |b.open| ==> b.nodes[b.open[j]].tag != t) ==> Step(b, Close(t), look) == b
    ensures forall k :: 0 < k < |b.open| && b.nodes[b.open[k]].tag == t
                        && (forall j :: k < j < |b.open| ==> b.nodes[b.open[j]].tag != t) ==>
              Step(b, Close(t), look) == b.(open := b.open[..k])
  {
    hide AddNode, Linked, Rightmost, Walk, Depth, Anc, RootPath, Closes;
    var top := |b.open| - 1;
    ClosesInnermost(b, t, top);
  }

  lemma {:induction false} ClosesInnermost(b: Builder, t: nat, i: nat)
    requires i < |b.open| && forall j :: 0 <= j < |b.open| ==> b.open[j] < |b.nodes|
    ensures var k := Closes(b, t, i);
            && k <= i && (k > 0 ==> b.nodes[b.open[k]].tag == t)
            && forall j :: k < j <= i ==> b.nodes[b.open[j]].tag != t
    decreases i
  {
  }

  /** br, hr, img, style and script, by their numbers. */
  predicate Barren(tag: nat) { tag == 10 || tag == 11 || tag == 29 || tag == 28 || tag == 27 }

  /** No open element and no parent is one of these. */
  ghost predicate NoneBarren(rows: seq<Row>, open: seq<nat>) {
    && (forall j :: 0 <= j < |open| ==> open[j] < |rows| && !Barren(rows[open[j]].tag))
    && (forall i :: 0 < i < |rows| ==> 0 <= rows[i].parent < |rows| && !Barren(rows[rows[i].parent].tag))
  }

  lemma {:induction false} StepBarren(b: Builder, tok: Token, look: string -> Look)
    requires Inv(b) && |b.nodes| < MAX_NODES && NoneBarren(RowsOf(b.nodes), b.open)
    ensures var c := Step(b, tok, look); NoneBarren(RowsOf(c.nodes), c.open)
  {
    hide RowsOf, Inv, Step;
    match tok
    case Nothing => assert Step(b, tok, look) == b by { hide *; NothingDone(b, look); }
    case Ink(any) => Inked(b, any, look);
    case Close(t) => Closing(b, t, look);
    case Open(t, self, attrs) =>
      if t != STYLE && t != SCRIPT && !VoidTag(t) && !self && |b.open| < MAX_OPEN {
        Opened(b, t, attrs, look);
      } else {
        Added(b, t, self, attrs, look);
      }
  }

  lemma {:induction false} NothingDone(b: Builder, look: string -> Look)
    requires Inv(b) && |b.nodes| < MAX_NODES
    ensures Step(b, Nothing, look) == b
  {
  }

  lemma {:induction false} Closing(b: Builder, t: nat, look: string -> Look)
    requires Inv(b) && |b.nodes| < MAX_NODES
    ensures var c := Step(b, Close(t), look); c.nodes == b.nodes && c.open <= b.open
  {
    hide AddNode, Linked, Rightmost, Walk, Depth, Anc, RootPath, Closes;
  }

  lemma {:induction false} BuildBarren(h: string, p: nat, b: Builder, look: string -> Look)
    requires p <= |h| && Inv(b) && NoneBarren(RowsOf(b.nodes), b.open)
    ensures var c := Build(h, p, b, look); NoneBarren(RowsOf(c.nodes), c.open)
    decreases |h| - p
  {
    if p < |h| && |b.nodes| < MAX_NODES {
      hide Inv, NextToken, Step, RowsOf, NoneBarren;
      StepKeeps(b, NextToken(h, p).token, look);
      StepBarren(b, NextToken(h, p).token, look);
      BuildBarren(h, NextToken(h, p).next, Step(b, NextToken(h, p).token, look), look);
    }
  }

  /** Whatever the text, no node's parent is a br, hr, img, style or script element. */
  lemma {:induction false} VoidsHaveNoChildren(h: string, look: string -> Look)
    ensures var s := Parse(h, look).nodes;
            forall i :: 0 < i < |s| ==> 0 <= s[i].parent < |s| && s[s[i].parent].tag !in {10, 11, 29, 28, 27}
  {
    hide Inv, Build;
    EmptyInv();
    RootRow();
    BuildBarren(h, 0, EMPTY, look);
    var s := Parse(h, look).nodes;
    forall i | 0 < i < |s| ensures 0 <= s[i].parent < |s| && s[s[i].parent].tag !in {10, 11, 29, 28, 27} {
      assert RowsOf(s)[i].parent == s[i].parent;
      assert !Barren(RowsOf(s)[s[i].parent].tag);
    }
  }

  // Which text runs leave a node

  /** A blank, or a non-breaking space by name. */
  predicate Filler(piece: string) {
    (|piece| == 1 && Blank(piece[0])) || LowerAll(piece) == "&nbsp;"
  }

  function Joined(pieces: seq<string>): string {
    if pieces == [] then "" else pieces[0] + Joined(pieces[1..])
  }

  /** A run of text leaves a node unless it consists of blanks and non-breaking spaces. */
  lemma {:induction false} InkIff(s: string)
    ensures !HasInk(s, 0) <==>
            exists pieces :: Joined(pieces) == s && forall i :: 0 <= i < |pieces| ==> Filler(pieces[i])
  {
    assert s[0..] == s;
    if !HasInk(s, 0) {
      var pieces := FillersOf(s, 0);
    }
    forall pieces | Joined(pieces) == s && forall i :: 0 <= i < |pieces| ==> Filler(pieces[i]) ensures !HasInk(s, 0) {
      FillersHaveNoInk(s, 0, pieces);
    }
  }

  lemma {:induction false} FillersOf(s: string, i: nat) returns (pieces: seq<string>)
    requires i <= |s| && !HasInk(s, i)
    ensures Joined(pieces) == s[i..] && forall k :: 0 <= k < |pieces| ==> Filler(pieces[k])
    decreases |s| - i
  {
    if i == |s| {
      pieces := [];
    } else {
      var n := if Space(s[i]) then 1 else 6;
      if n == 6 { NbspLower(s, i); }
      var rest := FillersOf(s, i + n);
      pieces := [s[i..i + n]] + rest;
      assert s[i..i + n] + s[i + n..] == s[i..];
    }
  }

  lemma {:induction false} NbspLower(s: string, i: nat)
    requires StartsWith(s, i, "&nbsp;")
    ensures LowerAll(s[i..i + 6]) == "&nbsp;"
  {
    var lit := "&nbsp;";
    forall k | 0 <= k < 6 ensures LowerAll(s[i..i + 6])[k] == lit[k] {
      assert Lower(s[i + k]) == Lower(lit[k]) == lit[k];
    }
  }

  lemma {:induction false} FillersHaveNoInk(s: string, i: nat, pieces: seq<string>)
    requires i <= |s| && Joined(pieces) == s[i..] && forall k :: 0 <= k < |pieces| ==> Filler(pieces[k])
    ensures !HasInk(s, i)
    decreases |pieces|
  {
    if pieces != [] {
      var piece := pieces[0];
      var n := |piece|;
      assert s[i..][..n] == piece && s[i..][n..] == s[i + n..];
      assert s[i] == piece[0];
      if n == 6 { NbspStarts(s, i, piece); }
      FillersHaveNoInk(s, i + n, pieces[1..]);
    }
  }

  lemma {:induction false} NbspStarts(s: string, i: nat, piece: string)
    requires i + 6 <= |s| && s[i..i + 6] == piece && LowerAll(piece) == "&nbsp;"
    ensures StartsWith(s, i, "&nbsp;") && !Space(s[i])
  {
    var lit := "&nbsp;";
    forall k | 0 <= k < 6 ensures Lower(s[i + k]) == Lower(lit[k]) {
      assert piece[k] == s[i + k] && LowerAll(piece)[k] == lit[k];
    }
    assert s[i + 0] == piece[0] && LowerAll(piece)[0] == lit[0];
  }
}
