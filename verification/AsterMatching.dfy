/** What selectors mean: which texts are accepted as which selector, which nodes a selector matches, and whose style a
    node ends up with. */
module AsterMatching {
  import opened Bytes
  import opened AsterTree
  import opened AsterParser
  import opened AsterCascade
  import opened AsterRoundTrip

  // Words of a class attribute

  /** c[a..b] is a word of c, delimited by white space or the ends. */
  predicate WordAt(c: string, a: int, b: int) {
    0 <= a <= b <= |c| && (a == 0 || Space(c[a - 1])) && (b == |c| || Space(c[b]))
  }

  predicate Solid(w: string) {
    w != "" && forall i :: 0 <= i < |w| ==> !Space(w[i])
  }

  lemma {:induction false} SkipMeaning(s: string, i: nat)
    requires i <= |s|
    ensures var a := SkipSpaces(s, i); (a < |s| ==> !Space(s[a])) && forall j :: i <= j < a ==> Space(s[j])
    decreases |s| - i
  {
    if i < |s| && Space(s[i]) { SkipMeaning(s, i + 1); }
  }

  lemma {:induction false} WordEndMeaning(s: string, i: nat)
    requires i <= |s|
    ensures var z := WordEnd(s, i); (z < |s| ==> Space(s[z])) && forall j :: i <= j < z ==> !Space(s[j])
    decreases |s| - i
  {
    if i < |s| && !Space(s[i]) { WordEndMeaning(s, i + 1); }
  }

  /** The word loop from a word boundary on finds every word behind it. */
  lemma {:induction false} HasWordIff(s: string, i: nat, name: string)
    requires i <= |s| && Solid(name) && (i == 0 || i == |s| || Space(s[i]))
    ensures HasWord(s, i, name) <==> exists a, b :: i <= a && WordAt(s, a, b) && s[a..b] == name
    decreases |s| - i
  {
    if i < |s| {
      var a := SkipSpaces(s, i);
      var z := WordEnd(s, a);
      SkipMeaning(s, i);
      WordEndMeaning(s, a);
      assert WordAt(s, a, z);
      if s[a..z] != name {
        if z > i { HasWordIff(s, z, name); }
        forall x, y | i <= x && WordAt(s, x, y) && s[x..y] == name ensures z <= x && z > i {
          OtherWord(s, i, a, z, x, y, name);
        }
      }
    }
  }

  /** Behind the blanks up to a, a word is the one at a or lies behind it. */
  lemma {:induction false} OtherWord(s: string, i: nat, a: nat, z: nat, x: int, y: int, name: string)
    requires i <= a <= z <= |s| && (forall j :: i <= j < a ==> Space(s[j])) && (a < |s| ==> !Space(s[a]))
    requires (z < |s| ==> Space(s[z])) && forall j :: a <= j < z ==> !Space(s[j])
    requires i <= x && WordAt(s, x, y) && s[x..y] == name && Solid(name) && s[a..z] != name
    ensures z <= x && z > i
  {
    assert s[x..y][0] == s[x];
    assert x >= a && a < z;
    forall j | x <= j < y ensures !Space(s[j]) { assert s[x..y][j - x] == s[j]; }
    if x == a { SameEnd(s, a, z, y); }
  }

  lemma {:induction false} SameEnd(s: string, a: nat, z: nat, y: int)
    requires a < z <= |s| && (z < |s| ==> Space(s[z])) && forall j :: a <= j < z ==> !Space(s[j])
    requires a < y && WordAt(s, a, y) && forall j :: a <= j < y ==> !Space(s[j])
    ensures y == z
  {
  }

  lemma {:induction false} HasWordMeaning(c: string, name: string)
    requires Solid(name)
    ensures HasWord(c, 0, name) <==> exists a, b :: WordAt(c, a, b) && c[a..b] == name
  {
    HasWordIff(c, 0, name);
  }

  /** What a selector matches, kind by kind. */
  lemma {:induction false} MatchesMeaning(sel: Selector, n: Node)
    requires (sel.kind == ByClass || sel.kind == ByTagClass) ==> Solid(sel.name)
    ensures sel.kind == Any || sel.kind == ByTag ==> (Matches(sel, n) <==> sel.tag == 255 || sel.tag == n.tag)
    ensures sel.kind == ByClass || sel.kind == ByTagClass ==>
              (Matches(sel, n) <==> (sel.tag == 255 || sel.tag == n.tag)
                                    && exists a, b :: WordAt(n.look.classes, a, b) && n.look.classes[a..b] == sel.name)
    ensures sel.kind == ById || sel.kind == ByTagId ==>
              (Matches(sel, n) <==> (sel.tag == 255 || sel.tag == n.tag) && n.look.id != "" && n.look.id == sel.name)
  {
    hide HasWord, WordAt;
    if sel.kind == ByClass || sel.kind == ByTagClass { HasWordMeaning(n.look.classes, sel.name); }
  }

  /** Class text: words with white space before each, and more behind the last. */
  datatype Spaced = Spaced(gap: string, word: string)

  predicate AllBlank(s: string) {
    forall i :: 0 <= i < |s| ==> Space(s[i])
  }

  function ClassText(words: seq<Spaced>, tail: string): string {
    if words == [] then tail else words[0].gap + words[0].word + ClassText(words[1..], tail)
  }

  predicate GoodWords(words: seq<Spaced>) {
    forall k :: 0 <= k < |words| ==> Solid(words[k].word) && AllBlank(words[k].gap) && (k > 0 ==> words[k].gap != "")
  }

  /** A class selector matches exactly the members of the list that the attribute spells. */
  lemma {:induction false} ClassMembers(words: seq<Spaced>, tail: string, name: string)
    requires GoodWords(words) && AllBlank(tail) && Solid(name)
    ensures HasWord(ClassText(words, tail), 0, name) <==> exists k :: 0 <= k < |words| && words[k].word == name
  {
    var c := ClassText(words, tail);
    assert c[0..] == c;
    WordsFrom(c, 0, words, tail, name);
  }

  lemma {:induction false} WordsFrom(c: string, i: nat, words: seq<Spaced>, tail: string, name: string)
    requires i <= |c| && c[i..] == ClassText(words, tail) && GoodWords(words) && AllBlank(tail) && Solid(name)
    ensures HasWord(c, i, name) <==> exists k :: 0 <= k < |words| && words[k].word == name
    decreases |words|
  {
    if words == [] {
      TailHasNone(c, i, name);
    } else {
      var gap, word, rest := words[0].gap, words[0].word, words[1..];
      var a, z := i + |gap|, i + |gap| + |word|;
      assert c[i..][..|gap|] == gap && c[i..][|gap|..|gap| + |word|] == word;
      assert c[i..][|gap| + |word|..] == ClassText(rest, tail);
      assert c[z..] == ClassText(rest, tail) && c[a..z] == word;
      RestBegins(rest, tail);
      assert z < |c| ==> c[z] == c[z..][0];
      SkipsTo(c, i, a);
      EndsAt(c, a, z);
      WordsFrom(c, z, rest, tail, name);
      assert words[0].word == word && forall k :: 0 < k < |words| ==> words[k] == rest[k - 1];
    }
  }

  /** What follows a word begins with white space. */
  lemma {:induction false} RestBegins(rest: seq<Spaced>, tail: string)
    requires AllBlank(tail)
    requires forall k :: 0 <= k < |rest| ==> AllBlank(rest[k].gap) && rest[k].gap != ""
    ensures ClassText(rest, tail) != "" ==> Space(ClassText(rest, tail)[0])
  {
  }

  lemma {:induction false} SkipsTo(c: string, i: nat, a: nat)
    requires i <= a <= |c| && (forall j :: i <= j < a ==> Space(c[j])) && (a < |c| ==> !Space(c[a]))
    ensures SkipSpaces(c, i) == a
    decreases a - i
  {
    if i < a { SkipsTo(c, i + 1, a); }
  }

  lemma {:induction false} EndsAt(c: string, a: nat, z: nat)
    requires a <= z <= |c| && (forall j :: a <= j < z ==> !Space(c[j])) && (z < |c| ==> Space(c[z]))
    ensures WordEnd(c, a) == z
    decreases z - a
  {
    if a < z { EndsAt(c, a + 1, z); }
  }

  lemma {:induction false} TailHasNone(c: string, i: nat, name: string)
    requires i <= |c| && AllBlank(c[i..]) && Solid(name)
    ensures !HasWord(c, i, name)
  {
    forall j | i <= j < |c| ensures Space(c[j]) { assert c[i..][j - i] == c[j]; }
    SkipsTo(c, i, |c|);
  }

  // Which texts are which selector

  predicate NoMark(s: string) {
    forall i :: 0 <= i < |s| ==> s[i] != '.' && s[i] != '#'
  }

  /** None of the characters that the engine refuses in a selector. */
  predicate Plain(s: string) {
    forall i :: 0 <= i < |s| ==> !Space(s[i]) && s[i] != '>' && s[i] != '[' && s[i] != ':' && s[i] != '+'
  }

  /** s = t, mark, name, with the tag name before the mark. */
  predicate Split(s: string, k: int, mark: char, sel: Selector) {
    && 0 < k < |s| && NoMark(s[..k]) && s[k] == mark && s[k + 1..] == sel.name != ""
    && TagId(s[..k]) == sel.tag != 0
  }

  /** s is a spelling of the selector. */
  ghost predicate Spells(s: string, sel: Selector) {
    match sel.kind
    case Any => s == "*" && sel.tag == 255 && sel.name == ""
    case ByClass => s == "." + sel.name && sel.name != "" && sel.tag == 255
    case ById => s == "#" + sel.name && sel.name != "" && sel.tag == 255
    case ByTag => s != "" && NoMark(s) && TagId(s) == sel.tag != 0 && sel.name == ""
    case ByTagClass => exists k :: Split(s, k, '.', sel)
    case ByTagId => exists k :: Split(s, k, '#', sel)
  }

  lemma {:induction false} MarkMeaning(s: string, i: nat)
    requires i <= |s|
    ensures forall j :: i <= j < Mark(s, i) ==> s[j] != '.' && s[j] != '#'
    decreases |s| - i
  {
    if i < |s| && s[i] != '.' && s[i] != '#' { MarkMeaning(s, i + 1); }
  }

  lemma {:induction false} MarkIs(s: string, i: nat, k: nat)
    requires i <= k <= |s| && (forall j :: i <= j < k ==> s[j] != '.' && s[j] != '#')
    requires k < |s| ==> s[k] == '.' || s[k] == '#'
    ensures Mark(s, i) == k
    decreases k - i
  {
    if i < k { MarkIs(s, i + 1, k); }
  }

  lemma {:induction false} TrimMeaning(text: string) returns (pre: string, post: string)
    ensures text == pre + Trim(text) + post && AllBlank(pre) && AllBlank(post)
    ensures Trim(text) != "" ==> !Space(Trim(text)[0]) && !Space(Trim(text)[|Trim(text)| - 1])
  {
    hide SkipSpaces, TrimRight;
    var a := SkipSpaces(text, 0);
    SkipMeaning(text, 0);
    pre := text[..a];
    var rest := text[a..];
    post := TrimRightMeaning(rest);
    var t := TrimRight(rest);
    assert text == pre + rest == pre + (t + post) == pre + t + post;
    assert t != "" ==> t[0] == rest[0] == text[a];
  }

  lemma {:induction false} TrimRightMeaning(s: string) returns (post: string)
    ensures s == TrimRight(s) + post && AllBlank(post)
    ensures TrimRight(s) != "" ==> !Space(TrimRight(s)[|TrimRight(s)| - 1])
  {
    if s != [] && Space(s[|s| - 1]) {
      post := TrimRightMeaning(s[..|s| - 1]);
      post := post + [s[|s| - 1]];
    } else {
      post := [];
    }
  }

  /** Trimming blanks from a text with a solid middle gives the middle. */
  lemma {:induction false} TrimIs(pre: string, s: string, post: string)
    requires AllBlank(pre) && AllBlank(post) && Solid(s)
    ensures Trim(pre + s + post) == s
  {
    var text := pre + s + post;
    assert forall j :: 0 <= j < |pre| ==> text[j] == pre[j];
    assert text[|pre|] == s[0];
    SkipsTo(text, 0, |pre|);
    assert text[|pre|..] == s + post;
    TrimRightIs(s, post);
  }

  lemma {:induction false} TrimRightIs(s: string, post: string)
    requires AllBlank(post) && Solid(s)
    ensures TrimRight(s + post) == s
    decreases |post|
  {
    var t := s + post;
    if post == [] {
      assert t == s;
    } else {
      assert t[..|t| - 1] == s + post[..|post| - 1];
      TrimRightIs(s, post[..|post| - 1]);
    }
  }

  /** The blank-free middle decides. */
  lemma {:induction false} ParsesIff(s: string, sel: Selector)
    requires Solid(s) && Plain(s)
    ensures ParseSelector(s) == Some(sel) <==> Spells(s, sel)
  {
    hide TagId, Trim, Combined, Spells, Mark;
    assert Trim(s) == s by { TrimIs("", s, ""); assert "" + s + "" == s; }
    assert !Combined(s) by { PlainNotCombined(s); }
    if s == "*" {
      StarOnly(s, sel);
    } else if Mark(s, 0) == 0 {
      MarkFirst(s, sel);
    } else {
      TagFirst(s, sel);
    }
  }

  lemma {:induction false} StarOnly(s: string, sel: Selector)
    requires s == "*"
    ensures Spells(s, sel) <==> sel == Selector(255, Any, "")
  {
    hide TagId;
    StarIsNoTag(s);
    assert s[0] == '*';
  }

  lemma {:induction false} MarkFirst(s: string, sel: Selector)
    requires s != "" && Mark(s, 0) == 0
    ensures Spells(s, sel) <==> |s| >= 2 && sel == Selector(255, if s[0] == '.' then ByClass else ById, s[1..])
  {
    hide TagId;
    assert s == [s[0]] + s[1..];
    forall k, mark | Split(s, k, mark, sel) ensures !(s[0] == '.' || s[0] == '#') { assert s[..k][0] == s[0]; }
  }

  lemma {:induction false} TagFirst(s: string, sel: Selector)
    requires s != "" && s != "*" && Mark(s, 0) > 0
    ensures var k := Mark(s, 0);
            Spells(s, sel) <==>
              && TagId(s[..k]) != 0 && k + 1 != |s|
              && sel == (if k == |s| then Selector(TagId(s[..k]), ByTag, "")
                         else Selector(TagId(s[..k]), if s[k] == '.' then ByTagClass else ByTagId, s[k + 1..]))
  {
    hide TagId, Mark;
    var k := Mark(s, 0);
    MarkMeaning(s, 0);
    assert s[..|s|] == s;
    assert !(s[0] == '.' || s[0] == '#');
    if NoMark(s) { MarkIs(s, 0, |s|); }
    forall j, mark | Split(s, j, mark, sel) && (mark == '.' || mark == '#') ensures j == k { SplitAt(s, j, mark, sel); }
    if k < |s| {
      assert NoMark(s[..k]) && !NoMark(s);
      assert Split(s, k, s[k], sel) <==> k + 1 < |s| && TagId(s[..k]) == sel.tag != 0 && s[k + 1..] == sel.name;
    }
  }

  lemma {:induction false} SplitAt(s: string, j: int, mark: char, sel: Selector)
    requires Split(s, j, mark, sel) && (mark == '.' || mark == '#')
    ensures Mark(s, 0) == j
  {
    hide TagId;
    forall i | 0 <= i < j ensures s[i] != '.' && s[i] != '#' { assert s[..j][i] == s[i]; }
    MarkIs(s, 0, j);
  }

  lemma {:induction false} PlainNotCombined(s: string)
    ensures Plain(s) <==> !Combined(s)
  {
  }

  lemma {:induction false} StarIsNoTag(s: string)
    requires s == "*"
    ensures TagId(s) == 0
  {
    hide TagId, Named;
    TagIdMeaning(s);
    forall k: nat | 0 < k < |NAMES| ensures !Named(s, NAMES[k]) { NotStar(s, k); }
    StarIsNoLetter(s);
  }

  lemma {:induction false} StarIsNoLetter(s: string)
    requires s == "*"
    ensures !Named(s, "b") && !Named(s, "i")
  {
    assert LowerAll(s)[0] == '*';
  }

  lemma {:induction false} NotStar(s: string, k: nat)
    requires s == "*" && 0 < k < |NAMES|
    ensures !Named(s, NAMES[k])
  {
    assert LowerAll(s)[0] == '*';
  }

  /** Which texts are accepted as which selector. */
  lemma {:induction false} SelectorMeaning(text: string, sel: Selector)
    ensures ParseSelector(text) == Some(sel) <==>
            exists pre, s, post :: text == pre + s + post && AllBlank(pre) && AllBlank(post) && Solid(s) && Plain(s)
                                   && Spells(s, sel)
  {
    hide ParseSelector, Spells, Plain, Trim;
    var t := Trim(text);
    var before, after := TrimMeaning(text);
    assert ParseSelector(text) == if t == "" || Combined(t) then None else ParseSelector(t) by { ParseTrims(text); }
    PlainNotCombined(t);
    if ParseSelector(text) == Some(sel) {
      ParsesIff(t, sel);
    }
    forall pre, s, post
      | text == pre + s + post && AllBlank(pre) && AllBlank(post) && Solid(s) && Plain(s) && Spells(s, sel)
      ensures ParseSelector(text) == Some(sel)
    {
      TrimIs(pre, s, post);
      ParsesIff(s, sel);
    }
  }

  lemma {:induction false} ParseTrims(text: string)
    ensures var t := Trim(text); ParseSelector(text) == if t == "" || Combined(t) then None else ParseSelector(t)
  {
    hide TagId;
    var t := Trim(text);
    if t != "" && !Combined(t) {
      assert Solid(t) by { PlainNotCombined(t); }
      assert Trim(t) == t by {
        TrimIs("", t, "");
        assert "" + t + "" == t;
      }
      hide Trim, Combined, Mark;
    }
  }

  // Whose style it is

  /** The style of the last node on a path: its own inline color or scale, else its winning rule's, else what it had
      from above. */
  lemma {:induction false} OwnStyleLast(st: Style, s: seq<Node>, rs: seq<Rule>, path: seq<nat>)
    requires path != [] && forall i :: 0 <= i < |path| ==> path[i] < |s|
    ensures var n, above, r := s[path[|path| - 1]], Along(st, s, rs, path[..|path| - 1]), Along(st, s, rs, path);
            && (n.look.color != 0 ==> r.color == n.look.color && r.colorSet)
            && (n.look.scale != 0 ==> r.scale == n.look.scale)
            && n.look.flags <= r.flags && above.flags <= r.flags
            && (forall w :: n.look.color == 0 && Wins(rs, n, Color, |rs|, w) ==>
                  r.color == (if w == -1 then above.color else rs[w].color.value))
            && (forall w :: n.look.scale == 0 && Wins(rs, n, Scale, |rs|, w) ==>
                  r.scale == (if w == -1 then above.scale else rs[w].scale))
  {
    hide Wins, Winner, Matches, FlagsOf;
    AlongSnoc(st, s, rs, path);
    var n := s[path[|path| - 1]];
    forall w | Wins(rs, n, Color, |rs|, w) ensures w == Winner(rs, n, Color, |rs|) {
      WinnerUnique(rs, n, Color, |rs|, w, Winner(rs, n, Color, |rs|));
    }
    forall w | Wins(rs, n, Scale, |rs|, w) ensures w == Winner(rs, n, Scale, |rs|) {
      WinnerUnique(rs, n, Scale, |rs|, w, Winner(rs, n, Scale, |rs|));
    }
  }

  lemma {:induction false} AlongSnoc(st: Style, s: seq<Node>, rs: seq<Rule>, path: seq<nat>)
    requires path != [] && forall i :: 0 <= i < |path| ==> path[i] < |s|
    ensures Along(st, s, rs, path) == AtNode(Along(st, s, rs, path[..|path| - 1]), rs, s[path[|path| - 1]])
    decreases |path|
  {
    hide AtNode;
    if |path| > 1 {
      AlongSnoc(AtNode(st, rs, s[path[0]]), s, rs, path[1..]);
      assert path[1..][..|path| - 2] == path[..|path| - 1][1..];
    }
  }

  lemma {:induction false} InheritsIff(s: seq<Node>, x: nat, t: nat)
    requires Parented(s) && x < |s|
    ensures Inherits(s, x, t) <==> exists a: nat :: a < |s| && Anc(s, a, x) && s[a].tag == t
    decreases x
  {
    if x > 0 {
      InheritsIff(s, s[x].parent, t);
      forall a: nat | a < |s| && Anc(s, a, s[x].parent) ensures Anc(s, a, x) { }
    }
  }

  /** What the tags on the way up give before any rule: h1 to h3 and strong are bold, h1 is large and dark blue,
      code has its own color whatever else. */
  lemma {:induction false} BaseMeaning(s: seq<Node>, x: nat)
    requires Parented(s) && x < |s|
    ensures var st := BaseStyle(s, x);
            && st.flags
               == (if Under(s, x, 5) || Under(s, x, 6) || Under(s, x, 7) || Under(s, x, 16) then {Bold} else {})
            && st.scale == (if Under(s, x, 5) then 2 else 1)
            && st.color == (if Under(s, x, 18) then 0x7B3F57 else if Under(s, x, 5) then 0x1D3550 else 0x26394B)
            && (st.colorSet <==> Under(s, x, 5) || Under(s, x, 18))
  {
    hide Inherits, Anc;
    InheritsIff(s, x, 5);
    InheritsIff(s, x, 6);
    InheritsIff(s, x, 7);
    InheritsIff(s, x, 16);
    InheritsIff(s, x, 18);
  }

  /** The node or an ancestor has this tag. */
  ghost predicate Under(s: seq<Node>, x: nat, tag: nat)
    requires Parented(s) && x < |s|
  {
    exists a: nat :: a < |s| && Anc(s, a, x) && s[a].tag == tag
  }
}
