/** URL parsing and redirect resolution of kernel/net.c. Strings are C strings without their terminator. */
module Url {
  import opened Bytes

  const HOST_CAP: nat := 96
  const PATH_CAP: nat := 160
  const URL_CAP: nat := 256
  const MAX_HOPS: nat := 4

  datatype Url = Url(host: string, port: nat, path: string, secure: bool)

  function Default(secure: bool): nat { if secure then 443 else 80 }

  function Scheme(secure: bool): string { if secure then "https://" else "http://" }

  predicate Digit(c: char) { '0' <= c <= '9' }

  predicate EndsHost(c: char) { c == '/' || c == ':' || c == '?' || c == '#' }

  predicate EndsPath(c: char) { c == '?' || c == '#' }

  // Parsing

  /** The first character from p on that ends a host name, or the end. */
  function HostEnd(u: string, p: nat): (q: nat)
    requires p <= |u|
    ensures p <= q <= |u| && (q < |u| ==> EndsHost(u[q])) && forall i :: p <= i < q ==> !EndsHost(u[i])
    decreases |u| - p
  {
    if p < |u| && !EndsHost(u[p]) then HostEnd(u, p + 1) else p
  }

  function DigitsEnd(u: string, p: nat): (q: nat)
    requires p <= |u|
    ensures p <= q <= |u| && (q < |u| ==> !Digit(u[q])) && forall i :: p <= i < q ==> Digit(u[i])
    decreases |u| - p
  {
    if p < |u| && Digit(u[p]) then DigitsEnd(u, p + 1) else p
  }

  /** Decimal value; every prefix of digits has a value at most that of the whole. */
  function Value(s: string): nat
    requires forall i :: 0 <= i < |s| ==> Digit(s[i])
  {
    if s == "" then 0
    else
      assert Digit(s[|s| - 1]);
      Value(s[..|s| - 1]) * 10 + (s[|s| - 1] as int - '0' as int)
  }

  /** The part behind the host: port and the position of the path. */
  function ParsePort(u: string, p: nat, secure: bool): (r: Option<(nat, nat)>)
    requires p <= |u|
    ensures r.Some? ==> p <= r.value.1 <= |u|
  {
    if p == |u| || u[p] != ':' then Some((Default(secure), p))
    else
      var q := DigitsEnd(u, p + 1);
      var v := Value(u[p + 1..q]);
      if q == p + 1 || v == 0 || v > 65535 then None else Some((v, q))
  }

  /** The path text; a missing path is "/", and a query or fragment without one gets it in front. */
  function PathOf(rest: string): string {
    if rest == "" then "/" else if EndsPath(rest[0]) then "/" + rest else rest
  }

  /** Everything behind the scheme, with the kernel's buffer sizes. */
  function ParseRest(u: string, p: nat, secure: bool): (r: Option<Url>)
    requires p <= |u|
    ensures r.Some? ==> r.value.secure == secure
  {
    var he := HostEnd(u, p);
    if he == p || he - p > HOST_CAP - 1 then None
    else
      match ParsePort(u, he, secure)
      case None => None
      case Some((port, q)) =>
        var path := PathOf(u[q..]);
        if |path| > PATH_CAP - 1 then None else Some(Url(u[p..he], port, path, secure))
  }

  /** `parse_url`: the scheme is matched exactly. */
  function ParseUrl(u: string): Option<Url> {
    if Scheme(true) <= u then ParseRest(u, 8, true)
    else if Scheme(false) <= u then ParseRest(u, 7, false)
    else None
  }

  /** What parsing can produce. */
  lemma {:induction false} ParsedShape(u: string)
    requires ParseUrl(u).Some?
    ensures var v := ParseUrl(u).value;
            && 0 < |v.host| < HOST_CAP && (forall i :: 0 <= i < |v.host| ==> !EndsHost(v.host[i]))
            && 0 < v.port <= 65535 && 0 < |v.path| < PATH_CAP
            && !Digit(v.path[0]) && !EndsPath(v.path[0])
            && (v.path[0] != '/' ==> exists i :: 0 <= i < |u| && u[i] == ':')
  {
    hide Value;
  }

  // Printing

  function DigitChar(d: nat): char
    requires d < 10
  {
    '0' + d as char
  }

  function Decimal(n: nat): (s: string)
    ensures s != "" && (forall i :: 0 <= i < |s| ==> Digit(s[i]))
  {
    if n < 10 then [DigitChar(n)] else Decimal(n / 10) + [DigitChar(n % 10)]
  }

  lemma {:induction false} DecimalValue(n: nat)
    ensures Value(Decimal(n)) == n
  {
    if n < 10 {
      assert Decimal(n)[..0] == "";
    } else {
      DecimalValue(n / 10);
      var s := Decimal(n);
      assert s[..|s| - 1] == Decimal(n / 10);
    }
  }

  /** `append_port`: digits are produced low first and then reversed. */
  method PortText(port: nat) returns (text: string)
    requires port <= 65535
    ensures text == Decimal(port)
  {
    hide Decimal, Reverse;
    var t := [DigitChar(port % 10)];
    var v := port / 10;
    ghost var low := t;
    LastDigit(port, "");
    ReverseAppend("", t[0]);
    while v > 0
      invariant Reverse(t) == low
      invariant Decimal(port) == if v > 0 then Decimal(v) + low else low
    {
      ghost var was := low;
      LastDigit(v, low);
      ReverseAppend(t, DigitChar(v % 10));
      low := [DigitChar(v % 10)] + low;
      t := t + [DigitChar(v % 10)];
      v := v / 10;
    }
    text := ReverseText(t);
  }

  lemma {:induction false} LastDigit(v: nat, low: string)
    ensures Decimal(v) + low
            == if v / 10 > 0 then Decimal(v / 10) + ([DigitChar(v % 10)] + low) else [DigitChar(v % 10)] + low
    ensures low == "" ==> Decimal(v) == Decimal(v) + low && [DigitChar(v % 10)] + low == [DigitChar(v % 10)]
  {
  }

  method ReverseText(t: string) returns (text: string)
    ensures text == Reverse(t)
  {
    hide Reverse;
    text := "";
    var n := |t|;
    assert t[..n] == t && text + Reverse(t) == Reverse(t);
    while n > 0
      invariant 0 <= n <= |t| && text + Reverse(t[..n]) == Reverse(t)
    {
      assert t[..n] == t[..n - 1] + [t[n - 1]];
      ReverseAppend(t[..n - 1], t[n - 1]);
      assert text + ([t[n - 1]] + Reverse(t[..n - 1])) == (text + [t[n - 1]]) + Reverse(t[..n - 1]);
      n := n - 1;
      text := text + [t[n]];
    }
    assert t[..0] == "";
    ReverseEmpty();
  }

  lemma {:induction false} ReverseEmpty()
    ensures Reverse("") == ""
  {
  }

  function Reverse(s: string): string {
    if s == "" then "" else Reverse(s[1..]) + [s[0]]
  }

  lemma {:induction false} ReverseAppend(s: string, c: char)
    ensures Reverse(s + [c]) == [c] + Reverse(s)
    ensures s == "" ==> Reverse([c]) == [c]
  {
    if s == "" {
      assert s + [c] == [c];
      assert [c][1..] == "";
    } else {
      assert (s + [c])[1..] == s[1..] + [c];
      ReverseAppend(s[1..], c);
    }
  }

  /** The port as it appears in a printed URL: nothing for the default. */
  function PortPart(port: nat, secure: bool): string {
    if port == Default(secure) then "" else ":" + Decimal(port)
  }

  /** `scopy` and `sappend`: text is cut at the buffer. */
  function Cut(s: string): (t: string)
    ensures |t| < URL_CAP && t <= s && (|s| < URL_CAP ==> t == s)
  {
    if |s| < URL_CAP then s else s[..URL_CAP - 1]
  }

  // Redirect resolution

  datatype Redirect = Resolved(url: string) | Downgrade | Unsupported

  predicate StartsCi(s: string, p: string) {
    |p| <= |s| && forall i :: 0 <= i < |p| ==> Lower(s[i]) == Lower(p[i])
  }

  /** A colon before the first '/', '?' or '#': some other scheme. */
  predicate OtherScheme(loc: string, i: nat)
    requires i <= |loc|
    decreases |loc| - i
  {
    if i == |loc| || loc[i] == '/' || EndsPath(loc[i]) then false else loc[i] == ':' || OtherScheme(loc, i + 1)
  }

  /** Position of the last '/' of the path, query and fragment excluded; 0 when there is none. */
  function LastSlash(path: string, i: nat, last: nat): (k: nat)
    requires i <= |path| && last <= i
    ensures k < |path| || k == last
    ensures k <= |path|
    decreases |path| - i
  {
    if i == |path| || EndsPath(path[i]) then last else LastSlash(path, i + 1, if path[i] == '/' then i else last)
  }

  /** The directory of the base path. */
  function DirOf(path: string): (d: string)
    requires 0 < |path| < PATH_CAP
    ensures 0 < |d| <= |path| && d <= path
  {
    path[..LastSlash(path, 0, 0) + 1]
  }

  /** What follows host and port in the resolved URL. */
  function Tail(path: string, loc: string): string
    requires 0 < |path| < PATH_CAP && loc != ""
  {
    if loc[0] == '/' then loc else DirOf(path) + loc
  }

  predicate NetworkPath(loc: string) {
    |loc| >= 2 && loc[0] == '/' && loc[1] == '/'
  }

  /** `resolve_redirect`. */
  function Resolve(base: string, loc: string): Redirect {
    if loc == "" then Unsupported
    else
      match ParseUrl(base)
      case None => Unsupported
      case Some(b) =>
        if StartsCi(loc, "https://") then Resolved(Cut(loc))
        else if StartsCi(loc, "http://") then (if b.secure then Downgrade else Resolved(Cut(loc)))
        else if NetworkPath(loc) then Resolved(Cut((if b.secure then "https:" else "http:") + loc))
        else if OtherScheme(loc, 0) then Unsupported
        else
          ParsedShape(base);
          Resolved(Cut(Printed(b, Tail(b.path, loc))))
  }

  function Printed(b: Url, tail: string): string {
    Scheme(b.secure) + b.host + PortPart(b.port, b.secure) + tail
  }

  /** References resolved against the base's own host. */
  predicate SameOrigin(loc: string) {
    loc != "" && !StartsCi(loc, "https://") && !StartsCi(loc, "http://") && !NetworkPath(loc) && !OtherScheme(loc, 0)
  }

  // Printing and parsing are inverse

  predicate GoodUrl(b: Url) {
    && 0 < |b.host| < HOST_CAP && (forall i :: 0 <= i < |b.host| ==> !EndsHost(b.host[i]))
    && 0 < b.port <= 65535
  }

  lemma {:induction false} HostEndAt(u: string, p: nat, q: nat)
    requires p <= q <= |u| && (q < |u| ==> EndsHost(u[q])) && forall i :: p <= i < q ==> !EndsHost(u[i])
    ensures HostEnd(u, p) == q
    decreases q - p
  {
    if p < q { HostEndAt(u, p + 1, q); }
  }

  lemma {:induction false} DigitsEndAt(u: string, p: nat, q: nat)
    requires p <= q <= |u| && (q < |u| ==> !Digit(u[q])) && forall i :: p <= i < q ==> Digit(u[i])
    ensures DigitsEnd(u, p) == q
    decreases q - p
  {
    if p < q { DigitsEndAt(u, p + 1, q); }
  }

  lemma {:induction false} SchemeRead(u: string, secure: bool)
    requires Scheme(secure) <= u
    ensures ParseUrl(u) == ParseRest(u, |Scheme(secure)|, secure)
  {
    hide ParseRest;
    assert Scheme(true)[4] == 's' && Scheme(false)[4] == ':';
  }

  /** Slices of a concatenation of four texts. */
  lemma {:induction false} Slices(a: string, b: string, c: string, d: string)
    ensures var u := a + b + c + d;
            && a <= u && u[|a|..|a| + |b|] == b && u[|a| + |b|..] == c + d
            && u[|a| + |b|..|a| + |b| + |c|] == c && u[|a| + |b| + |c|..] == d
            && (forall i :: |a| <= i < |a| + |b| ==> u[i] == b[i - |a|])
            && (forall i :: |a| + |b| <= i < |a| + |b| + |c| ==> u[i] == c[i - |a| - |b|])
  {
    var u := a + b + c + d;
    assert u[|a| + |b|..] == c + d;
  }

  lemma {:induction false} PortReads(u: string, he: nat, port: nat, tail: string, secure: bool)
    requires 0 < port <= 65535 && tail != "" && he <= |u| && u[he..] == PortPart(port, secure) + tail
    requires if port == Default(secure) then tail[0] == '/' else !Digit(tail[0])
    ensures |PortPart(port, secure)| <= |u| - he
    ensures ParsePort(u, he, secure) == Some((port, he + |PortPart(port, secure)|))
    ensures he < |u| && EndsHost(u[he])
    ensures u[he + |PortPart(port, secure)|..] == tail
  {
    hide Value, Decimal, DigitsEnd;
    var pp := PortPart(port, secure);
    assert u[he] == u[he..][0] == (pp + tail)[0];
    assert u[he + |pp|..] == u[he..][|pp|..] == tail;
    if port != Default(secure) {
      var d := Decimal(port);
      var q := he + 1 + |d|;
      assert u[he + 1..q] == u[he..][1..1 + |d|] == d;
      assert forall i :: he + 1 <= i < q ==> u[i] == u[he + 1..q][i - he - 1];
      assert u[q] == u[q..][0] == tail[0];
      DigitsEndAt(u, he + 1, q);
      DecimalValue(port);
    }
  }

  /** A printed URL whose tail cannot be mistaken for host or port text reads back as what was printed. */
  lemma {:induction false} PrintedParses(b: Url, tail: string)
    requires GoodUrl(b) && tail != "" && !EndsPath(tail[0])
    requires if b.port == Default(b.secure) then tail[0] == '/' else !Digit(tail[0])
    ensures ParseUrl(Printed(b, tail)) == if |tail| < PATH_CAP then Some(Url(b.host, b.port, tail, b.secure)) else None
  {
    hide ParsePort, PortPart, HostEnd, ParseRest, ParseUrl, Digit, EndsHost, EndsPath, Printed, Scheme;
    var u, s := Printed(b, tail), Scheme(b.secure);
    var pp := PortPart(b.port, b.secure);
    PrintedSlices(b, tail);
    var he := |s| + |b.host|;
    PortReads(u, he, b.port, tail, b.secure);
    HostEndAt(u, |s|, he);
    SchemeRead(u, b.secure);
    RestIs(u, |s|, he, b.port, he + |pp|, b.secure);
  }

  lemma {:induction false} PrintedSlices(b: Url, tail: string)
    requires GoodUrl(b)
    ensures var u, s, pp := Printed(b, tail), Scheme(b.secure), PortPart(b.port, b.secure);
            && s <= u && |u| == |s| + |b.host| + |pp| + |tail|
            && u[|s|..|s| + |b.host|] == b.host && u[|s| + |b.host|..] == pp + tail
            && forall i :: |s| <= i < |s| + |b.host| ==> !EndsHost(u[i])
  {
    hide PortPart, EndsHost, Scheme;
    Slices(Scheme(b.secure), b.host, PortPart(b.port, b.secure), tail);
  }

  lemma {:induction false} RestIs(u: string, p: nat, he: nat, port: nat, q: nat, secure: bool)
    requires p < he <= q <= |u| && he - p < HOST_CAP && HostEnd(u, p) == he
    requires ParsePort(u, he, secure) == Some((port, q)) && u[q..] != "" && !EndsPath(u[q])
    ensures ParseRest(u, p, secure) == if |u| - q < PATH_CAP then Some(Url(u[p..he], port, u[q..], secure)) else None
  {
    hide ParsePort, HostEnd, EndsPath;
    assert u[q..][0] == u[q];
  }

  /** A colon right behind the host takes at least two characters from the path. */
  lemma {:induction false} ColonTakes(u: string, p: nat, he: nat, secure: bool)
    requires p <= he < |u| && u[he] == ':' && forall i :: p <= i < he ==> !EndsHost(u[i])
    ensures var r := ParseRest(u, p, secure); r.Some? ==> |r.value.path| < |u| - he
  {
    hide Value;
    HostEndAt(u, p, he);
    hide HostEnd;
  }

  lemma {:induction false} HostRunsOn(u: string, p: nat, he: nat, secure: bool)
    requires p <= he < |u| && forall i :: p <= i <= he ==> !EndsHost(u[i])
    ensures var r := ParseRest(u, p, secure); r.Some? ==> |r.value.host| > he - p
  {
    hide HostEnd, ParsePort;
    assert HostEnd(u, p) > he;
  }

  /** The mistakable case: default port and a tail that does not begin with '/'. Then what is read has another host,
      or a path shorter than the tail. */
  lemma {:induction false} GluedShorter(b: Url, tail: string, n: nat)
    requires GoodUrl(b) && b.port == Default(b.secure)
    requires tail != "" && tail[0] != '/' && !EndsPath(tail[0]) && |tail| <= n
    ensures var r := ParseUrl(Printed(b, tail)); r.Some? ==> r.value.host != b.host || |r.value.path| < n
  {
    hide ParseRest, HostEnd, ParsePort;
    var u, s := Printed(b, tail), Scheme(b.secure);
    var he := |s| + |b.host|;
    PlainSlices(b, tail);
    SchemeRead(u, b.secure);
    hide Printed, Scheme, ParseUrl, PortPart;
    if tail[0] == ':' {
      ColonTakes(u, |s|, he, b.secure);
    } else {
      HostRunsOn(u, |s|, he, b.secure);
    }
  }

  lemma {:induction false} PlainSlices(b: Url, tail: string)
    requires b.port == Default(b.secure) && tail != "" && (forall i :: 0 <= i < |b.host| ==> !EndsHost(b.host[i]))
    ensures var u, s := Printed(b, tail), Scheme(b.secure);
            && s <= u && |u| == |s| + |b.host| + |tail| && u[|s| + |b.host|] == tail[0]
            && forall i :: |s| <= i < |s| + |b.host| ==> !EndsHost(u[i])
  {
    hide EndsHost;
    var u, s := Printed(b, tail), Scheme(b.secure);
    assert u == s + b.host + "" + tail;
    Slices(s, b.host, "", tail);
    assert u[|s| + |b.host|] == u[|s| + |b.host|..][0] == tail[0];
  }

  lemma {:induction false} PrintedLength(b: Url, tail: string)
    requires 0 < b.port <= 65535
    ensures |Printed(b, tail)| <= 8 + |b.host| + 6 + |tail|
  {
    DecimalLength(b.port);
  }

  lemma {:induction false} DecimalLength(n: nat)
    requires n <= 65535
    ensures |Decimal(n)| <= 5
  {
    var a, b, c := n / 10, n / 100, n / 1000;
    assert Decimal(n) == if n < 10 then [DigitChar(n)] else Decimal(a) + [DigitChar(n % 10)];
    assert Decimal(a) == if a < 10 then [DigitChar(a)] else Decimal(b) + [DigitChar(a % 10)];
    assert Decimal(b) == if b < 10 then [DigitChar(b)] else Decimal(c) + [DigitChar(b % 10)];
    assert Decimal(c) == if c < 10 then [DigitChar(c)] else Decimal(c / 10) + [DigitChar(c % 10)];
    assert Decimal(c / 10) == [DigitChar(c / 10)];
  }

  /** A printed URL that the buffer cuts reads back with a shorter path. */
  lemma {:induction false} CutParses(b: Url, tail: string)
    requires GoodUrl(b) && tail != "" && !EndsPath(tail[0])
    requires if b.port == Default(b.secure) then tail[0] == '/' else !Digit(tail[0])
    requires |Printed(b, tail)| >= URL_CAP
    ensures ParseUrl(Cut(Printed(b, tail))) != Some(Url(b.host, b.port, tail, b.secure))
  {
    hide Decimal, Value, ParseUrl;
    PrintedLength(b, tail);
    var kept := tail[..|tail| - (|Printed(b, tail)| - (URL_CAP - 1))];
    assert Cut(Printed(b, tail)) == Printed(b, kept);
    PrintedParses(b, kept);
  }

  /** The URL that a reference on the base's own host resolves to reads back as the base's host, port and scheme and
      the resolved path, exactly when the buffers suffice and the tail cannot run into the host: the last condition
      fails only for a base such as "http://h:80x", whose path does not begin with '/' and whose port is the default. */
  lemma {:induction false} ResolveParses(base: string, loc: string)
    requires ParseUrl(base).Some? && SameOrigin(loc)
    ensures var b := ParseUrl(base).value;
            && 0 < |b.path| < PATH_CAP
            && var tail := Tail(b.path, loc);
               var r := Resolve(base, loc);
               && r.Resolved?
               && (ParseUrl(r.url) == Some(Url(b.host, b.port, tail, b.secure))
                   <==> |Printed(b, tail)| < URL_CAP && |tail| < PATH_CAP
                        && (b.port != Default(b.secure) || tail[0] == '/'))
  {
    hide ParseUrl, LastSlash, Printed;
    ParsedShape(base);
    var b := ParseUrl(base).value;
    var tail := Tail(b.path, loc);
    assert Resolve(base, loc) == Resolved(Cut(Printed(b, tail)));
    assert tail[0] == loc[0] == '/' || tail[0] == b.path[0];
    if b.port != Default(b.secure) || tail[0] == '/' {
      PrintedParses(b, tail);
      if |Printed(b, tail)| >= URL_CAP { CutParses(b, tail); }
    } else if |Printed(b, tail)| < URL_CAP {
      GluedShorter(b, tail, |tail|);
    } else {
      GluedCut(b, tail);
    }
  }

  lemma {:induction false} GluedCut(b: Url, tail: string)
    requires GoodUrl(b) && b.port == Default(b.secure) && tail != "" && tail[0] != '/' && !EndsPath(tail[0])
    requires |Printed(b, tail)| >= URL_CAP
    ensures ParseUrl(Cut(Printed(b, tail))) != Some(Url(b.host, b.port, tail, b.secure))
  {
    hide ParseUrl;
    var kept := tail[..|tail| - (|Printed(b, tail)| - (URL_CAP - 1))];
    assert Cut(Printed(b, tail)) == Printed(b, kept);
    GluedShorter(b, kept, |tail|);
  }

  /** Root-relative references always keep host, port and scheme, and become the path. */
  lemma {:induction false} RootRelativeParses(base: string, loc: string)
    requires ParseUrl(base).Some? && loc != "" && loc[0] == '/' && !NetworkPath(loc)
    ensures var b := ParseUrl(base).value;
            var r := Resolve(base, loc);
            && r.Resolved?
            && (ParseUrl(r.url) == Some(Url(b.host, b.port, loc, b.secure))
                <==> |Printed(b, loc)| < URL_CAP && |loc| < PATH_CAP)
  {
    hide ParseUrl, Resolve, Printed, Tail;
    assert Lower('h') != Lower('/');
    assert !StartsCi(loc, "https://") && !StartsCi(loc, "http://");
    ResolveParses(base, loc);
    TailOfRoot(ParseUrl(base).value.path, loc);
  }

  lemma {:induction false} TailOfRoot(path: string, loc: string)
    requires 0 < |path| < PATH_CAP && loc != "" && loc[0] == '/'
    ensures Tail(path, loc) == loc
  {
  }

  /** The glued case happens: from "http://h:80x" the reference "y" leads to the host "hxy". */
  lemma {:induction false} GluedBase()
    ensures ParseUrl("http://h:80x") == Some(Url("h", 80, "x", false)) && SameOrigin("y")
    ensures Resolve("http://h:80x", "y") == Resolved("http://hxy")
    ensures ParseUrl("http://hxy") == Some(Url("hxy", 80, "/", false))
  {
    hide ParseUrl, Printed;
    BaseParses();
    TargetParses();
    assert PortPart(80, false) == "" && DirOf("x") == "x" && "x" + "y" == "xy";
    TargetPrinted();
  }

  lemma {:induction false} BaseParses()
    ensures ParseUrl("http://h:80x") == Some(Url("h", 80, "x", false))
  {
    hide HostEnd, ParsePort, ParseRest;
    var u := "http://h:80x";
    assert u[4] == ':' && Scheme(true)[4] == 's';
    SchemeRead(u, false);
    hide ParseUrl;
    HostEndAt(u, 7, 8);
    PortEighty(u);
    RestIs(u, 7, 8, 80, 11, false);
    assert u[7..8] == "h" && u[11..] == "x";
  }

  lemma {:induction false} PortEighty(u: string)
    requires u == "http://h:80x"
    ensures ParsePort(u, 8, false) == Some((80, 11))
  {
    hide DigitsEnd, Value;
    DigitsEndAt(u, 9, 11);
    assert u[9..11] == "80";
    ValueOfEighty();
  }

  lemma {:induction false} TargetParses()
    ensures ParseUrl("http://hxy") == Some(Url("hxy", 80, "/", false))
  {
    hide HostEnd, ParseRest;
    var u := "http://hxy";
    assert u[4] == ':' && Scheme(true)[4] == 's';
    SchemeRead(u, false);
    hide ParseUrl;
    HostEndAt(u, 7, 10);
    assert u[7..10] == "hxy" && u[10..] == "";
    EmptyPath(u);
  }

  lemma {:induction false} EmptyPath(u: string)
    requires |u| == 10 && HostEnd(u, 7) == 10
    ensures ParseRest(u, 7, false) == Some(Url(u[7..10], 80, "/", false))
  {
    hide HostEnd;
  }

  lemma {:induction false} TargetPrinted()
    ensures Printed(Url("h", 80, "x", false), "xy") == "http://hxy"
  {
    assert "http://" + "h" + "" + "xy" == "http://hxy";
  }

  lemma {:induction false} ValueOfEighty()
    ensures Value("80") == 80
  {
    assert "80"[..1] == "8" && "8"[..0] == "";
    assert Value("8") == 8;
  }

  // No downgrade

  /** Whatever a secure URL redirects to, a URL that then parses is secure. */
  lemma {:induction false} SecureStaysSecure(base: string, loc: string)
    requires ParseUrl(base).Some? && ParseUrl(base).value.secure
    requires Resolve(base, loc).Resolved? && ParseUrl(Resolve(base, loc).url).Some?
    ensures ParseUrl(Resolve(base, loc).url).value.secure
  {
    hide ParseRest, OtherScheme, Tail, PortPart;
    var u := Resolve(base, loc).url;
    if StartsCi(loc, "https://") {
      assert Lower(loc[4]) == Lower('s') && u[4] == loc[4];
      assert Scheme(false)[4] == ':';
    } else if NetworkPath(loc) {
      assert u[4] == 's';
    } else {
      ParsedShape(base);
      assert u[4] == 's';
    }
  }

  /** One response of a server: a page, a failure, or a redirect with its Location header. */
  datatype Response = Page | Failure | Moved(location: Option<string>)

  /** The hops of `net_http_get` from the URL `current` on: every URL that is actually contacted. */
  function Hops(current: string, responses: seq<Response>, redirect: nat): (h: seq<Url>)
    requires redirect <= MAX_HOPS
    ensures |h| <= MAX_HOPS - redirect
    decreases MAX_HOPS - redirect
  {
    if redirect == MAX_HOPS then []
    else
      match ParseUrl(current)
      case None => []
      case Some(v) =>
        if redirect < |responses| && responses[redirect].Moved? && responses[redirect].location.Some?
          && redirect != 3 then
          match Resolve(current, responses[redirect].location.value)
          case Resolved(next) => [v] + Hops(Cut(next), responses, redirect + 1)
          case _ => [v]
        else [v]
  }

  lemma {:induction false} CutCut(base: string, loc: string)
    requires Resolve(base, loc).Resolved?
    ensures Cut(Resolve(base, loc).url) == Resolve(base, loc).url
  {
    hide ParseUrl, OtherScheme, Tail, StartsCi, Printed;
  }

  /** In every redirect run, a hop after a secure hop is secure. */
  lemma {:induction false} NoDowngrade(current: string, responses: seq<Response>, redirect: nat, i: nat, j: nat)
    requires redirect <= MAX_HOPS && i <= j < |Hops(current, responses, redirect)|
    requires Hops(current, responses, redirect)[i].secure
    ensures Hops(current, responses, redirect)[j].secure
    decreases MAX_HOPS - redirect, j
  {
    hide ParseUrl, Resolve;
    if j > 0 {
      var loc := responses[redirect].location.value;
      var next := Resolve(current, loc).url;
      CutCut(current, loc);
      if i > 0 {
        NoDowngrade(next, responses, redirect + 1, i - 1, j - 1);
      } else {
        SecureStaysSecure(current, loc);
        FirstHop(next, responses, redirect + 1);
        NoDowngrade(next, responses, redirect + 1, 0, j - 1);
      }
    }
  }

  predicate SecureStays(hops: seq<Url>) {
    forall i, j :: 0 <= i <= j < |hops| && hops[i].secure ==> hops[j].secure
  }

  lemma {:induction false} AllHopsSecure(current: string, responses: seq<Response>)
    ensures SecureStays(Hops(current, responses, 0))
  {
    var h := Hops(current, responses, 0);
    forall i: nat, j: nat | i <= j < |h| && h[i].secure
      ensures h[j].secure
    {
      NoDowngrade(current, responses, 0, i, j);
    }
  }

  lemma {:induction false} FirstHop(current: string, responses: seq<Response>, redirect: nat)
    requires redirect <= MAX_HOPS && Hops(current, responses, redirect) != []
    ensures ParseUrl(current).Some? && Hops(current, responses, redirect)[0] == ParseUrl(current).value
  {
    hide ParseUrl, Resolve;
  }

  /** The redirect loop of `net_http_get`. */
  method HttpGet(url: string, responses: seq<Response>) returns (hops: seq<Url>)
    ensures hops == Hops(Cut(url), responses, 0)
    ensures SecureStays(hops)
  {
    hide ParseUrl, Resolve, Cut, SecureStays;
    AllHopsSecure(Cut(url), responses);
    var current := Cut(url);
    hops := [];
    for redirect := 0 to MAX_HOPS
      invariant hops + Hops(current, responses, redirect) == Hops(Cut(url), responses, 0)
    {
      var v := ParseUrl(current);
      if v.None? { return; }
      ghost var before := hops;
      hops := hops + [v.value];
      if redirect >= |responses| || !responses[redirect].Moved? { return; }
      if responses[redirect].location.None? || redirect == 3 { return; }
      var r := Resolve(current, responses[redirect].location.value);
      if !r.Resolved? { return; }
      current := Cut(r.url);
      assert before + ([v.value] + Hops(current, responses, redirect + 1))
        == hops + Hops(current, responses, redirect + 1);
    }
  }
}
