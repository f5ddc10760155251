/** URLs and references by how they are written: which texts parse and to what, what each kind of reference becomes, and
    where a redirect run stops. */
module UrlMeaning {
  import opened Bytes
  import opened Url

  // Which texts parse

  predicate DigitsOnly(s: string) {
    forall i :: 0 <= i < |s| ==> '0' <= s[i] <= '9'
  }

  predicate HostText(host: string) {
    0 < |host| <= 95
    && forall i :: 0 <= i < |host| ==> host[i] != '/' && host[i] != ':' && host[i] != '?' && host[i] != '#'
  }

  /** The port text: nothing, or a colon and digits. */
  function Colon(digits: string): string {
    if digits == "" then "" else ":" + digits
  }

  /** Digits up to something else state the port; without any it is 443 or 80, and the host must end there. */
  ghost predicate PortText(digits: string, rest: string, port: nat, secure: bool) {
    && DigitsOnly(digits)
    && (if digits == "" then
          port == (if secure then 443 else 80) && (rest == "" || rest[0] == '/' || rest[0] == '?' || rest[0] == '#')
        else
          0 < port == Value(digits) <= 65535 && (rest == "" || !('0' <= rest[0] <= '9')))
  }

  ghost predicate PathText(rest: string, path: string) {
    && path == (if rest == "" then "/" else if rest[0] == '?' || rest[0] == '#' then "/" + rest else rest)
    && |path| <= 159
  }

  /** scheme://host, then maybe a colon and digits, then the rest. */
  ghost predicate Written(u: string, v: Url, digits: string, rest: string) {
    && HostText(v.host) && PortText(digits, rest, v.port, v.secure) && PathText(rest, v.path)
    && u == (if v.secure then "https://" else "http://") + v.host + (Colon(digits) + rest)
  }

  lemma {:induction false} SchemeWritten(u: string, secure: bool)
    requires ParseUrl(u).Some? && ParseUrl(u).value.secure == secure
    ensures Scheme(secure) <= u && ParseUrl(u) == ParseRest(u, |Scheme(secure)|, secure)
  {
    hide ParseRest;
  }

  lemma {:induction false} RestParts(u: string, p: nat, secure: bool) returns (he: nat, q: nat)
    requires p <= |u| && ParseRest(u, p, secure).Some?
    ensures p <= he <= q <= |u|
    ensures var v := ParseRest(u, p, secure).value;
            && v.secure == secure && u[p..he] == v.host && HostText(v.host)
            && (he < |u| ==> u[he] == '/' || u[he] == ':' || u[he] == '?' || u[he] == '#')
            && ParsePort(u, he, secure) == Some((v.port, q)) && PathText(u[q..], v.path)
  {
    hide HostEnd, ParsePort;
    he := HostEnd(u, p);
    q := ParsePort(u, he, secure).value.1;
  }

  lemma {:induction false} PortParts(u: string, he: nat, port: nat, q: nat, secure: bool) returns (digits: string)
    requires he <= q <= |u| && ParsePort(u, he, secure) == Some((port, q))
    requires he < |u| ==> u[he] == '/' || u[he] == ':' || u[he] == '?' || u[he] == '#'
    ensures PortText(digits, u[q..], port, secure) && u[he..] == Colon(digits) + u[q..]
  {
    hide DigitsEnd, Value;
    if he == |u| || u[he] != ':' {
      digits := "";
      assert u[he..] != "" ==> u[he..][0] == u[he];
    } else {
      digits := u[he + 1..q];
      assert q < |u| ==> u[q..][0] == u[q];
      assert u[he..] == [u[he]] + u[he + 1..q] + u[q..];
    }
  }

  /** Every text that parses is written so. */
  lemma {:induction false} ParsedIsWritten(u: string) returns (digits: string, rest: string)
    requires ParseUrl(u).Some?
    ensures Written(u, ParseUrl(u).value, digits, rest)
  {
    hide *;
    var v := ParseUrl(u).value;
    var s := Scheme(v.secure);
    SchemeWritten(u, v.secure);
    var he, q := RestParts(u, |s|, v.secure);
    digits := PortParts(u, he, v.port, q, v.secure);
    rest := u[q..];
    ThreeParts(u, s, he);
    MakeWritten(u, v, digits, rest);
  }

  lemma {:induction false} ThreeParts(u: string, s: string, he: nat)
    requires s <= u && |s| <= he <= |u|
    ensures u == s + u[|s|..he] + u[he..]
  {
  }

  lemma {:induction false} MakeWritten(u: string, v: Url, digits: string, rest: string)
    requires HostText(v.host) && PortText(digits, rest, v.port, v.secure) && PathText(rest, v.path)
    requires u == Scheme(v.secure) + v.host + (Colon(digits) + rest)
    ensures Written(u, v, digits, rest)
  {
    hide HostText, PortText, PathText, Colon;
  }

  /** And every text written so parses to just that. */
  lemma {:induction false} WrittenParses(u: string, v: Url, digits: string, rest: string)
    requires Written(u, v, digits, rest)
    ensures ParseUrl(u) == Some(v)
  {
    hide ParseUrl, HostEnd, ParsePort, ParseRest, PortText, PathText, Colon;
    var s, tail := Scheme(v.secure), Colon(digits) + rest;
    var p, he := |s|, |s| + |v.host|;
    assert s <= u && u[p..he] == v.host && u[he..] == tail;
    SchemeRead(u, v.secure);
    var q := PortWritten(u, he, v.port, v.secure, digits, rest);
    hide Scheme;
    HostWritten(u, p, he, v.host);
    RestWritten(u, p, he, q, v);
  }

  lemma {:induction false} HostWritten(u: string, p: nat, he: nat, host: string)
    requires p <= he <= |u| && u[p..he] == host && HostText(host) && (he < |u| ==> EndsHost(u[he]))
    ensures HostEnd(u, p) == he
  {
    forall i | p <= i < he ensures !EndsHost(u[i]) { assert u[i] == host[i - p]; }
    HostEndAt(u, p, he);
  }

  lemma {:induction false} RestWritten(u: string, p: nat, he: nat, q: nat, v: Url)
    requires p <= he <= q <= |u| && u[p..he] == v.host && HostText(v.host) && HostEnd(u, p) == he
    requires ParsePort(u, he, v.secure) == Some((v.port, q)) && PathText(u[q..], v.path)
    ensures ParseRest(u, p, v.secure) == Some(v)
  {
    hide HostEnd, ParsePort;
  }

  lemma {:induction false} PortWritten(u: string, he: nat, port: nat, secure: bool, digits: string, rest: string)
    returns (q: nat)
    requires he <= |u| && PortText(digits, rest, port, secure) && u[he..] == Colon(digits) + rest
    ensures he <= q <= |u| && ParsePort(u, he, secure) == Some((port, q)) && u[q..] == rest
    ensures he < |u| ==> EndsHost(u[he])
  {
    hide Value, DigitsEnd;
    if digits == "" {
      q := he;
      assert u[he..] == rest;
      assert rest != "" ==> u[he] == rest[0];
    } else {
      q := he + 1 + |digits|;
      assert u[he..][0] == u[he] == ':';
      assert u[he + 1..q] == u[he..][1..1 + |digits|] == digits;
      assert u[q..] == u[he..][1 + |digits|..] == rest;
      forall i | he + 1 <= i < q ensures Digit(u[i]) { assert u[i] == u[he + 1..q][i - he - 1]; }
      assert q < |u| ==> u[q] == rest[0];
      DigitsEndAt(u, he + 1, q);
    }
  }

  /** Which texts parse, and to what. */
  lemma {:induction false} ParseMeaning(u: string, v: Url)
    ensures ParseUrl(u) == Some(v) <==> exists digits, rest :: Written(u, v, digits, rest)
  {
    hide ParseUrl, Written;
    if ParseUrl(u) == Some(v) { var digits, rest := ParsedIsWritten(u); }
    if digits, rest :| Written(u, v, digits, rest) { WrittenParses(u, v, digits, rest); }
  }

  // What a reference becomes

  predicate BeforeQuery(path: string, i: int) {
    0 <= i < |path| && forall j :: 0 <= j <= i ==> path[j] != '?' && path[j] != '#'
  }

  lemma {:induction false} LastSlashMeaning(path: string, i: nat, last: nat)
    requires i <= |path| && last <= i
    requires forall j :: 0 <= j < i ==> path[j] != '?' && path[j] != '#'
    requires if last < i && path[last] == '/' then forall j :: last < j < i ==> path[j] != '/'
             else last == 0 && forall j :: 0 <= j < i ==> path[j] != '/'
    ensures var k := LastSlash(path, i, last);
            && (forall j :: k < j && BeforeQuery(path, j) ==> path[j] != '/')
            && (k == 0 || (BeforeQuery(path, k) && path[k] == '/'))
    decreases |path| - i
  {
    if i < |path| && !EndsPath(path[i]) {
      LastSlashMeaning(path, i + 1, if path[i] == '/' then i else last);
    } else {
      forall j | i <= j < |path| ensures !BeforeQuery(path, j) { assert EndsPath(path[i]); }
    }
  }

  /** The directory of a path ends with the last slash before the query or fragment; a path without one keeps its first
      character. */
  lemma {:induction false} DirectoryMeaning(path: string)
    requires 0 < |path| < PATH_CAP
    ensures var d := DirOf(path);
            && d <= path && d != ""
            && (forall j :: |d| <= j && BeforeQuery(path, j) ==> path[j] != '/')
            && (if d[|d| - 1] == '/' then |d| == 1 || BeforeQuery(path, |d| - 1) else |d| == 1)
  {
    LastSlashMeaning(path, 0, 0);
  }

  /** A reference below the base path: directory and reference, or the reference alone when it begins with a slash. */
  lemma {:induction false} TailMeaning(path: string, loc: string)
    requires 0 < |path| < PATH_CAP && loc != ""
    ensures loc[0] == '/' ==> Tail(path, loc) == loc
    ensures loc[0] != '/' ==> forall k :: 0 <= k < |path| && path[k] == '/' && BeforeQuery(path, k)
                                          && (forall j :: k < j && BeforeQuery(path, j) ==> path[j] != '/') ==>
                                Tail(path, loc) == path[..k + 1] + loc
  {
    hide LastSlash;
    DirectoryMeaning(path);
    var d := DirOf(path);
    forall k | 0 <= k < |path| && path[k] == '/' && BeforeQuery(path, k)
               && (forall j :: k < j && BeforeQuery(path, j) ==> path[j] != '/')
      ensures d == path[..k + 1]
    {
      assert d[|d| - 1] == path[|d| - 1];
      assert k < |d|;
    }
  }

  /** The text begins with these letters, in any case. */
  predicate Begins(s: string, p: string) {
    |s| >= |p| && forall i :: 0 <= i < |p| ==> Lower(s[i]) == p[i]
  }

  predicate OtherSchemeText(loc: string) {
    exists k :: 0 <= k < |loc| && loc[k] == ':'
                && forall j :: 0 <= j < k ==> loc[j] != '/' && loc[j] != '?' && loc[j] != '#'
  }

  lemma {:induction false} OtherSchemeMeaning(loc: string, i: nat)
    requires i <= |loc|
    ensures OtherScheme(loc, i) <==>
            exists k :: i <= k < |loc| && loc[k] == ':'
                        && forall j :: i <= j < k ==> loc[j] != '/' && loc[j] != '?' && loc[j] != '#'
    decreases |loc| - i
  {
    if i < |loc| && loc[i] != ':' { OtherSchemeMeaning(loc, i + 1); }
  }

  /** What each kind of reference becomes, for a base that parses: an absolute one is kept, except http from https; a
      network path gets the base's scheme; another scheme is refused; all others stay on the base's host. Text is cut at
      255 characters. */
  lemma {:induction false} ReferenceKinds(base: string, loc: string)
    requires ParseUrl(base).Some?
    ensures var b := ParseUrl(base).value;
            var r := Resolve(base, loc);
            0 < |b.path| < PATH_CAP &&
            if loc == "" then r == Unsupported
            else if Begins(loc, "https://") then r == Resolved(Cut(loc))
            else if Begins(loc, "http://") then r == if b.secure then Downgrade else Resolved(Cut(loc))
            else if "//" <= loc then r == Resolved(Cut((if b.secure then "https:" else "http:") + loc))
            else if OtherSchemeText(loc) then r == Unsupported
            else r == Resolved(Cut(Printed(b, Tail(b.path, loc))))
  {
    hide ParseUrl, Printed, Tail, Cut;
    ParsedShape(base);
    OtherSchemeMeaning(loc, 0);
    assert StartsCi(loc, "https://") <==> Begins(loc, "https://") by { SameCi(loc, "https://"); }
    assert StartsCi(loc, "http://") <==> Begins(loc, "http://") by { SameCi(loc, "http://"); }
    hide OtherScheme, StartsCi, Begins;
    assert NetworkPath(loc) <==> "//" <= loc;
  }

  lemma {:induction false} SameCi(s: string, p: string)
    requires forall i :: 0 <= i < |p| ==> !('A' <= p[i] <= 'Z')
    ensures StartsCi(s, p) <==> Begins(s, p)
  {
  }

  lemma {:induction false} CutMeaning(s: string)
    ensures |s| <= 255 ==> Cut(s) == s
    ensures |s| > 255 ==> Cut(s) == s[..255]
  {
  }

  // Redirect runs

  /** Hop i goes to urls[i], which is what the response to the hop before resolves to. */
  ghost predicate HopAt(hops: seq<Url>, urls: seq<string>, responses: seq<Response>, from: nat, i: nat)
    requires i < |hops| == |urls|
  {
    && ParseUrl(urls[i]) == Some(hops[i])
    && (i > 0 ==>
          var at := from + i - 1;
          && at < |responses| && responses[at].Moved? && responses[at].location.Some?
          && Resolve(urls[i - 1], responses[at].location.value) == Resolved(urls[i]))
  }

  ghost predicate HopsAlong(hops: seq<Url>, urls: seq<string>, responses: seq<Response>, from: nat) {
    |urls| == |hops| && forall i :: 0 <= i < |hops| ==> HopAt(hops, urls, responses, from, i)
  }

  /** Why there is no further hop: four were made, there is no redirect to follow, or its target is refused or does not
      parse. */
  ghost predicate Stops(url: string, responses: seq<Response>, at: nat) {
    || at >= 3
    || at >= |responses| || !responses[at].Moved? || responses[at].location.None?
    || (var r := Resolve(url, responses[at].location.value); !r.Resolved? || ParseUrl(r.url).None?)
  }

  /** The hops of a redirect run: the first is the given URL, each further one the target of the redirect before, at
      most four in all, and the run goes on as long as it can. */
  lemma {:induction false} HopsMeaning(current: string, responses: seq<Response>, from: nat) returns (urls: seq<string>)
    requires from <= 4
    ensures var hops := Hops(current, responses, from);
            && |hops| <= 4 - from && HopsAlong(hops, urls, responses, from)
            && (hops == [] <==> from == 4 || ParseUrl(current).None?)
            && (hops != [] ==> urls[0] == current && Stops(urls[|urls| - 1], responses, from + |urls| - 1))
    decreases 4 - from
  {
    hide ParseUrl, Resolve;
    urls := [];
    if from < 4 && ParseUrl(current).Some? {
      urls := [current];
      if from < |responses| && responses[from].Moved? && responses[from].location.Some? && from != 3 {
        var r := Resolve(current, responses[from].location.value);
        if r.Resolved? {
          CutCut(current, responses[from].location.value);
          var more := HopsMeaning(r.url, responses, from + 1);
          urls := [current] + more;
          Longer(current, more, Hops(current, responses, from), responses, from);
        }
      }
    }
  }

  lemma {:induction false} Longer(current: string, more: seq<string>, hops: seq<Url>, responses: seq<Response>,
                                  from: nat)
    requires hops != [] && HopsAlong(hops[1..], more, responses, from + 1) && ParseUrl(current) == Some(hops[0])
    requires from < |responses| && responses[from].Moved? && responses[from].location.Some?
    requires more != [] ==> Resolve(current, responses[from].location.value) == Resolved(more[0])
    ensures HopsAlong(hops, [current] + more, responses, from)
  {
    hide ParseUrl, Resolve;
    var urls, rest := [current] + more, hops[1..];
    forall i | 0 <= i < |hops| ensures HopAt(hops, urls, responses, from, i) {
      if i > 0 {
        assert HopAt(rest, more, responses, from + 1, i - 1);
        assert hops[i] == rest[i - 1] && urls[i] == more[i - 1];
        assert i > 1 ==> urls[i - 1] == more[i - 2];
      }
    }
  }
}
