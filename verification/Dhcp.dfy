/** DHCP messages (RFC 2131, options of RFC 2132) as kernel/dhcp.c builds and reads them. */
module DhcpMessage {
  import opened Bytes

  const PACKET_MIN: nat := 300
  const COOKIE: nat := 0x63825363
  const DISCOVER: byte := 1
  const OFFER: byte := 2
  const REQUEST: byte := 3
  const ACK: byte := 5
  const NAK: byte := 6

  // Option lists

  datatype Opt = Opt(code: byte, value: seq<byte>)

  /** The option list at `o`: pads skipped, ended by 255 or the end of the message; None when an option is cut short. */
  function OptionsFrom(b: seq<byte>, o: nat): Option<seq<Opt>>
    requires o <= |b|
    decreases |b| - o
  {
    if o == |b| || b[o] == 255 then Some([])
    else if b[o] == 0 then OptionsFrom(b, o + 1)
    else if o + 1 == |b| || o + 2 + b[o + 1] > |b| then None
    else
      match OptionsFrom(b, o + 2 + b[o + 1])
      case None => None
      case Some(rest) => Some([Opt(b[o], b[o + 2..o + 2 + b[o + 1]])] + rest)
  }

  function EncodeOne(p: Opt): (e: seq<byte>)
    requires |p.value| < 256
    ensures |e| == 2 + |p.value|
  {
    [p.code, |p.value|] + p.value
  }

  predicate Sendable(opts: seq<Opt>) {
    forall i :: 0 <= i < |opts| ==> opts[i].code != 0 && opts[i].code != 255 && |opts[i].value| < 256
  }

  function Encode(opts: seq<Opt>): seq<byte>
    requires Sendable(opts)
  {
    if opts == [] then [] else Encode(opts[..|opts| - 1]) + EncodeOne(opts[|opts| - 1])
  }

  lemma {:induction false} EncodeCons(p: Opt, rest: seq<Opt>)
    requires Sendable([p] + rest)
    ensures |p.value| < 256 && p.code != 0 && p.code != 255
    ensures Sendable(rest) && Encode([p] + rest) == EncodeOne(p) + Encode(rest)
    decreases |rest|
  {
    hide EncodeOne;
    var all := [p] + rest;
    assert all[0] == p;
    assert forall i :: 0 <= i < |rest| ==> rest[i] == all[i + 1];
    if rest == [] {
      assert all == [p] && all[..0] == [];
    } else {
      var n := |rest| - 1;
      var front, last := rest[..n], rest[n];
      assert all[..n + 1] == [p] + front && all[n + 1] == last;
      EncodeCons(p, front);
      Assoc(EncodeOne(p), Encode(front), EncodeOne(last));
    }
  }

  lemma {:induction false} EncodeNothing()
    ensures Encode([]) == []
  {
  }

  /** An encoded list reads back as itself, whatever precedes it and whatever follows the end mark. */
  lemma {:induction false} EncodedReadsBack(b: seq<byte>, o: nat, opts: seq<Opt>, tail: seq<byte>)
    requires Sendable(opts) && o <= |b| && b[o..] == Encode(opts) + [255] + tail
    ensures OptionsFrom(b, o) == Some(opts)
    decreases |opts|
  {
    hide EncodeOne, Encode;
    if opts == [] {
      EncodeNothing();
      assert b[o] == b[o..][0] == 255;
    } else {
      var p, rest := opts[0], opts[1..];
      assert opts == [p] + rest;
      EncodeCons(p, rest);
      var more := Encode(rest) + [255] + tail;
      assert EncodeOne(p) + Encode(rest) + [255] + tail == EncodeOne(p) + more;
      OneReadsBack(b, o, p, more);
      EncodedReadsBack(b, o + 2 + |p.value|, rest, tail);
    }
  }

  lemma {:induction false} OneReadsBack(b: seq<byte>, o: nat, p: Opt, tail: seq<byte>)
    requires |p.value| < 256 && o <= |b| && b[o..] == EncodeOne(p) + tail
    ensures o + 2 + |p.value| <= |b| && b[o] == p.code && b[o + 1] == |p.value|
    ensures b[o + 2..o + 2 + |p.value|] == p.value && b[o + 2 + |p.value|..] == tail
  {
    var n := |p.value|;
    assert |b[o..]| == 2 + n + |tail|;
    assert b[o] == b[o..][0] && b[o + 1] == b[o..][1];
    assert b[o + 2..o + 2 + n] == b[o..][2..2 + n];
    assert b[o + 2 + n..] == b[o..][2 + n..];
  }

  // What a reply means

  datatype Lease = Lease(messageType: byte, ip: seq<byte>, netmask: seq<byte>, gateway: seq<byte>, dns: seq<byte>,
                         server: seq<byte>, seconds: nat,
                         haveNetmask: bool, haveGateway: bool, haveDns: bool, haveServer: bool)

  const NO_LEASE: Lease := Lease(0, Zeros(4), Zeros(4), Zeros(4), Zeros(4), Zeros(4), 0, false, false, false, false)

  /** Options the kernel understands, with the lengths it accepts. */
  predicate Shaped(p: Opt) {
    || (p.code == 53 && |p.value| == 1)
    || (p.code in [1, 51, 54] && |p.value| == 4)
    || (p.code in [3, 6] && |p.value| >= 4)
  }

  /** The last understood option with the given code. */
  function Last(opts: seq<Opt>, code: byte): (v: Option<seq<byte>>)
    ensures v.Some? ==> Shaped(Opt(code, v.value))
  {
    if opts == [] then None
    else if opts[|opts| - 1].code == code && Shaped(opts[|opts| - 1]) then Some(opts[|opts| - 1].value)
    else Last(opts[..|opts| - 1], code)
  }

  function Address(opts: seq<Opt>, code: byte): seq<byte>
    requires code in [1, 3, 6, 54]
  {
    match Last(opts, code)
    case None => Zeros(4)
    case Some(v) => v[..4]
  }

  /** The lease a reply grants: for each field, the last understood option. */
  function LeaseOf(ip: seq<byte>, opts: seq<Opt>): Lease {
    Lease(match Last(opts, 53) case None => 0 case Some(v) => v[0],
          ip, Address(opts, 1), Address(opts, 3), Address(opts, 6), Address(opts, 54),
          match Last(opts, 51) case None => 0 case Some(v) => Get32(v, 0),
          Last(opts, 1).Some?, Last(opts, 3).Some?, Last(opts, 6).Some?, Last(opts, 54).Some?)
  }

  /** A BOOTP reply over Ethernet with our transaction id and hardware address. */
  predicate Ours(packet: seq<byte>, xid: nat, mac: seq<byte>): (o: bool)
    ensures o ==> |packet| >= 240
  {
    && |packet| >= 240 && packet[..3] == [2, 1, 6] && Get32(packet, 4) == xid
    && packet[28..34] == mac && Get32(packet, 236) == COOKIE
  }

  function Reply(packet: seq<byte>, xid: nat, mac: seq<byte>): Option<Lease> {
    if !Ours(packet, xid, mac) then None
    else
      match OptionsFrom(packet, 240)
      case None => None
      case Some(opts) =>
        var lease := LeaseOf(packet[16..20], opts);
        if lease.messageType == 0 then None else Some(lease)
  }

  /** Every well-formed server message is understood as the lease its options state. */
  lemma {:induction false} ServerMessageUnderstood(packet: seq<byte>, xid: nat, mac: seq<byte>, opts: seq<Opt>,
                                                   tail: seq<byte>)
    requires Ours(packet, xid, mac) && Sendable(opts) && packet[240..] == Encode(opts) + [255] + tail
    ensures Reply(packet, xid, mac)
         == if LeaseOf(packet[16..20], opts).messageType == 0 then None else Some(LeaseOf(packet[16..20], opts))
  {
    hide LeaseOf, Encode;
    EncodedReadsBack(packet, 240, opts, tail);
  }

  lemma {:induction false} LastSnoc(opts: seq<Opt>, p: Opt, code: byte)
    ensures Last(opts + [p], code) == if p.code == code && Shaped(p) then Some(p.value) else Last(opts, code)
  {
    assert (opts + [p])[..|opts|] == opts;
  }

  lemma {:induction false} LeaseOfNothing(ip: seq<byte>)
    ensures LeaseOf(ip, []) == NO_LEASE.(ip := ip)
  {
  }

  /** How one more option changes the lease. */
  function Apply(l: Lease, p: Opt): Lease {
    if !Shaped(p) then l
    else if p.code == 53 then l.(messageType := p.value[0])
    else if p.code == 1 then l.(netmask := p.value, haveNetmask := true)
    else if p.code == 3 then l.(gateway := p.value[..4], haveGateway := true)
    else if p.code == 6 then l.(dns := p.value[..4], haveDns := true)
    else if p.code == 51 then l.(seconds := Get32(p.value, 0))
    else l.(server := p.value, haveServer := true)
  }

  lemma {:induction false} LeaseOfSnoc(ip: seq<byte>, opts: seq<Opt>, p: Opt)
    ensures LeaseOf(ip, opts + [p]) == Apply(LeaseOf(ip, opts), p)
  {
    hide Last;
    LastSnoc(opts, p, 53);
    LastSnoc(opts, p, 1);
    LastSnoc(opts, p, 3);
    LastSnoc(opts, p, 6);
    LastSnoc(opts, p, 51);
    LastSnoc(opts, p, 54);
    if Shaped(p) && |p.value| == 4 { assert p.value[..4] == p.value; }
  }

  // The fields of a lease, option by option

  /** The last option with this code and a length from `least` to `most`. */
  predicate LastAt(opts: seq<Opt>, i: int, code: byte, least: nat, most: nat)
    ensures LastAt(opts, i, code, least, most) ==> 0 <= i < |opts| && least <= |opts[i].value| <= most
  {
    && 0 <= i < |opts| && opts[i].code == code && least <= |opts[i].value| <= most
    && forall j :: i < j < |opts| ==> !(opts[j].code == code && least <= |opts[j].value| <= most)
  }

  predicate NoneAt(opts: seq<Opt>, code: byte, least: nat, most: nat) {
    forall j :: 0 <= j < |opts| ==> !(opts[j].code == code && least <= |opts[j].value| <= most)
  }

  predicate LengthRange(code: byte, least: nat, most: nat) {
    || (code == 53 && least == most == 1)
    || (code in [1, 51, 54] && least == most == 4)
    || (code in [3, 6] && least == 4 && most == 255)
  }

  lemma {:induction false} LastMeaning(opts: seq<Opt>, code: byte, least: nat, most: nat)
    requires LengthRange(code, least, most) && forall i :: 0 <= i < |opts| ==> |opts[i].value| < 256
    ensures forall i :: LastAt(opts, i, code, least, most) ==> Last(opts, code) == Some(opts[i].value)
    ensures NoneAt(opts, code, least, most) ==> Last(opts, code) == None
  {
    hide Last, Shaped, LastAt, NoneAt;
    if opts == [] {
      LastOfNone(code, least, most);
    } else {
      var front, last := opts[..|opts| - 1], opts[|opts| - 1];
      assert opts == front + [last];
      LastSnoc(front, last, code);
      LastMeaning(front, code, least, most);
      FitsShaped(last, code, least, most);
      FrontLast(front, last, code, least, most);
      hide LengthRange;
      forall i | LastAt(opts, i, code, least, most) ensures Last(opts, code) == Some(opts[i].value) {
        if i < |front| { assert opts[i] == front[i]; }
      }
    }
  }

  lemma {:induction false} LastOfNone(code: byte, least: nat, most: nat)
    ensures Last([], code) == None && forall i :: !LastAt([], i, code, least, most)
  {
  }

  lemma {:induction false} FitsShaped(p: Opt, code: byte, least: nat, most: nat)
    requires LengthRange(code, least, most) && |p.value| < 256
    ensures Shaped(p) && p.code == code <==> p.code == code && least <= |p.value| <= most
  {
  }

  lemma {:induction false} FrontLast(front: seq<Opt>, last: Opt, code: byte, least: nat, most: nat)
    ensures var fits := last.code == code && least <= |last.value| <= most;
            && (forall i :: LastAt(front + [last], i, code, least, most) ==>
                  if fits then i == |front| else LastAt(front, i, code, least, most))
            && (NoneAt(front + [last], code, least, most) ==> !fits && NoneAt(front, code, least, most))
  {
    var opts := front + [last];
    assert opts[|front|] == last && forall j :: 0 <= j < |front| ==> opts[j] == front[j];
  }

  /** Mask, router, name server, server, lease time and message type are options 1, 3, 6, 54, 51 and 53, the last of
      each that has the right length; lists of addresses give their first. */
  lemma {:induction false} LeaseMeaning(ip: seq<byte>, opts: seq<Opt>)
    requires forall i :: 0 <= i < |opts| ==> |opts[i].value| < 256
    ensures var l := LeaseOf(ip, opts);
            && l.ip == ip
            && (forall i :: LastAt(opts, i, 1, 4, 4) ==> l.netmask == opts[i].value && l.haveNetmask)
            && (forall i :: LastAt(opts, i, 3, 4, 255) ==> l.gateway == opts[i].value[..4] && l.haveGateway)
            && (forall i :: LastAt(opts, i, 6, 4, 255) ==> l.dns == opts[i].value[..4] && l.haveDns)
            && (forall i :: LastAt(opts, i, 54, 4, 4) ==> l.server == opts[i].value && l.haveServer)
            && (forall i :: LastAt(opts, i, 51, 4, 4) ==> l.seconds == Big(opts[i].value))
            && (forall i :: LastAt(opts, i, 53, 1, 1) ==> l.messageType == opts[i].value[0])
    ensures var l := LeaseOf(ip, opts);
            && (NoneAt(opts, 1, 4, 4) ==> !l.haveNetmask) && (NoneAt(opts, 3, 4, 255) ==> !l.haveGateway)
            && (NoneAt(opts, 6, 4, 255) ==> !l.haveDns) && (NoneAt(opts, 54, 4, 4) ==> !l.haveServer)
            && (NoneAt(opts, 51, 4, 4) ==> l.seconds == 0) && (NoneAt(opts, 53, 1, 1) ==> l.messageType == 0)
  {
    hide Last, LastAt, NoneAt;
    LastMeaning(opts, 1, 4, 4);
    LastMeaning(opts, 3, 4, 255);
    LastMeaning(opts, 6, 4, 255);
    LastMeaning(opts, 54, 4, 4);
    LastMeaning(opts, 51, 4, 4);
    LastMeaning(opts, 53, 1, 1);
    WholeValues(opts);
  }

  lemma {:induction false} WholeValues(opts: seq<Opt>)
    ensures forall i :: 0 <= i < |opts| && |opts[i].value| == 4 ==>
              opts[i].value[..4] == opts[i].value && Get32(opts[i].value, 0) == Big(opts[i].value)
  {
    forall i | 0 <= i < |opts| && |opts[i].value| == 4
      ensures opts[i].value[..4] == opts[i].value && Get32(opts[i].value, 0) == Big(opts[i].value)
    {
      var v := opts[i].value;
      BigOfFour(v[0], v[1], v[2], v[3]);
      assert v == [v[0], v[1], v[2], v[3]];
    }
  }

  /** `dhcp_parse_reply`. */
  method ParseReply(packet: seq<byte>, xid: nat, mac: seq<byte>) returns (r: Option<Lease>)
    requires |mac| == 6
    ensures r == Reply(packet, xid, mac)
  {
    if |packet| < 240 { return None; }
    if packet[0] != 2 || packet[1] != 1 || packet[2] != 6 { return None; }
    if Get32(packet, 4) != xid { return None; }
    if packet[28..34] != mac { return None; }
    if Get32(packet, 236) != COOKIE { return None; }
    assert Ours(packet, xid, mac) by { assert packet[..3] == [2, 1, 6]; }
    hide Ours, LeaseOf, OptionsFrom;
    var lease := ReadOptions(packet, packet[16..20]);
    r := if lease.Some? && lease.value.messageType != 0 then lease else None;
  }

  /** The option loop: None when an option is cut short. */
  method ReadOptions(packet: seq<byte>, ip: seq<byte>) returns (r: Option<Lease>)
    requires |packet| >= 240
    ensures r == match OptionsFrom(packet, 240) case None => None case Some(opts) => Some(LeaseOf(ip, opts))
  {
    hide LeaseOf, Apply, OptionsFrom;
    var lease := NO_LEASE.(ip := ip);
    LeaseOfNothing(ip);
    var o := 240;
    ghost var seen: seq<Opt> := [];
    AfterNone(OptionsFrom(packet, o));
    while o < |packet|
      invariant 240 <= o <= |packet|
      invariant lease == LeaseOf(ip, seen)
      invariant OptionsFrom(packet, 240) == After(seen, OptionsFrom(packet, o))
      decreases |packet| - o
    {
      OptionsStep(packet, o);
      var code := packet[o];
      if code == 0 {
        o := o + 1;
        continue;
      }
      if code == 255 { break; }
      if o + 1 >= |packet| { return None; }
      var n := packet[o + 1];
      if n > |packet| - (o + 2) { return None; }
      var v := packet[o + 2..o + 2 + n];
      ghost var p := Opt(code, v);
      LeaseOfSnoc(ip, seen, p);
      lease := Update(lease, code, v);
      AfterSnoc(seen, p, OptionsFrom(packet, o + 2 + n));
      seen := seen + [p];
      o := o + 2 + n;
    }
    OptionsEnd(packet, o);
    assert seen + [] == seen;
    r := Some(lease);
  }

  lemma {:induction false} OptionsEnd(b: seq<byte>, o: nat)
    requires o <= |b| && (o == |b| || b[o] == 255)
    ensures OptionsFrom(b, o) == Some([])
  {
  }

  lemma {:induction false} OptionsStep(b: seq<byte>, o: nat)
    requires o < |b|
    ensures b[o] == 0 ==> OptionsFrom(b, o) == OptionsFrom(b, o + 1)
    ensures b[o] != 0 && b[o] != 255 ==>
              if o + 1 == |b| || o + 2 + b[o + 1] > |b| then OptionsFrom(b, o) == None
              else
                var n := o + 2 + b[o + 1];
                var rest := OptionsFrom(b, n);
                OptionsFrom(b, o) == if rest.None? then None else Some([Opt(b[o], b[o + 2..n])] + rest.value)
  {
  }

  ghost function After(seen: seq<Opt>, rest: Option<seq<Opt>>): Option<seq<Opt>> {
    if rest.None? then None else Some(seen + rest.value)
  }

  lemma {:induction false} AfterNone(rest: Option<seq<Opt>>)
    ensures After([], rest) == rest
  {
    if rest.Some? { assert [] + rest.value == rest.value; }
  }

  lemma {:induction false} AfterSnoc(seen: seq<Opt>, p: Opt, rest: Option<seq<Opt>>)
    ensures After(seen, if rest.None? then None else Some([p] + rest.value)) == After(seen + [p], rest)
  {
    if rest.Some? { assert seen + ([p] + rest.value) == seen + [p] + rest.value; }
  }

  /** The branches of the option loop. */
  method Update(lease: Lease, code: byte, v: seq<byte>) returns (l: Lease)
    ensures l == Apply(lease, Opt(code, v))
  {
    l := lease;
    var n := |v|;
    if n == 4 { assert v[..4] == v; }
    if code == 53 && n == 1 {
      l := l.(messageType := v[0]);
    } else if code == 1 && n == 4 {
      l := l.(netmask := v[..4], haveNetmask := true);
    } else if code == 3 && n >= 4 {
      l := l.(gateway := v[..4], haveGateway := true);
    } else if code == 6 && n >= 4 {
      l := l.(dns := v[..4], haveDns := true);
    } else if code == 51 && n == 4 {
      l := l.(seconds := Get32(v, 0));
    } else if code == 54 && n == 4 {
      l := l.(server := v[..4], haveServer := true);
    }
  }

  // Client messages

  /** The fixed part of a client message, RFC 2131 section 2. */
  function Header(xid: nat, mac: seq<byte>): (h: seq<byte>)
    requires xid < U32 && |mac| == 6
    ensures |h| == 240
  {
    [1, 1, 6] + Zeros(1) + Put32(xid) + Zeros(2) + Put16(0x8000) + Zeros(16) + mac + Zeros(202) + Put32(COOKIE)
  }

  function BaseOptions(mac: seq<byte>, messageType: byte): seq<Opt> {
    [Opt(53, [messageType]), Opt(61, [1] + mac), Opt(57, [2, 64])]
  }

  const PARAMETERS: Opt := Opt(55, [1, 3, 6, 51])

  function DiscoverOptions(mac: seq<byte>): seq<Opt> {
    BaseOptions(mac, DISCOVER) + [PARAMETERS]
  }

  function RequestOptions(mac: seq<byte>, ip: seq<byte>, server: seq<byte>): seq<Opt> {
    BaseOptions(mac, REQUEST) + [Opt(50, ip)] + [Opt(54, server)] + [PARAMETERS]
  }

  /** A message of the minimum length carrying `opts`. */
  predicate Carries(packet: seq<byte>, xid: nat, mac: seq<byte>, opts: seq<Opt>)
    requires xid < U32 && |mac| == 6
  {
    && |packet| == PACKET_MIN && packet[..240] == Header(xid, mac)
    && OptionsFrom(packet, 240) == Some(opts)
  }

  // What a server finds in a client message, in bytes

  /** Just one option has this code, and it has this value. */
  predicate Once(opts: seq<Opt>, code: byte, value: seq<byte>) {
    exists i :: 0 <= i < |opts| && opts[i] == Opt(code, value)
                && forall j :: 0 <= j < |opts| && opts[j].code == code ==> j == i
  }

  predicate Absent(opts: seq<Opt>, code: byte) {
    forall j :: 0 <= j < |opts| ==> opts[j].code != code
  }

  predicate Blank(b: seq<byte>, from: nat, to: nat) {
    to <= |b| && forall i :: from <= i < to ==> b[i] == 0
  }

  /** A BOOTP request over Ethernet that asks for broadcast replies, of 300 bytes, with the DHCP cookie. */
  predicate ClientHeader(p: seq<byte>, xid: nat, mac: seq<byte>) {
    && |p| == 300 && p[0] == 1 && p[1] == 1 && p[2] == 6 && p[3] == 0
    && Big(p[4..8]) == xid && p[8] == 0 && p[9] == 0 && p[10] == 0x80 && p[11] == 0
    && Blank(p, 12, 28) && p[28..34] == mac && Blank(p, 34, 236)
    && p[236] == 0x63 && p[237] == 0x82 && p[238] == 0x53 && p[239] == 0x63
  }

  /** Message type, client id, maximum size and the parameters asked for: mask, router, name server, lease time. */
  predicate CommonOptions(opts: seq<Opt>, mac: seq<byte>, messageType: byte) {
    && Once(opts, 53, [messageType]) && Once(opts, 61, [1] + mac) && Once(opts, 57, [2, 64])
    && Once(opts, 55, [1, 3, 6, 51])
  }

  /** A DISCOVER: no address and no server asked for. */
  predicate IsDiscover(p: seq<byte>, xid: nat, mac: seq<byte>) {
    ClientHeader(p, xid, mac) &&
    match OptionsFrom(p, 240)
    case None => false
    case Some(opts) => CommonOptions(opts, mac, 1) && Absent(opts, 50) && Absent(opts, 54) && |opts| == 4
  }

  /** A REQUEST for this address at this server. */
  predicate IsRequest(p: seq<byte>, xid: nat, mac: seq<byte>, ip: seq<byte>, server: seq<byte>) {
    ClientHeader(p, xid, mac) &&
    match OptionsFrom(p, 240)
    case None => false
    case Some(opts) => CommonOptions(opts, mac, 3) && Once(opts, 50, ip) && Once(opts, 54, server) && |opts| == 6
  }

  lemma {:induction false} OnceAt(opts: seq<Opt>, i: nat)
    requires i < |opts| && forall j :: 0 <= j < |opts| && opts[j].code == opts[i].code ==> j == i
    ensures Once(opts, opts[i].code, opts[i].value)
  {
  }

  lemma {:induction false} DiscoverSays(mac: seq<byte>)
    ensures var o := DiscoverOptions(mac);
            CommonOptions(o, mac, 1) && Absent(o, 50) && Absent(o, 54) && |o| == 4
  {
    hide Once;
    var o := DiscoverOptions(mac);
    OnceAt(o, 0);
    OnceAt(o, 1);
    OnceAt(o, 2);
    OnceAt(o, 3);
  }

  lemma {:induction false} RequestSays(mac: seq<byte>, ip: seq<byte>, server: seq<byte>)
    ensures var o := RequestOptions(mac, ip, server);
            CommonOptions(o, mac, 3) && Once(o, 50, ip) && Once(o, 54, server) && |o| == 6
  {
    hide Once;
    var o := RequestOptions(mac, ip, server);
    OnceAt(o, 0);
    OnceAt(o, 1);
    OnceAt(o, 2);
    OnceAt(o, 3);
    OnceAt(o, 4);
    OnceAt(o, 5);
  }

  lemma {:induction false} HeaderBytes(p: seq<byte>, xid: nat, mac: seq<byte>)
    requires xid < U32 && |mac| == 6 && |p| == PACKET_MIN && p[..240] == Header(xid, mac)
    ensures ClientHeader(p, xid, mac)
  {
    hide Put32, Put16;
    var h := Header(xid, mac);
    assert forall i :: 0 <= i < 240 ==> p[i] == h[i];
    assert p[4..8] == h[4..8] == Put32(xid);
    PutIsBig(0, xid);
    assert p[28..34] == h[28..34] == mac;
    assert Put16(0x8000) == [0x80, 0] by { hide *; FlagBytes(); }
    assert Put32(COOKIE) == [0x63, 0x82, 0x53, 0x63] by { hide *; CookieBytes(); }
    assert h[10..12] == Put16(0x8000) && h[236..240] == Put32(COOKIE);
    assert p[10] == h[10..12][0] && p[11] == h[10..12][1];
    assert p[236] == h[236..240][0] && p[237] == h[236..240][1] && p[238] == h[236..240][2] && p[239] == h[236..240][3];
  }

  lemma {:induction false} FlagBytes()
    ensures Put16(0x8000) == [0x80, 0]
  {
  }

  lemma {:induction false} CookieBytes()
    ensures Put32(COOKIE) == [0x63, 0x82, 0x53, 0x63]
  {
  }

  lemma {:induction false} CarriedDiscover(p: seq<byte>, xid: nat, mac: seq<byte>)
    requires xid < U32 && |mac| == 6 && Carries(p, xid, mac, DiscoverOptions(mac))
    ensures IsDiscover(p, xid, mac)
  {
    hide Header, DiscoverOptions, CommonOptions, Absent, ClientHeader, OptionsFrom;
    HeaderBytes(p, xid, mac);
    DiscoverSays(mac);
  }

  lemma {:induction false} CarriedRequest(p: seq<byte>, xid: nat, mac: seq<byte>, ip: seq<byte>, server: seq<byte>)
    requires xid < U32 && |mac| == 6 && Carries(p, xid, mac, RequestOptions(mac, ip, server))
    ensures IsRequest(p, xid, mac, ip, server)
  {
    hide Header, RequestOptions, CommonOptions, Once, ClientHeader, OptionsFrom;
    HeaderBytes(p, xid, mac);
    RequestSays(mac, ip, server);
  }

  /** `p` holds `done` at its front and zeros from there to the minimum length. */
  predicate Written(p: seq<byte>, done: seq<byte>) {
    |done| <= PACKET_MIN <= |p| && p[..|done|] == done && forall i :: |done| <= i < PACKET_MIN ==> p[i] == 0
  }

  lemma {:induction false} WrittenMore(p: seq<byte>, done: seq<byte>, gap: nat, d: seq<byte>)
    requires Written(p, done) && |done| + gap + |d| <= PACKET_MIN
    ensures Written(Splice(p, |done| + gap, d), done + Zeros(gap) + d)
  {
    var q, more := Splice(p, |done| + gap, d), done + Zeros(gap) + d;
    assert q[..|more|] == more by {
      assert q[|done| + gap..|more|] == d;
      forall i | 0 <= i < |more|
        ensures q[i] == more[i]
      {
        if i < |done| { assert p[..|done|][i] == done[i]; }
        if i >= |done| + gap { assert q[|done| + gap..|more|][i - |done| - gap] == d[i - |done| - gap]; }
      }
    }
  }

  /** One field of the message: written at its offset, everything before and behind as it was. */
  method Put(packet: array<byte>, at: nat, d: seq<byte>, ghost done: seq<byte>)
    requires |done| <= at && at + |d| <= PACKET_MIN && Written(packet[..], done)
    modifies packet
    ensures Written(packet[..], done + Zeros(at - |done|) + d) && packet[PACKET_MIN..] == old(packet[PACKET_MIN..])
  {
    WrittenMore(packet[..], done, at - |done|, d);
    CopyInto(packet, at, d);
  }

  /** `dhcp_base`: the header, without options, in a zeroed packet. */
  method PutHeader(packet: array<byte>, xid: nat, mac: seq<byte>)
    requires xid < U32 && |mac| == 6 && PACKET_MIN <= packet.Length
    modifies packet
    ensures Written(packet[..], Header(xid, mac)) && packet[PACKET_MIN..] == old(packet[PACKET_MIN..])
  {
    hide Written, Put32, Put16;
    CopyInto(packet, 0, Zeros(PACKET_MIN));
    assert Written(packet[..], []) by { BlankWritten(packet[..]); }
    ghost var done: seq<byte> := [];
    Put(packet, 0, [1, 1, 6], done);
    done := [1, 1, 6];
    assert [] + Zeros(0) + [1, 1, 6] == done;
    Put(packet, 4, Put32(xid), done);
    done := done + Zeros(1) + Put32(xid);
    Put(packet, 10, Put16(0x8000), done);
    done := done + Zeros(2) + Put16(0x8000);
    Put(packet, 28, mac, done);
    done := done + Zeros(16) + mac;
    Put(packet, 236, Put32(COOKIE), done);
  }

  lemma {:induction false} BlankWritten(p: seq<byte>)
    requires PACKET_MIN <= |p| && p[..PACKET_MIN] == Zeros(PACKET_MIN)
    ensures Written(p, [])
  {
    assert forall i :: 0 <= i < PACKET_MIN ==> p[i] == p[..PACKET_MIN][i];
  }

  /** One option appended at `o`. */
  method PutOption(packet: array<byte>, o: nat, p: Opt, ghost head: seq<byte>, ghost opts: seq<Opt>) returns (next: nat)
    requires Sendable(opts + [p]) && Sendable(opts) && o == |head + Encode(opts)| && o + 2 + |p.value| <= PACKET_MIN
    requires Written(packet[..], head + Encode(opts))
    modifies packet
    ensures next == o + 2 + |p.value| == |head + Encode(opts + [p])|
    ensures Written(packet[..], head + Encode(opts + [p])) && packet[PACKET_MIN..] == old(packet[PACKET_MIN..])
  {
    hide Written;
    assert (opts + [p])[..|opts|] == opts;
    assert p == (opts + [p])[|opts|];
    assert head + Encode(opts) + Zeros(0) + EncodeOne(p) == head + (Encode(opts) + EncodeOne(p));
    hide Encode;
    Put(packet, o, EncodeOne(p), head + Encode(opts));
    next := o + 2 + |p.value|;
  }

  lemma {:induction false} FinishedCarries(packet: seq<byte>, xid: nat, mac: seq<byte>, opts: seq<Opt>)
    requires xid < U32 && |mac| == 6 && Sendable(opts)
    requires Written(packet, Header(xid, mac) + Encode(opts) + [255])
    ensures Carries(packet[..PACKET_MIN], xid, mac, opts)
  {
    hide Header, Encode;
    var p := packet[..PACKET_MIN];
    var h, e := Header(xid, mac), Encode(opts);
    var done := h + e + [255];
    assert p[..|done|] == done;
    assert p[..240] == done[..240] == h;
    assert p[240..] == e + [255] + p[|done|..] by {
      assert p == p[..|done|] + p[|done|..];
      assert p == h + (e + [255] + p[|done|..]);
    }
    EncodedReadsBack(p, 240, opts, p[|done|..]);
  }

  /** `dhcp_base` and `dhcp_finish` around the options in between. */
  method BuildOptions(packet: array<byte>, xid: nat, mac: seq<byte>, opts: seq<Opt>) returns (size: nat)
    requires xid < U32 && |mac| == 6 && Sendable(opts) && 240 + |Encode(opts)| < PACKET_MIN <= packet.Length
    modifies packet
    ensures size == PACKET_MIN && Carries(packet[..PACKET_MIN], xid, mac, opts)
    ensures packet[PACKET_MIN..] == old(packet[PACKET_MIN..])
  {
    hide Written, Header;
    PutHeader(packet, xid, mac);
    var o := 240;
    ghost var h := Header(xid, mac);
    assert h + Encode([]) == h;
    for i := 0 to |opts|
      invariant Sendable(opts[..i]) && o == |h + Encode(opts[..i])|
      invariant Written(packet[..], h + Encode(opts[..i]))
      invariant packet[PACKET_MIN..] == old(packet[PACKET_MIN..])
    {
      assert opts[..i] + [opts[i]] == opts[..i + 1];
      PrefixFits(opts, i + 1);
      PrefixFits(opts, i);
      o := PutOption(packet, o, opts[i], h, opts[..i]);
    }
    assert opts[..|opts|] == opts;
    ghost var done := h + Encode(opts);
    assert done + Zeros(0) + [255] == h + Encode(opts) + [255];
    Put(packet, o, [255], done);
    FinishedCarries(packet[..], xid, mac, opts);
    size := PACKET_MIN;
  }

  lemma {:induction false} PrefixFits(opts: seq<Opt>, i: nat)
    requires Sendable(opts) && i <= |opts|
    ensures Sendable(opts[..i]) && |Encode(opts[..i])| <= |Encode(opts)|
    ensures 0 < i ==> |Encode(opts[..i])| == |Encode(opts[..i - 1])| + 2 + |opts[i - 1].value|
    decreases |opts| - i
  {
    if i > 0 { assert opts[..i][..i - 1] == opts[..i - 1]; }
    if i < |opts| {
      PrefixFits(opts, i + 1);
      assert opts[..i + 1][..i] == opts[..i];
    } else {
      assert opts[..i] == opts;
    }
  }

  lemma {:induction false} DiscoverLength(mac: seq<byte>)
    requires |mac| == 6
    ensures Sendable(DiscoverOptions(mac)) && |Encode(DiscoverOptions(mac))| == 22
  {
    var d := DiscoverOptions(mac);
    assert d[..4] == d;
    hide Encode, DiscoverOptions;
    PrefixFits(d, 4);
    PrefixFits(d, 3);
    PrefixFits(d, 2);
    PrefixFits(d, 1);
    EncodeNothing();
  }

  lemma {:induction false} RequestLength(mac: seq<byte>, ip: seq<byte>, server: seq<byte>)
    requires |mac| == 6 && |ip| == 4 && |server| == 4
    ensures Sendable(RequestOptions(mac, ip, server)) && |Encode(RequestOptions(mac, ip, server))| == 34
  {
    var r := RequestOptions(mac, ip, server);
    assert r[..6] == r;
    hide Encode, RequestOptions;
    PrefixFits(r, 6);
    PrefixFits(r, 5);
    PrefixFits(r, 4);
    PrefixFits(r, 3);
    PrefixFits(r, 2);
    PrefixFits(r, 1);
    EncodeNothing();
  }

  /** `dhcp_build_discover`. */
  method BuildDiscover(packet: array<byte>, xid: nat, mac: seq<byte>) returns (size: nat)
    requires xid < U32 && |mac| == 6
    modifies packet
    ensures packet.Length < PACKET_MIN ==> size == 0 && packet[..] == old(packet[..])
    ensures PACKET_MIN <= packet.Length ==>
              && size == PACKET_MIN && Carries(packet[..PACKET_MIN], xid, mac, DiscoverOptions(mac))
              && IsDiscover(packet[..300], xid, mac)
              && packet[PACKET_MIN..] == old(packet[PACKET_MIN..])
  {
    if packet.Length < PACKET_MIN { return 0; }
    hide Encode, Carries, IsDiscover;
    DiscoverLength(mac);
    size := BuildOptions(packet, xid, mac, DiscoverOptions(mac));
    CarriedDiscover(packet[..PACKET_MIN], xid, mac);
  }

  /** `dhcp_build_request`: the address and the server asked for travel in options 50 and 54. */
  method BuildRequest(packet: array<byte>, xid: nat, mac: seq<byte>, ip: seq<byte>, server: seq<byte>)
    returns (size: nat)
    requires xid < U32 && |mac| == 6 && |ip| == 4 && |server| == 4
    modifies packet
    ensures packet.Length < PACKET_MIN ==> size == 0 && packet[..] == old(packet[..])
    ensures PACKET_MIN <= packet.Length ==>
              && size == PACKET_MIN && Carries(packet[..PACKET_MIN], xid, mac, RequestOptions(mac, ip, server))
              && IsRequest(packet[..300], xid, mac, ip, server)
              && packet[PACKET_MIN..] == old(packet[PACKET_MIN..])
  {
    if packet.Length < PACKET_MIN { return 0; }
    hide Encode, Carries, IsRequest;
    RequestLength(mac, ip, server);
    size := BuildOptions(packet, xid, mac, RequestOptions(mac, ip, server));
    CarriedRequest(packet[..PACKET_MIN], xid, mac, ip, server);
  }

  // The overlay of an ACK on the OFFER before it

  /** `lease_overlay`. */
  function Overlay(dst: Lease, src: Lease): Lease {
    Lease(src.messageType,
          if src.ip != Zeros(4) then src.ip else dst.ip,
          if src.haveNetmask then src.netmask else dst.netmask,
          if src.haveGateway then src.gateway else dst.gateway,
          if src.haveDns then src.dns else dst.dns,
          if src.haveServer then src.server else dst.server,
          if src.seconds != 0 then src.seconds else dst.seconds,
          src.haveNetmask || dst.haveNetmask, src.haveGateway || dst.haveGateway,
          src.haveDns || dst.haveDns, src.haveServer || dst.haveServer)
  }

  lemma {:induction false} LastConcat(a: seq<Opt>, b: seq<Opt>, code: byte)
    ensures Last(a + b, code) == if Last(b, code).Some? then Last(b, code) else Last(a, code)
  {
    if b == [] {
      assert a + b == a;
    } else {
      assert (a + b)[..|a + b| - 1] == a + b[..|b| - 1];
      LastConcat(a, b[..|b| - 1], code);
    }
  }

  lemma {:induction false} OverlayFields(ip: seq<byte>, offer: seq<Opt>, ip2: seq<byte>, ack: seq<Opt>)
    requires LeaseOf(ip2, ack).messageType != 0
    ensures var joint := LeaseOf(if ip2 != Zeros(4) then ip2 else ip, offer + ack);
            var l := Overlay(LeaseOf(ip, offer), LeaseOf(ip2, ack));
            l == joint.(seconds := l.seconds)
  {
    hide Last, Address;
    LastConcat(offer, ack, 53);
    AddressConcat(offer, ack, 1);
    AddressConcat(offer, ack, 3);
    AddressConcat(offer, ack, 6);
    AddressConcat(offer, ack, 54);
  }

  /** Overlaying the ACK on the OFFER is reading both option lists as one, the ACK's last, except when the ACK states
      a lease time of zero: the OFFER's time survives then. */
  lemma {:induction false} OverlayIsConcatenation(ip: seq<byte>, offer: seq<Opt>, ip2: seq<byte>, ack: seq<Opt>)
    requires LeaseOf(ip2, ack).messageType != 0
    ensures var joint := LeaseOf(if ip2 != Zeros(4) then ip2 else ip, offer + ack);
            (Overlay(LeaseOf(ip, offer), LeaseOf(ip2, ack)) == joint)
            <==> !(Last(ack, 51) == Some(Zeros(4)) && LeaseOf(ip, offer).seconds != 0)
    ensures var joint := LeaseOf(if ip2 != Zeros(4) then ip2 else ip, offer + ack);
            var l := Overlay(LeaseOf(ip, offer), LeaseOf(ip2, ack));
            l == joint.(seconds := l.seconds)
  {
    OverlayFields(ip, offer, ip2, ack);
    LastConcat(offer, ack, 51);
    hide Last, Address;
    if Last(ack, 51).Some? { ZeroTime(Last(ack, 51).value); }
  }

  lemma {:induction false} AddressConcat(a: seq<Opt>, b: seq<Opt>, code: byte)
    requires code in [1, 3, 6, 54]
    ensures Address(a + b, code) == if Last(b, code).Some? then Address(b, code) else Address(a, code)
    ensures Last(a + b, code).Some? <==> Last(a, code).Some? || Last(b, code).Some?
  {
    hide Last;
    LastConcat(a, b, code);
  }

  lemma {:induction false} ZeroTime(v: seq<byte>)
    requires |v| == 4
    ensures Get32(v, 0) == 0 <==> v == Zeros(4)
  {
    if Get32(v, 0) == 0 { assert v == [0, 0, 0, 0]; }
  }
}
