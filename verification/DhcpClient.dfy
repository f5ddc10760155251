/** The DHCP exchange of kernel/dhcp.c: frames in and out, the two waits, and what a finished exchange guarantees. */
module DhcpClient {
  import opened Bytes
  import opened Checksum
  import opened DhcpMessage

  const IP_UDP: byte := 17
  const CLIENT_PORT: nat := 68
  const SERVER_PORT: nat := 67
  const PAYLOAD_MAX: nat := 1472
  const BROADCAST: seq<byte> := [255, 255, 255, 255]

  // Frames

  /** The UDP payload of an IPv4 frame between the given ports. */
  function UdpPayload(frame: seq<byte>, source: nat, target: nat): Option<seq<byte>> {
    if |frame| < 42 || Get16(frame, 12) != 0x0800 then None
    else
      var ip := frame[14..];
      if ip[0] / 16 != 4 || ip[9] != IP_UDP then None
      else
        var ihl := ip[0] % 16 * 4;
        var total := Get16(ip, 2);
        if ihl < 20 || ihl > |ip| || total < ihl + 8 || total > |ip| then None
        else
          var udp := ip[ihl..total];
          if Get16(udp, 0) != source || Get16(udp, 2) != target then None
          else if Get16(udp, 4) < 8 || Get16(udp, 4) > |udp| then None
          else Some(udp[8..Get16(udp, 4)])
  }

  function IpHeader(payload: nat, id: nat, check: nat): (h: seq<byte>)
    requires payload <= PAYLOAD_MAX && id < U16 && check < U16
    ensures |h| == 20
  {
    [0x45, 0] + Put16(28 + payload) + Put16(id) + [0, 0, 64, IP_UDP] + Put16(check) + Zeros(4) + BROADCAST
  }

  function UdpHeader(source: nat, target: nat, payload: nat): (h: seq<byte>)
    requires source < U16 && target < U16 && payload <= PAYLOAD_MAX
    ensures |h| == 8
  {
    Put16(source) + Put16(target) + Put16(8 + payload) + [0, 0]
  }

  function EtherHeader(mac: seq<byte>): (h: seq<byte>)
    requires |mac| == 6
    ensures |h| == 14
  {
    [255, 255, 255, 255, 255, 255] + mac + [8, 0]
  }

  /** The broadcast frame around `payload` between two ports, with IPv4 checksum field `check`. */
  function Datagram(mac: seq<byte>, source: nat, target: nat, id: nat, check: nat, payload: seq<byte>): (f: seq<byte>)
    requires |mac| == 6 && source < U16 && target < U16 && id < U16 && check < U16 && |payload| <= PAYLOAD_MAX
    ensures |f| == 42 + |payload|
  {
    EtherHeader(mac) + IpHeader(|payload|, id, check) + UdpHeader(source, target, |payload|) + payload
  }

  /** What the client sends. */
  function Frame(mac: seq<byte>, id: nat, check: nat, payload: seq<byte>): (f: seq<byte>)
    requires |mac| == 6 && id < U16 && check < U16 && |payload| <= PAYLOAD_MAX
    ensures |f| == 42 + |payload|
  {
    Datagram(mac, CLIENT_PORT, SERVER_PORT, id, check, payload)
  }

  /** A frame whose IPv4 header verifies and whose payload reads back at the server's side. */
  predicate Delivers(frame: seq<byte>, payload: seq<byte>) {
    && |frame| == 42 + |payload| && Sum16(frame[14..34]) == 0
    && UdpPayload(frame, 68, 67) == Some(payload)
  }

  lemma {:induction false} FrameSlices(mac: seq<byte>, source: nat, target: nat, id: nat, check: nat,
                                       payload: seq<byte>)
    requires |mac| == 6 && source < U16 && target < U16 && id < U16 && check < U16 && |payload| <= PAYLOAD_MAX
    ensures var f := Datagram(mac, source, target, id, check, payload);
            && Get16(f, 12) == 0x0800 && f[14..34] == IpHeader(|payload|, id, check)
            && f[34..42] == UdpHeader(source, target, |payload|) && f[42..] == payload
  {
    var f := Datagram(mac, source, target, id, check, payload);
    hide IpHeader, UdpHeader;
    assert f[12] == EtherHeader(mac)[12] && f[13] == EtherHeader(mac)[13];
  }

  lemma {:induction false} HeaderFields(payload: nat, source: nat, target: nat, id: nat, check: nat)
    requires payload <= PAYLOAD_MAX && source < U16 && target < U16 && id < U16 && check < U16
    ensures var h := IpHeader(payload, id, check); h[0] == 0x45 && h[9] == IP_UDP && Get16(h, 2) == 28 + payload
    ensures var u := UdpHeader(source, target, payload);
            Get16(u, 0) == source && Get16(u, 2) == target && Get16(u, 4) == 8 + payload
  {
    hide Put16;
    var h, u := IpHeader(payload, id, check), UdpHeader(source, target, payload);
    assert h[2] == Put16(28 + payload)[0] && h[3] == Put16(28 + payload)[1];
    assert u[0] == Put16(source)[0] && u[1] == Put16(source)[1];
    assert u[2] == Put16(target)[0] && u[3] == Put16(target)[1];
    assert u[4] == Put16(8 + payload)[0] && u[5] == Put16(8 + payload)[1];
  }

  /** A broadcast frame decapsulates to its payload at the receiver's port. */
  lemma {:induction false} FrameReadsBack(mac: seq<byte>, source: nat, target: nat, id: nat, check: nat,
                                          payload: seq<byte>)
    requires |mac| == 6 && source < U16 && target < U16 && id < U16 && check < U16 && |payload| <= PAYLOAD_MAX
    ensures UdpPayload(Datagram(mac, source, target, id, check, payload), source, target) == Some(payload)
  {
    hide Datagram, IpHeader, UdpHeader, UdpPayload;
    FrameSlices(mac, source, target, id, check, payload);
    HeaderFields(|payload|, source, target, id, check);
    var f := Datagram(mac, source, target, id, check, payload);
    PayloadRead(f, f[14..34], f[34..42], source, target, payload);
  }

  lemma {:induction false} PayloadRead(f: seq<byte>, h: seq<byte>, u: seq<byte>, source: nat, target: nat,
                                       payload: seq<byte>)
    requires |f| == 42 + |payload| && |payload| <= PAYLOAD_MAX && Get16(f, 12) == 0x0800
    requires h == f[14..34] && u == f[34..42] && f[42..] == payload
    requires h[0] == 0x45 && h[9] == IP_UDP && Get16(h, 2) == 28 + |payload|
    requires Get16(u, 0) == source && Get16(u, 2) == target && Get16(u, 4) == 8 + |payload|
    ensures UdpPayload(f, source, target) == Some(payload)
  {
    var ip := f[14..];
    assert ip[0] == h[0] && ip[9] == h[9] && ip[2] == h[2] && ip[3] == h[3];
    var udp := ip[20..28 + |payload|];
    assert forall i :: 0 <= i < 8 ==> udp[i] == u[i];
    assert udp[8..8 + |payload|] == f[42..];
  }

  /** Who the frame is from and for: any station and address, from this card and no address yet; no UDP checksum. */
  lemma {:induction false} FrameAddresses(mac: seq<byte>, source: nat, target: nat, id: nat, check: nat,
                                          payload: seq<byte>)
    requires |mac| == 6 && source < U16 && target < U16 && id < U16 && check < U16 && |payload| <= PAYLOAD_MAX
    ensures var f := Datagram(mac, source, target, id, check, payload);
            && f[..6] == [255, 255, 255, 255, 255, 255] && f[6..12] == mac
            && f[26..30] == [0, 0, 0, 0] && f[30..34] == [255, 255, 255, 255] && f[22] == 64
            && f[40] == 0 && f[41] == 0
  {
    hide Put16;
    var f := Datagram(mac, source, target, id, check, payload);
    var h, u := IpHeader(|payload|, id, check), UdpHeader(source, target, |payload|);
    FrameSlices(mac, source, target, id, check, payload);
    assert f[26..30] == f[14..34][12..16] == h[12..16];
    assert f[30..34] == f[14..34][16..20] == h[16..20];
    assert f[22] == f[14..34][8] == h[8];
    assert f[40] == f[34..42][6] == u[6] && f[41] == f[34..42][7] == u[7];
  }

  // The receive side

  /** What one received frame is to the client: a reply meant for it, or nothing. */
  function FrameReply(frame: seq<byte>, xid: nat, mac: seq<byte>): Option<Lease> {
    match UdpPayload(frame, SERVER_PORT, CLIENT_PORT)
    case None => None
    case Some(payload) => Reply(payload, xid, mac)
  }

  /** Replies that decide a wait: a refusal from any server, or the message waited for. */
  predicate Decisive(r: Option<Lease>, wanted: byte) {
    r.Some? && (r.value.messageType == NAK || r.value.messageType == wanted)
  }

  /** The last decisive reply among `frames`. */
  function Verdict(frames: seq<seq<byte>>, xid: nat, mac: seq<byte>, wanted: byte): (v: Option<Lease>)
    ensures v.Some? ==> Decisive(v, wanted)
    ensures v.None? ==> forall i :: 0 <= i < |frames| ==> !Decisive(FrameReply(frames[i], xid, mac), wanted)
  {
    if frames == [] then None
    else
      var r := FrameReply(frames[|frames| - 1], xid, mac);
      if Decisive(r, wanted) then r else Verdict(frames[..|frames| - 1], xid, mac, wanted)
  }

  /** Frame j holds the reply v, and nothing decisive follows it. */
  predicate DecidedAt(frames: seq<seq<byte>>, j: nat, xid: nat, mac: seq<byte>, wanted: byte, v: Option<Lease>) {
    && j < |frames| && FrameReply(frames[j], xid, mac) == v
    && forall k :: j < k < |frames| ==> !Decisive(FrameReply(frames[k], xid, mac), wanted)
  }

  lemma {:induction false} VerdictAt(frames: seq<seq<byte>>, xid: nat, mac: seq<byte>, wanted: byte) returns (j: nat)
    requires Verdict(frames, xid, mac, wanted).Some?
    ensures DecidedAt(frames, j, xid, mac, wanted, Verdict(frames, xid, mac, wanted))
    decreases |frames|
  {
    hide FrameReply, Decisive;
    var last := |frames| - 1;
    if Decisive(FrameReply(frames[last], xid, mac), wanted) {
      j := last;
    } else {
      j := VerdictAt(frames[..last], xid, mac, wanted);
      assert frames[j] == frames[..last][j];
      forall k | j < k < |frames| ensures !Decisive(FrameReply(frames[k], xid, mac), wanted) {
        if k < last { assert frames[k] == frames[..last][k]; }
      }
    }
  }

  // Waiting

  /** One turn of the wait loop: the clock at the deadline test, the clock after it, and what `netdev_poll` delivers. */
  datatype Turn = Turn(check: nat, now: nat, frames: seq<seq<byte>>)

  /** A wait: the clock at its start and its turns. */
  datatype Clocked = Clocked(start: nat, turns: seq<Turn>)

  predicate Elapsed(start: nat, now: nat, ms: nat) {
    (now - start) % U32 >= ms
  }

  /** The turns that run: those before the first whose deadline test fails. The clock has passed the deadline when
      the list is used up. */
  function Running(turns: seq<Turn>, start: nat, ms: nat): (r: seq<Turn>)
    ensures r <= turns && forall i :: 0 <= i < |r| ==> !Elapsed(start, r[i].check, ms)
    ensures |r| < |turns| ==> Elapsed(start, turns[|r|].check, ms)
  {
    if turns == [] || Elapsed(start, turns[0].check, ms) then []
    else
      var r := Running(turns[1..], start, ms);
      assert turns == [turns[0]] + turns[1..];
      [turns[0]] + r
  }

  /** The verdict of the first turn that has one. */
  function Decision(turns: seq<Turn>, xid: nat, mac: seq<byte>, wanted: byte): (d: Option<Lease>)
    ensures d.Some? ==> Decisive(d, wanted)
  {
    if turns == [] then None
    else
      var v := Verdict(turns[0].frames, xid, mac, wanted);
      if v.Some? then v else Decision(turns[1..], xid, mac, wanted)
  }

  lemma {:induction false} RunningStep(turns: seq<Turn>, i: nat, start: nat, ms: nat, xid: nat, mac: seq<byte>,
                                       wanted: byte)
    requires i < |turns| && !Elapsed(start, turns[i].check, ms)
    ensures Running(turns[i..], start, ms) != []
    ensures var v := Verdict(turns[i].frames, xid, mac, wanted);
            var d := Decision(Running(turns[i..], start, ms), xid, mac, wanted);
            d == if v.Some? then v else Decision(Running(turns[i + 1..], start, ms), xid, mac, wanted)
  {
    hide Verdict;
    assert turns[i..][1..] == turns[i + 1..];
    var r := Running(turns[i + 1..], start, ms);
    assert ([turns[i]] + r)[1..] == r;
  }

  lemma {:induction false} RunningEnds(turns: seq<Turn>, i: nat, start: nat, ms: nat, xid: nat, mac: seq<byte>,
                                       wanted: byte)
    requires i <= |turns| && (i < |turns| ==> Elapsed(start, turns[i].check, ms))
    ensures Running(turns[i..], start, ms) == []
    ensures Decision([], xid, mac, wanted).None?
  {
  }

  /** What a wait for `wanted` yields: the reply, unless it refuses or time runs out. */
  function Awaited(turns: seq<Turn>, start: nat, ms: nat, xid: nat, mac: seq<byte>, wanted: byte): (r: Option<Lease>)
    ensures r.Some? ==> r.value.messageType == wanted
  {
    match Decision(Running(turns, start, ms), xid, mac, wanted)
    case Some(l) => if l.messageType == wanted then Some(l) else None
    case None => None
  }

  /** A reply that is awaited successfully arrived in a turn before the deadline, with no refusal or other wanted
      reply in an earlier turn or behind it in its own. */
  lemma {:induction false} AwaitedArrived(turns: seq<Turn>, xid: nat, mac: seq<byte>, wanted: byte)
    requires Decision(turns, xid, mac, wanted).Some?
    ensures exists i: nat, j: nat :: i < |turns|
              && DecidedAt(turns[i].frames, j, xid, mac, wanted, Decision(turns, xid, mac, wanted))
              && Undecided(turns[..i], xid, mac, wanted)
  {
    hide Verdict, FrameReply, Decisive, DecidedAt;
    var v := Verdict(turns[0].frames, xid, mac, wanted);
    if v.Some? {
      var j := VerdictAt(turns[0].frames, xid, mac, wanted);
      assert Undecided(turns[..0], xid, mac, wanted);
    } else {
      var rest := turns[1..];
      AwaitedArrived(rest, xid, mac, wanted);
      var i: nat, j: nat :| i < |rest|
        && DecidedAt(rest[i].frames, j, xid, mac, wanted, Decision(turns, xid, mac, wanted))
        && Undecided(rest[..i], xid, mac, wanted);
      assert turns[..i + 1] == [turns[0]] + rest[..i];
      UndecidedCons(turns[0], rest[..i], xid, mac, wanted);
      assert turns[i + 1] == rest[i];
    }
  }

  /** No decisive reply in any of the turns. */
  predicate Undecided(turns: seq<Turn>, xid: nat, mac: seq<byte>, wanted: byte) {
    forall i, j :: 0 <= i < |turns| && 0 <= j < |turns[i].frames| ==>
      !Decisive(FrameReply(turns[i].frames[j], xid, mac), wanted)
  }

  lemma {:induction false} UndecidedCons(t: Turn, rest: seq<Turn>, xid: nat, mac: seq<byte>, wanted: byte)
    requires Undecided(rest, xid, mac, wanted) && Verdict(t.frames, xid, mac, wanted).None?
    ensures Undecided([t] + rest, xid, mac, wanted)
  {
    hide FrameReply, Decisive;
    forall i, j | 0 <= i < |[t] + rest| && 0 <= j < |([t] + rest)[i].frames|
      ensures !Decisive(FrameReply(([t] + rest)[i].frames[j], xid, mac), wanted)
    {
      if i > 0 { assert ([t] + rest)[i] == rest[i - 1]; }
    }
  }

  // Transmissions during a wait

  /** `last_tx` before anything was sent. */
  const NEVER: nat := 0xffffffff

  predicate Due(lastTx: nat, now: nat) {
    lastTx == NEVER || (now - lastTx) % U32 >= 400
  }

  function Now(t: Turn): (n: nat)
    ensures n < U32
  {
    t.now % U32
  }

  /** The turns that run before the wait is decided, the deciding one included. */
  function Executed(turns: seq<Turn>, xid: nat, mac: seq<byte>, wanted: byte): seq<Turn> {
    if turns == [] then []
    else if Verdict(turns[0].frames, xid, mac, wanted).Some? then [turns[0]]
    else [turns[0]] + Executed(turns[1..], xid, mac, wanted)
  }

  /** Which turns transmit. */
  function Sends(turns: seq<Turn>, lastTx: nat): (s: seq<bool>)
    ensures |s| == |turns|
  {
    if turns == [] then []
    else
      var due := Due(lastTx, Now(turns[0]));
      [due] + Sends(turns[1..], if due then Now(turns[0]) else lastTx)
  }

  function Trues(s: seq<bool>): nat {
    if s == [] then 0 else (if s[0] then 1 else 0) + Trues(s[1..])
  }

  /** How many frames have gone out at each poll, `base` before the first turn. */
  function PollPoints(s: seq<bool>, base: nat): (p: seq<nat>)
    ensures |p| == |s|
  {
    if s == [] then []
    else
      var b := base + if s[0] then 1 else 0;
      [b] + PollPoints(s[1..], b)
  }

  /** The transmissions of a whole wait, turn by turn. */
  function Transmissions(c: Clocked, ms: nat, xid: nat, mac: seq<byte>, wanted: byte): seq<bool> {
    Sends(Executed(Running(c.turns, c.start, ms), xid, mac, wanted), NEVER)
  }

  /** The first turn transmits, so something has gone out before every poll. */
  lemma {:induction false} SentBeforePolls(turns: seq<Turn>, base: nat, k: nat)
    requires k < |turns|
    ensures var s := Sends(turns, NEVER); s[0] && PollPoints(s, base)[k] > base
  {
    var s := Sends(turns, NEVER);
    if k > 0 { PointsGrow(s[1..], base + 1, k - 1); }
  }

  lemma {:induction false} RunningSends(c: Clocked, ms: nat, xid: nat, mac: seq<byte>, wanted: byte)
    ensures Running(c.turns, c.start, ms) != [] ==> Trues(Transmissions(c, ms, xid, mac, wanted)) > 0
  {
    hide Verdict, Running;
  }

  lemma {:induction false} PointsGrow(s: seq<bool>, base: nat, k: nat)
    requires k < |s|
    ensures PollPoints(s, base)[k] >= base
  {
    if k > 0 { PointsGrow(s[1..], base + if s[0] then 1 else 0, k - 1); }
  }

  /** After a transmission in turn i the next one is in the first turn whose clock is 400 ms later; a clock reading of
      0xffffffff counts as never. */
  lemma {:induction false} SendsSpaced(turns: seq<Turn>, lastTx: nat, i: nat, j: nat)
    requires i < j < |turns| && Sends(turns, lastTx)[i]
    requires forall k :: i < k < j ==> !Sends(turns, lastTx)[k]
    ensures Sends(turns, lastTx)[j] <==>
              turns[i].now % U32 == 0xffffffff || (turns[j].now - turns[i].now) % U32 >= 400
    decreases i
  {
    hide Due, Now, Sends;
    SpacedDue(turns[i], turns[j]);
    SendsTail(turns, lastTx);
    var s, due := Sends(turns, lastTx), Due(lastTx, Now(turns[0]));
    var rest, next := turns[1..], if due then Now(turns[0]) else lastTx;
    forall k | i - 1 < k < j - 1 && 0 <= k ensures !Sends(rest, next)[k] { assert !s[k + 1]; }
    if i > 0 {
      SendsSpaced(rest, next, i - 1, j - 1);
    } else {
      QuietUntil(rest, next, j - 1);
    }
  }

  lemma {:induction false} SendsTail(turns: seq<Turn>, lastTx: nat)
    requires turns != []
    ensures var due := Due(lastTx, Now(turns[0]));
            && Sends(turns, lastTx)[0] == due
            && forall k :: 1 <= k < |turns| ==>
                 Sends(turns, lastTx)[k] == Sends(turns[1..], if due then Now(turns[0]) else lastTx)[k - 1]
  {
    hide Due;
  }

  lemma {:induction false} SpacedDue(a: Turn, b: Turn)
    ensures Due(Now(a), Now(b)) <==> a.now % U32 == 0xffffffff || (b.now - a.now) % U32 >= 400
  {
    assert (b.now % U32 - a.now % U32) % U32 == (b.now - a.now) % U32;
  }

  lemma {:induction false} QuietUntil(turns: seq<Turn>, lastTx: nat, j: nat)
    requires j < |turns| && forall k :: 0 <= k < j ==> !Sends(turns, lastTx)[k]
    ensures Sends(turns, lastTx)[j] <==> Due(lastTx, Now(turns[j]))
    decreases j
  {
    if j > 0 {
      var s := Sends(turns, lastTx);
      assert !s[0] && s[1..] == Sends(turns[1..], lastTx);
      forall k | 0 <= k < j - 1 ensures !Sends(turns[1..], lastTx)[k] { assert s[1..][k] == s[k + 1]; }
      QuietUntil(turns[1..], lastTx, j - 1);
    }
  }

  // The exchange

  predicate NonZero(ip: seq<byte>) {
    ip != Zeros(4)
  }

  /** What `dhcp_acquire` insists on. */
  predicate Usable(l: Lease) {
    NonZero(l.ip) && l.haveNetmask && l.haveGateway && l.haveDns
  }

  /** The transaction id: never zero. */
  function Xid(ticks: bv32): (x: nat)
    ensures 0 < x < U32
  {
    var x := (0x4f520000 ^ ticks) as nat;
    if x == 0 then 0x4f52494f else x
  }

  /** OFFER and ACK of a successful exchange. */
  function Exchange(mac: seq<byte>, xid: nat, ms: nat, first: Clocked, second: Clocked): Option<(Lease, Lease)> {
    match Awaited(first.turns, first.start, ms, xid, mac, OFFER)
    case None => None
    case Some(offer) =>
      if !NonZero(offer.ip) || !offer.haveServer then None
      else
        match Awaited(second.turns, second.start, ms, xid, mac, ACK)
        case None => None
        case Some(ack) => if Usable(Overlay(offer, ack)) then Some((offer, ack)) else None
  }

  // What a finished exchange guarantees

  /** A reply that is taken at all is a BOOTP reply over Ethernet that repeats the transaction id and the hardware
      address and carries the DHCP cookie; its address field is at 16. */
  lemma {:induction false} ReplyChecks(p: seq<byte>, xid: nat, mac: seq<byte>)
    requires Reply(p, xid, mac).Some?
    ensures |p| >= 240 && p[0] == 2 && p[1] == 1 && p[2] == 6 && Big(p[4..8]) == xid && p[28..34] == mac
    ensures p[236] == 0x63 && p[237] == 0x82 && p[238] == 0x53 && p[239] == 0x63
    ensures Reply(p, xid, mac).value.ip == p[16..20] && Reply(p, xid, mac).value.messageType != 0
  {
    hide OptionsFrom, Last, Address;
    assert p[0] == p[..3][0] && p[1] == p[..3][1] && p[2] == p[..3][2];
    BigOfFour(p[4], p[5], p[6], p[7]);
    assert p[4..8] == [p[4], p[5], p[6], p[7]];
    assert COOKIE == ((0x63 * 256 + 0x82) * 256 + 0x53) * 256 + 0x63;
  }

  /** What is taken for a datagram from one port to another: IPv4 and UDP by their numbers, lengths inside the
      frame, the ports in this order; the payload lies behind both headers. */
  lemma {:induction false} PayloadMeaning(frame: seq<byte>, source: nat, target: nat)
    requires UdpPayload(frame, source, target).Some?
    ensures |frame| >= 42 && Get16(frame, 12) == 0x0800 && frame[14] / 16 == 4 && frame[23] == 17
    ensures var udp := 14 + 4 * (frame[14] % 16);
            && 34 <= udp && udp + 8 <= 14 + Get16(frame, 16) <= |frame|
            && Get16(frame, udp) == source && Get16(frame, udp + 2) == target
            && 8 <= Get16(frame, udp + 4) <= 14 + Get16(frame, 16) - udp
            && UdpPayload(frame, source, target).value == frame[udp + 8..udp + Get16(frame, udp + 4)]
  {
    var ip := frame[14..];
    var ihl, total := ip[0] % 16 * 4, Get16(ip, 2);
    assert ip[0] == frame[14] && ip[9] == frame[23] && total == Get16(frame, 16);
    Inside(frame, ihl, total);
  }

  /** Fields and payload of the datagram inside the frame. */
  lemma {:induction false} Inside(frame: seq<byte>, ihl: nat, total: nat)
    requires |frame| >= 42 && ihl + 8 <= total <= |frame| - 14
    ensures var udp, at := frame[14..][ihl..total], 14 + ihl;
            && Get16(udp, 0) == Get16(frame, at) && Get16(udp, 2) == Get16(frame, at + 2)
            && Get16(udp, 4) == Get16(frame, at + 4)
            && (8 <= Get16(udp, 4) <= |udp| ==> udp[8..Get16(udp, 4)] == frame[at + 8..at + Get16(frame, at + 4)])
  {
    var udp, at := frame[14..][ihl..total], 14 + ihl;
    assert udp == frame[at..14 + total];
    assert forall k :: 0 <= k < 8 ==> udp[k] == frame[at + k];
    if 8 <= Get16(udp, 4) <= |udp| { SliceOfSlice(frame, at, 14 + total, 8, Get16(udp, 4)); }
  }

  /** A frame of `frames` holds a reply with our transaction id and hardware address, of the given type, with option
      list `opts` and offered address `ip`. */
  predicate Received(frames: seq<seq<byte>>, j: nat, xid: nat, mac: seq<byte>, messageType: byte, ip: seq<byte>,
                     opts: seq<Opt>)
    requires j < |frames|
  {
    var p := UdpPayload(frames[j], SERVER_PORT, CLIENT_PORT);
    && p.Some? && Ours(p.value, xid, mac) && p.value[16..20] == ip && OptionsFrom(p.value, 240) == Some(opts)
    && Last(opts, 53) == Some([messageType])
  }

  ghost predicate Answered(c: Clocked, ms: nat, xid: nat, mac: seq<byte>, wanted: byte, ip: seq<byte>, opts: seq<Opt>) {
    exists i: nat, j: nat ::
      && i < |c.turns| && j < |c.turns[i].frames|
      && Received(c.turns[i].frames, j, xid, mac, wanted, ip, opts)
      && DecidedAt(c.turns[i].frames, j, xid, mac, wanted, Some(LeaseOf(ip, opts)))
      && Undecided(c.turns[..i], xid, mac, wanted)
      && !Elapsed(c.start, c.turns[i].check, ms)
  }

  lemma {:induction false} TypeStated(ip: seq<byte>, opts: seq<Opt>)
    requires LeaseOf(ip, opts).messageType != 0
    ensures Last(opts, 53) == Some([LeaseOf(ip, opts).messageType])
  {
    hide Last;
    var v := Last(opts, 53).value;
    assert v == [v[0]];
  }

  lemma {:induction false} AwaitedAnswered(c: Clocked, ms: nat, xid: nat, mac: seq<byte>, wanted: byte)
    returns (ip: seq<byte>, opts: seq<Opt>)
    requires wanted != 0 && Awaited(c.turns, c.start, ms, xid, mac, wanted).Some?
    ensures Answered(c, ms, xid, mac, wanted, ip, opts)
    ensures |ip| == 4 && Awaited(c.turns, c.start, ms, xid, mac, wanted).value == LeaseOf(ip, opts)
  {
    hide Decision, UdpPayload, Running, Decisive, Ours, Last, Undecided;
    var turns := Running(c.turns, c.start, ms);
    AwaitedArrived(turns, xid, mac, wanted);
    var i: nat, j: nat :| i < |turns|
      && DecidedAt(turns[i].frames, j, xid, mac, wanted, Decision(turns, xid, mac, wanted))
      && Undecided(turns[..i], xid, mac, wanted);
    assert turns[..i] == c.turns[..i] && turns[i] == c.turns[i];
    var p := UdpPayload(c.turns[i].frames[j], SERVER_PORT, CLIENT_PORT).value;
    ip, opts := p[16..20], OptionsFrom(p, 240).value;
    var l := Reply(p, xid, mac).value;
    assert l == LeaseOf(ip, opts) && l.messageType == wanted;
    assert Last(opts, 53) == Some([wanted]) by { TypeStated(ip, opts); }
    assert Received(c.turns[i].frames, j, xid, mac, wanted, ip, opts);
  }

  /** A lease is granted only on an OFFER received while waiting for one and an ACK received while waiting for that,
      both with our transaction id and hardware address; it has a nonzero address and a stated mask, gateway and
      name server, and it reads the two option lists as one unless the ACK states a lease time of zero. */
  lemma {:induction false} GrantedLease(mac: seq<byte>, xid: nat, ms: nat, first: Clocked, second: Clocked)
    returns (ip: seq<byte>, offer: seq<Opt>, ip2: seq<byte>, ack: seq<Opt>)
    requires Exchange(mac, xid, ms, first, second).Some?
    ensures Answered(first, ms, xid, mac, OFFER, ip, offer) && Answered(second, ms, xid, mac, ACK, ip2, ack)
    ensures |ip| == 4 && |ip2| == 4 && NonZero(ip) && Last(offer, 54).Some?
    ensures var e := Exchange(mac, xid, ms, first, second).value;
            var joint := LeaseOf(if NonZero(ip2) then ip2 else ip, offer + ack);
            && e == (LeaseOf(ip, offer), LeaseOf(ip2, ack)) && Usable(joint)
            && (Overlay(e.0, e.1) == joint <==> Last(ack, 51) != Some(Zeros(4)) || e.0.seconds == 0)
            && Overlay(e.0, e.1) == joint.(seconds := Overlay(e.0, e.1).seconds)
  {
    hide Answered, Awaited, Last;
    ip, offer := AwaitedAnswered(first, ms, xid, mac, OFFER);
    ip2, ack := AwaitedAnswered(second, ms, xid, mac, ACK);
    OverlayIsConcatenation(ip, offer, ip2, ack);
  }

  /** Milliseconds for each of the two waits. */
  function PhaseTimeout(timeout: nat): (ms: nat)
    ensures timeout <= 1000 ==> ms == 500
    ensures timeout > 1000 ==> 2 * ms <= timeout <= 2 * ms + 1
  {
    (if timeout < 1000 then 1000 else timeout) / 2
  }

  /** The frame delivers a DISCOVER. */
  ghost predicate Discovers(frame: seq<byte>, xid: nat, mac: seq<byte>) {
    exists p :: Delivers(frame, p) && IsDiscover(p, xid, mac)
  }

  /** The frame delivers a REQUEST for this address at this server. */
  ghost predicate AsksFor(frame: seq<byte>, xid: nat, mac: seq<byte>, ip: seq<byte>, server: seq<byte>) {
    exists p :: Delivers(frame, p) && IsRequest(p, xid, mac, ip, server)
  }

  /** In some turn before the deadline a reply arrived whose bytes 16 to 19 are `ip`, whose last server option is
      `server` and whose last message type is OFFER. */
  ghost predicate OfferArrived(c: Clocked, ms: nat, xid: nat, mac: seq<byte>, ip: seq<byte>, server: seq<byte>) {
    exists i: nat, j: nat ::
      && i < |c.turns| && j < |c.turns[i].frames| && !Elapsed(c.start, c.turns[i].check, ms)
      && Offers(c.turns[i].frames[j], xid, mac, ip, server)
  }

  ghost predicate Offers(frame: seq<byte>, xid: nat, mac: seq<byte>, ip: seq<byte>, server: seq<byte>) {
    var p := UdpPayload(frame, 67, 68);
    && p.Some? && Ours(p.value, xid, mac) && p.value[16..20] == ip
    && var opts := OptionsFrom(p.value, 240);
       && opts.Some?
       && (exists k :: LastAt(opts.value, k, 53, 1, 1) && opts.value[k].value == [2])
       && (exists k :: LastAt(opts.value, k, 54, 4, 4) && opts.value[k].value == server)
  }

  /** DISCOVERs up to frame k, from there on only REQUESTs for the address and to the server of an OFFER that
      arrived. */
  ghost predicate Dialogue(sent: seq<seq<byte>>, from: nat, k: nat, c: Clocked, ms: nat, xid: nat, mac: seq<byte>,
                           ip: seq<byte>, server: seq<byte>)
  {
    && from <= k <= |sent|
    && (forall m :: from <= m < k ==> Discovers(sent[m], xid, mac))
    && (k < |sent| ==> OfferArrived(c, ms, xid, mac, ip, server))
    && (forall m :: k <= m < |sent| ==> AsksFor(sent[m], xid, mac, ip, server))
  }

  lemma {:induction false} OptionsShort(b: seq<byte>, o: nat)
    requires o <= |b| && OptionsFrom(b, o).Some?
    ensures var opts := OptionsFrom(b, o).value; forall i :: 0 <= i < |opts| ==> |opts[i].value| < 256
    decreases |b| - o
  {
    if o < |b| && b[o] != 255 { OptionsShort(b, if b[o] == 0 then o + 1 else o + 2 + b[o + 1]); }
  }

  lemma {:induction false} LastExists(opts: seq<Opt>, code: byte, least: nat, most: nat)
    ensures NoneAt(opts, code, least, most) || exists i :: LastAt(opts, i, code, least, most)
  {
    if opts != [] {
      var front, last := opts[..|opts| - 1], opts[|opts| - 1];
      LastExists(front, code, least, most);
      assert forall j :: 0 <= j < |front| ==> opts[j] == front[j];
      if last.code == code && least <= |last.value| <= most {
        assert LastAt(opts, |opts| - 1, code, least, most);
      } else if i :| LastAt(front, i, code, least, most) {
        assert LastAt(opts, i, code, least, most);
      }
    }
  }

  /** The option that `Last` finds. */
  lemma {:induction false} LastIs(opts: seq<Opt>, code: byte, least: nat, most: nat)
    requires LengthRange(code, least, most) && forall i :: 0 <= i < |opts| ==> |opts[i].value| < 256
    requires Last(opts, code).Some?
    ensures exists i :: LastAt(opts, i, code, least, most) && opts[i].value == Last(opts, code).value
  {
    hide Last, LastAt, NoneAt;
    LastMeaning(opts, code, least, most);
    LastExists(opts, code, least, most);
  }

  /** The lease that a wait for an OFFER yields is the one that arrived. */
  lemma {:induction false} OfferFrom(c: Clocked, ms: nat, xid: nat, mac: seq<byte>)
    requires var l := Awaited(c.turns, c.start, ms, xid, mac, OFFER); l.Some? && l.value.haveServer
    ensures var l := Awaited(c.turns, c.start, ms, xid, mac, OFFER).value;
            OfferArrived(c, ms, xid, mac, l.ip, l.server)
  {
    hide Awaited, UdpPayload, Ours, OptionsFrom, Last, LastAt, DecidedAt, Undecided, Elapsed;
    var ip, opts := AwaitedAnswered(c, ms, xid, mac, OFFER);
    var i: nat, j: nat :| i < |c.turns| && j < |c.turns[i].frames|
                          && Received(c.turns[i].frames, j, xid, mac, OFFER, ip, opts)
                          && !Elapsed(c.start, c.turns[i].check, ms);
    var p := UdpPayload(c.turns[i].frames[j], SERVER_PORT, CLIENT_PORT).value;
    assert |p| >= 240 by { OursLong(p, xid, mac); }
    OptionsShort(p, 240);
    LastIs(opts, 53, 1, 1);
    LastIs(opts, 54, 4, 4);
    var l := LeaseOf(ip, opts);
    assert l.server == Last(opts, 54).value by { ServerWhole(ip, opts); }
    assert Offers(c.turns[i].frames[j], xid, mac, l.ip, l.server);
  }

  lemma {:induction false} OursLong(p: seq<byte>, xid: nat, mac: seq<byte>)
    requires Ours(p, xid, mac)
    ensures |p| >= 240
  {
  }

  lemma {:induction false} ServerWhole(ip: seq<byte>, opts: seq<Opt>)
    requires LeaseOf(ip, opts).haveServer
    ensures Last(opts, 54).Some? && LeaseOf(ip, opts).server == Last(opts, 54).value
  {
    hide Last;
    var v := Last(opts, 54).value;
    assert |v| == 4 && v[..4] == v;
  }

  lemma {:induction false} AllDiscover(frames: seq<seq<byte>>, from: nat, packet: seq<byte>, xid: nat, mac: seq<byte>)
    requires from <= |frames| && AllDeliver(frames[from..], packet) && IsDiscover(packet, xid, mac)
    ensures forall m :: from <= m < |frames| ==> Discovers(frames[m], xid, mac)
  {
    hide Delivers, IsDiscover;
    forall m | from <= m < |frames| ensures Discovers(frames[m], xid, mac) {
      assert frames[from..][m - from] == frames[m];
    }
  }

  lemma {:induction false} AllAsk(frames: seq<seq<byte>>, from: nat, packet: seq<byte>, xid: nat, mac: seq<byte>,
                                  ip: seq<byte>, server: seq<byte>)
    requires from <= |frames| && AllDeliver(frames[from..], packet) && IsRequest(packet, xid, mac, ip, server)
    ensures forall m :: from <= m < |frames| ==> AsksFor(frames[m], xid, mac, ip, server)
  {
    hide Delivers, IsRequest;
    forall m | from <= m < |frames| ensures AsksFor(frames[m], xid, mac, ip, server) {
      assert frames[from..][m - from] == frames[m];
    }
  }

  predicate AllDeliver(frames: seq<seq<byte>>, packet: seq<byte>) {
    forall i :: 0 <= i < |frames| ==> Delivers(frames[i], packet)
  }

  /** Addresses in a reply are four bytes. */
  predicate Sized(l: Lease) {
    |l.ip| == 4 && |l.netmask| == 4 && |l.gateway| == 4 && |l.dns| == 4 && |l.server| == 4
  }

  lemma {:induction false} ReplySized(packet: seq<byte>, xid: nat, mac: seq<byte>)
    ensures var r := Reply(packet, xid, mac); r.Some? ==> Sized(r.value)
  {
    hide Last, OptionsFrom;
  }

  lemma {:induction false} AwaitedSized(c: Clocked, ms: nat, xid: nat, mac: seq<byte>, wanted: byte)
    requires Awaited(c.turns, c.start, ms, xid, mac, wanted).Some?
    ensures Sized(Awaited(c.turns, c.start, ms, xid, mac, wanted).value)
  {
    hide Decision, UdpPayload, Reply, Sized;
    var turns := Running(c.turns, c.start, ms);
    AwaitedArrived(turns, xid, mac, wanted);
    var i: nat, j: nat :| i < |turns|
      && DecidedAt(turns[i].frames, j, xid, mac, wanted, Decision(turns, xid, mac, wanted))
      && Undecided(turns[..i], xid, mac, wanted);
    var payload := UdpPayload(turns[i].frames[j], SERVER_PORT, CLIENT_PORT).value;
    ReplySized(payload, xid, mac);
  }

  lemma {:induction false} HeaderVerifies(payload: nat, id: nat)
    requires payload <= PAYLOAD_MAX && id < U16
    ensures var c := Sum16(IpHeader(payload, id, 0));
            && IpHeader(payload, id, c) == Splice(IpHeader(payload, id, 0), 10, Put16(c))
            && Sum16(IpHeader(payload, id, c)) == 0
  {
    hide Sum16;
    var z := IpHeader(payload, id, 0);
    var c := Sum16(z);
    StoredChecksumVerifies(z, 10, 0);
  }

  /** The three headers and the payload, written one after the other. */
  lemma {:induction false} Assembled(f: seq<byte>, mac: seq<byte>, id: nat, check: nat, payload: seq<byte>)
    requires |mac| == 6 && id < U16 && check < U16 && |payload| <= PAYLOAD_MAX && |f| == 1514
    ensures var n := |payload|;
            var g := Splice(Splice(f, 0, EtherHeader(mac)), 14, IpHeader(n, id, check));
            Splice(Splice(g, 34, UdpHeader(CLIENT_PORT, SERVER_PORT, n)), 42, payload)[..42 + n]
              == Frame(mac, id, check, payload)
  {
    hide EtherHeader, UdpHeader, IpHeader, Splice;
    var n := |payload|;
    var g := Splice(Splice(f, 0, EtherHeader(mac)), 14, IpHeader(n, id, check));
    var h := Splice(g, 34, UdpHeader(CLIENT_PORT, SERVER_PORT, n));
    var r := Splice(h, 42, payload);
    assert r[..14] == h[..14] == g[..14] == Splice(f, 0, EtherHeader(mac))[..14];
    assert r[14..34] == h[14..34] == g[14..34];
    assert r[34..42] == h[34..42];
    assert r[..42 + n] == r[..14] + r[14..34] + r[34..42] + r[42..42 + n];
  }

  lemma {:induction false} InnerSplice(f: seq<byte>, h: seq<byte>, d: seq<byte>)
    requires |f| == 1514 && |h| == 20 && |d| == 2
    ensures Splice(Splice(f, 14, h), 24, d) == Splice(f, 14, Splice(h, 10, d))
  {
  }

  /** The frame of `dhcp_send_broadcast`, checksum included. */
  method BuildFrame(frame: array<byte>, mac: seq<byte>, id: nat, payload: seq<byte>) returns (check: nat)
    requires frame.Length == 1514 && |mac| == 6 && id < U16 && |payload| <= PAYLOAD_MAX
    modifies frame
    ensures check == Sum16(IpHeader(|payload|, id, 0)) && frame[..42 + |payload|] == Frame(mac, id, check, payload)
  {
    hide Frame, IpHeader, UdpHeader, EtherHeader, Splice, Sum16;
    var n := |payload|;
    Assembled(frame[..], mac, id, Sum16(IpHeader(n, id, 0)), payload);
    CopyInto(frame, 0, EtherHeader(mac));
    ghost var f := frame[..];
    CopyInto(frame, 14, IpHeader(n, id, 0));
    check := Checksum16(frame[14..34]);
    HeaderVerifies(n, id);
    InnerSplice(f, IpHeader(n, id, 0), Put16(check));
    CopyInto(frame, 24, Put16(check));
    CopyInto(frame, 34, UdpHeader(CLIENT_PORT, SERVER_PORT, n));
    CopyInto(frame, 42, payload);
  }

  lemma {:induction false} NothingDelivers(packet: seq<byte>)
    ensures AllDeliver([], packet)
  {
  }

  /** The turns still to run from turn i on. */
  ghost function Left(c: Clocked, i: nat, ms: nat, xid: nat, mac: seq<byte>, wanted: byte): seq<Turn>
    requires i <= |c.turns|
  {
    Executed(Running(c.turns[i..], c.start, ms), xid, mac, wanted)
  }

  lemma {:induction false} LeftStep(c: Clocked, i: nat, ms: nat, xid: nat, mac: seq<byte>, wanted: byte)
    requires i < |c.turns| && !Elapsed(c.start, c.turns[i].check, ms)
    ensures Left(c, i, ms, xid, mac, wanted)
         == [c.turns[i]] + if Verdict(c.turns[i].frames, xid, mac, wanted).Some? then []
                           else Left(c, i + 1, ms, xid, mac, wanted)
  {
    hide Verdict;
    assert c.turns[i..][1..] == c.turns[i + 1..];
    var r := Running(c.turns[i + 1..], c.start, ms);
    assert ([c.turns[i]] + r)[1..] == r;
  }

  lemma {:induction false} LeftEnds(c: Clocked, i: nat, ms: nat, xid: nat, mac: seq<byte>, wanted: byte)
    requires i <= |c.turns| && (i < |c.turns| ==> Elapsed(c.start, c.turns[i].check, ms))
    ensures Left(c, i, ms, xid, mac, wanted) == []
  {
  }

  /** Frames sent and polls made so far, continued over the turns still to run, make up the whole plan. */
  ghost predicate Planned(plan: seq<bool>, base: nat, before: seq<nat>, left: seq<Turn>, lastTx: nat, sent: nat,
                          polls: seq<nat>)
  {
    && base + Trues(plan) == sent + Trues(Sends(left, lastTx))
    && before + PollPoints(plan, base) == polls + PollPoints(Sends(left, lastTx), sent)
  }

  lemma {:induction false} PlanBegins(c: Clocked, ms: nat, xid: nat, mac: seq<byte>, wanted: byte, base: nat,
                                      polls: seq<nat>)
    ensures Planned(Transmissions(c, ms, xid, mac, wanted), base, polls, Left(c, 0, ms, xid, mac, wanted), NEVER,
                    base, polls)
  {
    hide Running, Executed, Sends;
    assert c.turns[0..] == c.turns;
  }

  lemma {:induction false} PlannedStep(plan: seq<bool>, base: nat, before: seq<nat>, left: seq<Turn>, lastTx: nat,
                                       sent: nat, polls: seq<nat>)
    requires left != [] && Planned(plan, base, before, left, lastTx, sent, polls)
    ensures var due := Due(lastTx, Now(left[0]));
            var now := sent + if due then 1 else 0;
            Planned(plan, base, before, left[1..], if due then Now(left[0]) else lastTx, now, polls + [now])
  {
    hide Due, Sends, Trues, PollPoints;
    var due := Due(lastTx, Now(left[0]));
    var rest := Sends(left[1..], if due then Now(left[0]) else lastTx);
    SendsCons(left, lastTx);
    TurnCons(due, rest, sent);
    var now := sent + if due then 1 else 0;
    assert polls + ([now] + PollPoints(rest, now)) == polls + [now] + PollPoints(rest, now);
  }

  lemma {:induction false} SendsCons(turns: seq<Turn>, lastTx: nat)
    requires turns != []
    ensures var due := Due(lastTx, Now(turns[0]));
            Sends(turns, lastTx) == [due] + Sends(turns[1..], if due then Now(turns[0]) else lastTx)
  {
    hide Due;
  }

  lemma {:induction false} TurnCons(due: bool, rest: seq<bool>, base: nat)
    ensures Trues([due] + rest) == (if due then 1 else 0) + Trues(rest)
    ensures var b := base + if due then 1 else 0; PollPoints([due] + rest, base) == [b] + PollPoints(rest, b)
  {
    assert ([due] + rest)[1..] == rest;
  }

  lemma {:induction false} PlannedEnd(plan: seq<bool>, base: nat, before: seq<nat>, lastTx: nat, sent: nat,
                                      polls: seq<nat>)
    requires Planned(plan, base, before, [], lastTx, sent, polls)
    ensures sent == base + Trues(plan) && polls == before + PollPoints(plan, base)
  {
    assert polls + [] == polls;
  }

  class Client {
    var phase: nat
    var event: int
    var xid: nat
    var mac: seq<byte>
    var rxLease: Lease
    var ipId: nat
    /** Frames handed to the network device, in order. */
    var sent: seq<seq<byte>>
    /** How many frames had been sent at each poll of the waits so far. */
    ghost var polls: seq<nat>

    constructor ()
      ensures fresh(this) && Valid() && sent == [] && polls == []
    {
      polls := [];
      phase, event, xid, mac, rxLease, ipId, sent := 0, 0, 0, Zeros(6), NO_LEASE, 0x4f52, [];
    }

    predicate Valid()
      reads this
    {
      xid < U32 && |mac| == 6 && ipId < U16
    }

    /** `dhcp_send_broadcast`. */
    method SendBroadcast(payload: seq<byte>)
      requires Valid()
      modifies this`ipId, this`sent
      ensures Valid()
      ensures |payload| > PAYLOAD_MAX ==> sent == old(sent) && ipId == old(ipId)
      ensures |payload| <= PAYLOAD_MAX ==>
                && ipId == (old(ipId) + 1) % U16
                && |sent| == |old(sent)| + 1 && sent[..|old(sent)|] == old(sent) && Delivers(sent[|old(sent)|], payload)
    {
      if |payload| > PAYLOAD_MAX { return; }
      hide Datagram, UdpPayload;
      var frame := new byte[1514](_ => 0);
      ghost var check := BuildFrame(frame, mac, ipId, payload);
      FrameSlices(mac, CLIENT_PORT, SERVER_PORT, ipId, check, payload);
      FrameReadsBack(mac, CLIENT_PORT, SERVER_PORT, ipId, check, payload);
      HeaderVerifies(|payload|, ipId);
      sent := sent + [frame[..42 + |payload|]];
      ipId := (ipId + 1) % U16;
    }

    /** `dhcp_rx`. */
    method Rx(frame: seq<byte>)
      requires Valid()
      modifies this`event, this`rxLease
      ensures var r := FrameReply(frame, xid, mac);
              var wanted := if phase == 1 then OFFER else ACK;
              if r.Some? && r.value.messageType == NAK then event == -1 && rxLease == old(rxLease)
              else if r.Some? && (phase == 1 || phase == 2) && r.value.messageType == wanted then
                event == wanted && rxLease == r.value
              else event == old(event) && rxLease == old(rxLease)
    {
      hide Reply;
      if |frame| < 42 { return; }
      if Get16(frame, 12) != 0x0800 { return; }
      var ip := frame[14..];
      if ip[0] / 16 != 4 || ip[9] != IP_UDP { return; }
      var ihl := ip[0] % 16 * 4;
      if ihl < 20 || ihl > |ip| { return; }
      var total := Get16(ip, 2);
      if total < ihl + 8 || total > |ip| { return; }
      var udp := ip[ihl..total];
      var udpLen := Get16(udp, 4);
      if Get16(udp, 0) != SERVER_PORT || Get16(udp, 2) != CLIENT_PORT { return; }
      if udpLen < 8 || udpLen > |udp| { return; }
      var reply := ParseReply(udp[8..udpLen], xid, mac);
      if reply.None? { return; }
      if reply.value.messageType == NAK {
        event := -1;
        return;
      }
      if phase == 1 && reply.value.messageType == OFFER {
        rxLease := reply.value;
        event := OFFER;
      } else if phase == 2 && reply.value.messageType == ACK {
        rxLease := reply.value;
        event := ACK;
      }
    }

    /** One `netdev_poll(dhcp_rx)`. */
    method Poll(frames: seq<seq<byte>>, wanted: byte)
      requires Valid() && event == 0 && ((phase == 1 && wanted == OFFER) || (phase == 2 && wanted == ACK))
      modifies this`event, this`rxLease
      ensures var v := Verdict(frames, xid, mac, wanted);
              if v.None? then event == 0
              else if v.value.messageType == wanted then event == wanted && rxLease == v.value
              else event == -1
    {
      hide FrameReply;
      for i := 0 to |frames|
        invariant var v := Verdict(frames[..i], xid, mac, wanted);
                  if v.None? then event == 0
                  else if v.value.messageType == wanted then event == wanted && rxLease == v.value
                  else event == -1
      {
        assert frames[..i + 1][..i] == frames[..i];
        Rx(frames[i]);
      }
      assert frames[..|frames|] == frames;
    }

    /** `dhcp_wait`: sends at once and again every 400 ms, and ends on a verdict or at the deadline. */
    method Wait(packet: seq<byte>, newPhase: nat, wanted: byte, ms: nat, c: Clocked) returns (ok: bool)
      requires Valid() && |packet| <= PAYLOAD_MAX
      requires (newPhase == 1 && wanted == OFFER) || (newPhase == 2 && wanted == ACK)
      modifies this`phase, this`event, this`rxLease, this`ipId, this`sent, this`polls
      ensures Valid() && phase == newPhase
      ensures var r := Awaited(c.turns, c.start, ms, xid, mac, wanted);
              ok == r.Some? && (ok ==> rxLease == r.value)
      ensures |old(sent)| <= |sent| && sent[..|old(sent)|] == old(sent) && AllDeliver(sent[|old(sent)|..], packet)
      ensures var plan := Transmissions(c, ms, xid, mac, wanted);
              && |sent| == |old(sent)| + Trues(plan)
              && polls == old(polls) + PollPoints(plan, |old(sent)|)
      ensures Running(c.turns, c.start, ms) != [] ==> |sent| > |old(sent)|
    {
      hide Verdict, Delivers, Decisive, Running, Decision, AllDeliver, Executed, Sends, Due, Trues, PollPoints,
        Planned, Left, Transmissions, Elapsed;
      phase, event := newPhase, 0;
      var lastTx: nat := NEVER;
      var i: nat := 0;
      ghost var d := Decision(Running(c.turns, c.start, ms), xid, mac, wanted);
      ghost var plan := Transmissions(c, ms, xid, mac, wanted);
      ghost var base := |sent|;
      assert c.turns[0..] == c.turns;
      PlanBegins(c, ms, xid, mac, wanted, base, polls);
      RunningSends(c, ms, xid, mac, wanted);
      NothingDelivers(packet);
      assert sent[base..] == [];
      while i < |c.turns| && !Elapsed(c.start, c.turns[i].check, ms)
        invariant 0 <= i <= |c.turns| && Valid() && phase == newPhase && event == 0 && lastTx < U32
        invariant d == Decision(Running(c.turns[i..], c.start, ms), xid, mac, wanted)
        invariant base <= |sent| && sent[..base] == old(sent) && AllDeliver(sent[base..], packet)
        invariant Planned(plan, base, old(polls), Left(c, i, ms, xid, mac, wanted), lastTx, |sent|, polls)
      {
        var turn := c.turns[i];
        RunningStep(c.turns, i, c.start, ms, xid, mac, wanted);
        LeftStep(c, i, ms, xid, mac, wanted);
        PlannedStep(plan, base, old(polls), Left(c, i, ms, xid, mac, wanted), lastTx, |sent|, polls);
        lastTx := WaitTurn(packet, wanted, turn, lastTx, base);
        if event != 0 { PlannedEnd(plan, base, old(polls), lastTx, |sent|, polls); }
        if event == wanted { return true; }
        if event < 0 { return false; }
        i := i + 1;
      }
      RunningEnds(c.turns, i, c.start, ms, xid, mac, wanted);
      LeftEnds(c, i, ms, xid, mac, wanted);
      PlannedEnd(plan, base, old(polls), lastTx, |sent|, polls);
      return false;
    }

    /** One turn: a transmission if it is due, then a poll. */
    method WaitTurn(packet: seq<byte>, wanted: byte, turn: Turn, lastTx: nat, ghost from: nat) returns (last: nat)
      requires Valid() && |packet| <= PAYLOAD_MAX && event == 0 && lastTx < U32
      requires (phase == 1 && wanted == OFFER) || (phase == 2 && wanted == ACK)
      requires from <= |sent| && AllDeliver(sent[from..], packet)
      modifies this`event, this`rxLease, this`ipId, this`sent, this`polls
      ensures Valid() && |old(sent)| <= |sent| && sent[..from] == old(sent[..from]) && AllDeliver(sent[from..], packet)
      ensures var due := Due(lastTx, Now(turn));
              && last == (if due then Now(turn) else lastTx) && last < U32
              && |sent| == |old(sent)| + (if due then 1 else 0)
      ensures polls == old(polls) + [|sent|]
      ensures var v := Verdict(turn.frames, xid, mac, wanted);
              if v.None? then event == 0
              else if v.value.messageType == wanted then event == wanted && rxLease == v.value
              else event == -1
    {
      hide Verdict, AllDeliver;
      last := lastTx;
      var now := turn.now % U32;
      if lastTx == NEVER || (now - lastTx) % U32 >= 400 {
        Send(packet, from);
        last := now;
      }
      polls := polls + [|sent|];
      Poll(turn.frames, wanted);
    }

    /** A further transmission of the message being waited on. */
    method Send(packet: seq<byte>, ghost from: nat)
      requires Valid() && |packet| <= PAYLOAD_MAX && from <= |sent| && AllDeliver(sent[from..], packet)
      modifies this`ipId, this`sent
      ensures Valid() && |sent| == |old(sent)| + 1 && sent[..|old(sent)|] == old(sent)
      ensures sent[..from] == old(sent[..from]) && AllDeliver(sent[from..], packet)
    {
      hide Delivers;
      ghost var before := sent;
      SendBroadcast(packet);
      assert sent[..from] == sent[..|before|][..from];
      assert sent[from..] == before[from..] + [sent[|before|]];
    }

    /** `dhcp_acquire`. */
    method Acquire(hw: seq<byte>, timeout: nat, ticks: bv32, first: Clocked, second: Clocked, lease: Lease)
      returns (ok: bool, result: Lease)
      requires Valid() && |hw| == 6
      modifies this
      ensures Valid() && mac == hw && xid == Xid(ticks) && phase == 0 && event == 0
      ensures var e := Exchange(hw, xid, PhaseTimeout(timeout), first, second);
              && ok == e.Some?
              && result == if ok then Overlay(e.value.0, e.value.1) else lease
      ensures |old(sent)| <= |sent| && sent[..|old(sent)|] == old(sent)
      ensures exists k: nat, ip, server ::
                Dialogue(sent, |old(sent)|, k, first, PhaseTimeout(timeout), xid, hw, ip, server)
    {
      hide Carries, AllDeliver, Awaited, Transmissions, Running, Trues, PollPoints, Overlay, IsDiscover, IsRequest,
        Discovers, AsksFor, OfferArrived;
      var ms := PhaseTimeout(timeout);
      ghost var base := |sent|;
      mac, xid := hw, Xid(ticks);
      var packet := new byte[PACKET_MIN](_ => 0);
      var n := BuildDiscover(packet, xid, mac);
      assert packet[..PACKET_MIN] == packet[..];
      var good := Wait(packet[..], 1, OFFER, ms, first);
      ghost var k := |sent|;
      AllDiscover(sent, base, packet[..], xid, hw);
      assert Dialogue(sent, base, k, first, ms, xid, hw, [], []);
      if !good {
        phase, event := 0, 0;
        return false, lease;
      }
      var offer := rxLease;
      if !NonZero(offer.ip) || !offer.haveServer {
        phase, event := 0, 0;
        return false, lease;
      }
      ghost var before := sent;
      AwaitedSized(first, ms, xid, mac, OFFER);
      OfferFrom(first, ms, xid, mac);
      n := BuildRequest(packet, xid, mac, offer.ip, offer.server);
      assert packet[..PACKET_MIN] == packet[..];
      good := Wait(packet[..], 2, ACK, ms, second);
      assert sent[..base] == sent[..k][..base];
      forall m | base <= m < k ensures Discovers(sent[m], xid, hw) { assert sent[m] == sent[..k][m] == before[m]; }
      AllAsk(sent, k, packet[..], xid, hw, offer.ip, offer.server);
      assert Dialogue(sent, base, k, first, ms, xid, hw, offer.ip, offer.server);
      if !good {
        phase, event := 0, 0;
        return false, lease;
      }
      var final := Overlay(offer, rxLease);
      phase, event := 0, 0;
      if !NonZero(final.ip) || !final.haveNetmask || !final.haveGateway || !final.haveDns {
        assert !Usable(final);
        return false, lease;
      }
      assert Usable(final);
      return true, final;
    }
  }
}
