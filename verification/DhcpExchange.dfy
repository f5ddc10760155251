/** Whole DHCP exchanges with a well-formed server: they succeed, and what the granted lease may still lack. */
module DhcpExchange {
  import opened Bytes
  import opened DhcpMessage
  import opened DhcpClient

  // The server's side

  /** The fixed part of a reply offering `ip`. */
  function ReplyHeader(xid: nat, mac: seq<byte>, ip: seq<byte>): (h: seq<byte>)
    requires xid < U32 && |mac| == 6 && |ip| == 4
    ensures |h| == 240
  {
    [2, 1, 6, 0] + Put32(xid) + Zeros(8) + ip + Zeros(8) + mac + Zeros(202) + Put32(COOKIE)
  }

  function ServerMessage(xid: nat, mac: seq<byte>, ip: seq<byte>, opts: seq<Opt>): seq<byte>
    requires xid < U32 && |mac| == 6 && |ip| == 4 && Sendable(opts)
  {
    ReplyHeader(xid, mac, ip) + (Encode(opts) + [255])
  }

  /** The frame a server broadcasts; its IPv4 checksum is not looked at. */
  function ServerFrame(xid: nat, mac: seq<byte>, ip: seq<byte>, opts: seq<Opt>): seq<byte>
    requires xid < U32 && |mac| == 6 && |ip| == 4 && Sendable(opts)
    requires |ServerMessage(xid, mac, ip, opts)| <= PAYLOAD_MAX
  {
    Datagram(mac, SERVER_PORT, CLIENT_PORT, 0, 0, ServerMessage(xid, mac, ip, opts))
  }

  lemma {:induction false} HeaderIsOurs(xid: nat, mac: seq<byte>, ip: seq<byte>, rest: seq<byte>)
    requires xid < U32 && |mac| == 6 && |ip| == 4
    ensures var p := ReplyHeader(xid, mac, ip) + rest;
            Ours(p, xid, mac) && p[16..20] == ip && p[240..] == rest
  {
    var h := ReplyHeader(xid, mac, ip);
    var p := h + rest;
    HeaderSlices(xid, mac, ip);
    hide ReplyHeader, Put32;
    assert p[..3] == h[..3] && p[16..20] == h[16..20] && p[28..34] == h[28..34];
    assert p[4] == h[4..8][0] && p[5] == h[4..8][1] && p[6] == h[4..8][2] && p[7] == h[4..8][3];
    assert p[236] == h[236..240][0] && p[237] == h[236..240][1] && p[238] == h[236..240][2] && p[239] == h[236..240][3];
  }

  lemma {:induction false} HeaderSlices(xid: nat, mac: seq<byte>, ip: seq<byte>)
    requires xid < U32 && |mac| == 6 && |ip| == 4
    ensures var h := ReplyHeader(xid, mac, ip);
            && h[..3] == [2, 1, 6] && h[4..8] == Put32(xid) && h[16..20] == ip && h[28..34] == mac
            && h[236..240] == Put32(COOKIE)
  {
    hide Put32;
  }

  /** The client understands what the server means. */
  lemma {:induction false} ServerUnderstood(xid: nat, mac: seq<byte>, ip: seq<byte>, opts: seq<Opt>)
    requires xid < U32 && |mac| == 6 && |ip| == 4 && Sendable(opts) && LeaseOf(ip, opts).messageType != 0
    requires |ServerMessage(xid, mac, ip, opts)| <= PAYLOAD_MAX
    ensures FrameReply(ServerFrame(xid, mac, ip, opts), xid, mac) == Some(LeaseOf(ip, opts))
  {
    hide Ours, LeaseOf, Encode, Datagram, ReplyHeader, UdpPayload, Reply;
    var m := ServerMessage(xid, mac, ip, opts);
    HeaderIsOurs(xid, mac, ip, Encode(opts) + [255]);
    assert Encode(opts) + [255] + [] == Encode(opts) + [255];
    ServerMessageUnderstood(m, xid, mac, opts, []);
    FrameReadsBack(mac, SERVER_PORT, CLIENT_PORT, 0, 0, m);
  }

  // The dialogue

  /** A wait in which one frame arrives at once. */
  function AtOnce(frame: seq<byte>): Clocked {
    Clocked(0, [Turn(0, 0, [frame])])
  }

  lemma {:induction false} AwaitedAtOnce(frame: seq<byte>, ms: nat, xid: nat, mac: seq<byte>, wanted: byte, l: Lease)
    requires ms > 0 && FrameReply(frame, xid, mac) == Some(l) && l.messageType == wanted
    ensures var c := AtOnce(frame); Awaited(c.turns, c.start, ms, xid, mac, wanted) == Some(l)
  {
    hide FrameReply;
    var turns := AtOnce(frame).turns;
    assert turns[1..] == [];
    assert Running(turns, 0, ms) == turns;
    assert Verdict([frame], xid, mac, wanted) == Some(l);
  }

  /** A server that offers an address with its own, acknowledges it, and states mask, gateway and name server in either
      message is always answered with a lease. */
  lemma {:induction false} ExchangeSucceeds(mac: seq<byte>, xid: nat, ms: nat, ip: seq<byte>, offer: seq<Opt>,
                                            ip2: seq<byte>, ack: seq<Opt>)
    requires xid < U32 && |mac| == 6 && ms > 0 && |ip| == 4 && |ip2| == 4 && Sendable(offer) && Sendable(ack)
    requires |ServerMessage(xid, mac, ip, offer)| <= PAYLOAD_MAX && |ServerMessage(xid, mac, ip2, ack)| <= PAYLOAD_MAX
    requires LeaseOf(ip, offer).messageType == OFFER && LeaseOf(ip2, ack).messageType == ACK
    requires NonZero(ip) && Last(offer, 54).Some?
    ensures var first, second := AtOnce(ServerFrame(xid, mac, ip, offer)), AtOnce(ServerFrame(xid, mac, ip2, ack));
            var leases := (LeaseOf(ip, offer), LeaseOf(ip2, ack));
            Exchange(mac, xid, ms, first, second)
            == if Usable(Overlay(leases.0, leases.1)) then Some(leases) else None
  {
    hide Awaited, ServerFrame, ServerMessage, Last, Address;
    ServerUnderstood(xid, mac, ip, offer);
    ServerUnderstood(xid, mac, ip2, ack);
    AwaitedAtOnce(ServerFrame(xid, mac, ip, offer), ms, xid, mac, OFFER, LeaseOf(ip, offer));
    AwaitedAtOnce(ServerFrame(xid, mac, ip2, ack), ms, xid, mac, ACK, LeaseOf(ip2, ack));
  }

  // Stated is not nonzero

  /** In a granted lease mask, gateway and name server are nonzero exactly when the last option of each kind in OFFER
      and ACK together is. */
  lemma {:induction false} GrantedNonzeroIff(mac: seq<byte>, xid: nat, ms: nat, first: Clocked, second: Clocked)
    returns (offer: seq<Opt>, ack: seq<Opt>, ip: seq<byte>, ip2: seq<byte>)
    requires Exchange(mac, xid, ms, first, second).Some?
    ensures Answered(first, ms, xid, mac, OFFER, ip, offer) && Answered(second, ms, xid, mac, ACK, ip2, ack)
    ensures var e := Exchange(mac, xid, ms, first, second).value;
            var l, all := Overlay(e.0, e.1), offer + ack;
            && Last(all, 1).Some? && Last(all, 3).Some? && Last(all, 6).Some?
            && (NonZero(l.netmask) <==> Last(all, 1).value != Zeros(4))
            && (NonZero(l.gateway) <==> Last(all, 3).value[..4] != Zeros(4))
            && (NonZero(l.dns) <==> Last(all, 6).value[..4] != Zeros(4))
  {
    hide Exchange, Overlay, Answered, Last;
    ip, offer, ip2, ack := GrantedLease(mac, xid, ms, first, second);
    var v := Last(offer + ack, 1);
    if v.Some? { assert v.value[..4] == v.value; }
  }

  const SERVER_ADDRESS: seq<byte> := [10, 0, 0, 1]
  const OFFERED: seq<byte> := [10, 0, 0, 2]

  lemma {:induction false} WitnessLeases()
    ensures LeaseOf(OFFERED, [Opt(53, [OFFER]), Opt(54, SERVER_ADDRESS)])
         == Lease(OFFER, OFFERED, Zeros(4), Zeros(4), Zeros(4), SERVER_ADDRESS, 0, false, false, false, true)
    ensures LeaseOf(OFFERED, [Opt(53, [ACK]), Opt(3, SERVER_ADDRESS), Opt(6, SERVER_ADDRESS), Opt(1, Zeros(4))])
         == Lease(ACK, OFFERED, Zeros(4), SERVER_ADDRESS, SERVER_ADDRESS, Zeros(4), 0, true, true, true, false)
  {
    hide LeaseOf;
    var ip, router := OFFERED, SERVER_ADDRESS;
    var o, n := Opt(53, [OFFER]), Opt(54, router);
    LeaseOfNothing(ip);
    LeaseOfSnoc(ip, [], o);
    LeaseOfSnoc(ip, [o], n);
    assert [] + [o] == [o] && [o] + [n] == [o, n];
    var a, b, c, d := Opt(53, [ACK]), Opt(3, router), Opt(6, router), Opt(1, Zeros(4));
    LeaseOfSnoc(ip, [], a);
    LeaseOfSnoc(ip, [a], b);
    LeaseOfSnoc(ip, [a, b], c);
    LeaseOfSnoc(ip, [a, b, c], d);
    assert [] + [a] == [a] && [a] + [b] == [a, b] && [a, b] + [c] == [a, b, c] && [a, b, c] + [d] == [a, b, c, d];
    assert router[..4] == router;
  }

  /** An exchange that succeeds and grants a lease with mask 0.0.0.0. */
  lemma {:induction false} ZeroMaskGranted(mac: seq<byte>, xid: nat, ms: nat) returns (first: Clocked, second: Clocked)
    requires xid < U32 && |mac| == 6 && ms > 0
    ensures var e := Exchange(mac, xid, ms, first, second);
            e.Some? && !NonZero(Overlay(e.value.0, e.value.1).netmask)
  {
    hide LeaseOf, Exchange, ServerFrame, Encode;
    var offer := [Opt(53, [OFFER]), Opt(54, SERVER_ADDRESS)];
    var ack := [Opt(53, [ACK]), Opt(3, SERVER_ADDRESS), Opt(6, SERVER_ADDRESS), Opt(1, Zeros(4))];
    WitnessLeases();
    WitnessSizes(offer, ack);
    assert OFFERED[3] != Zeros(4)[3];
    assert Last(offer, 54).Some?;
    first, second := AtOnce(ServerFrame(xid, mac, OFFERED, offer)), AtOnce(ServerFrame(xid, mac, OFFERED, ack));
    ExchangeSucceeds(mac, xid, ms, OFFERED, offer, OFFERED, ack);
  }

  lemma {:induction false} WitnessSizes(offer: seq<Opt>, ack: seq<Opt>)
    requires |offer| == 2 && |ack| == 4 && Sendable(offer) && Sendable(ack)
    requires |offer[0].value| + |offer[1].value| + |ack[0].value| + |ack[1].value| + |ack[2].value|
             + |ack[3].value| <= 64
    ensures |Encode(offer)| <= 68 && |Encode(ack)| <= 72
  {
    hide Encode;
    assert offer[..2] == offer && ack[..4] == ack;
    PrefixFits(offer, 2);
    PrefixFits(offer, 1);
    PrefixFits(ack, 4);
    PrefixFits(ack, 3);
    PrefixFits(ack, 2);
    PrefixFits(ack, 1);
    EncodeNothing();
  }
}
