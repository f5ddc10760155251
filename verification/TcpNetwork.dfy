/** The TCP client in an arbitrary network: an honest peer whose packets may be lost, repeated and reordered at
    will, and the invariants that every run of client, peer and network keeps. */
module TcpNetwork {
  import opened Bytes
  import opened TcpSegment
  import opened TcpClient
  import Checksum

  /** `irs`, `stream`: the peer's initial sequence number and all it will ever send; `iss`: the client's own initial
      sequence number; `got`: what the peer holds of the client's data; `written`: what the client has handed to
      `send_tcp`; `taken`: what `net_tcp_read` has returned; `inbox`: every packet the peer ever emitted. Packets are
      never removed from `inbox` or from `c.sent`, so any of them may be delivered any number of times, or never. */
  datatype Net = Net(c: Tcp, irs: nat, stream: seq<byte>, iss: nat, got: seq<byte>, written: seq<byte>,
                     taken: seq<byte>, inbox: set<seq<byte>>)

  /** Peer and network moves, packets of other hosts or for other ports, and the two client calls. */
  datatype Event =
    | Emit(packet: seq<byte>)
    | ToClient(packet: seq<byte>)
    | Noise(src: seq<byte>, packet: seq<byte>)
    | ToPeer(index: nat, keep: nat)
    | Push(data: seq<byte>)
    | Take(count: nat)

  /** The segment carries stretch `off` of the peer's stream, and FIN only at its end. */
  ghost predicate InStream(n: Net, g: Segment, off: nat) {
    && off + |g.data| <= |n.stream|
    && g.seqNo == (n.irs + 1 + off) % U32
    && g.data == n.stream[off..off + |g.data|]
    && (HasBit(g.flags, FIN) ==> off + |g.data| == |n.stream|)
  }

  /** What an honest peer may put on the wire: true stream bytes, and acknowledgements of received bytes only. */
  ghost predicate Honest(n: Net, p: seq<byte>) {
    match Parse(p)
    case None => true
    case Some(g) =>
      && (g.data != [] || HasBit(g.flags, FIN) ==> exists off: nat :: InStream(n, g, off))
      && (HasBit(g.flags, ACK) ==> g.ackNo <= n.iss + 1 + |n.got|)
  }

  /** An honest receiver takes a segment only if it is for this connection, verifies and continues what it holds, and
      may keep less than all of it. */
  function Received(n: Net, p: seq<byte>, keep: nat): seq<byte>
    requires n.c.Valid()
  {
    match Parse(p)
    case None => n.got
    case Some(g) =>
      var off := g.seqNo - (n.iss + 1);
      if g.srcPort == n.c.localPort && g.dstPort == n.c.peerPort
         && Checksum.Sum16(Checksum.Pseudo(n.c.localIp, n.c.peerIp, |p|) + p) == 0
         && 0 <= off <= |n.got| && |n.got| + keep <= off + |g.data|
      then n.got + g.data[|n.got| - off..|n.got| - off + keep]
      else n.got
  }

  predicate OtherPorts(c: Tcp, p: seq<byte>) {
    Parse(p).Some? ==> Parse(p).value.srcPort != c.peerPort || Parse(p).value.dstPort != c.localPort
  }

  ghost predicate Enabled(n: Net, e: Event) {
    match e
    case Emit(p) => Honest(n, p)
    case ToClient(p) => p in n.inbox
    case Noise(src, p) => src != n.c.peerIp || OtherPorts(n.c, p)
    case ToPeer(i, _) => i < |n.c.sent|
    case Push(d) => 0 < |d| <= MAX_CHUNK && n.iss + 1 + |n.written| + |d| < U32
    case Take(k) => k <= |n.c.out|
  }

  ghost function Next(n: Net, e: Event): (m: Net)
    requires n.c.Valid() && Enabled(n, e)
    ensures m.c.Valid()
  {
    match e
    case Emit(p) => n.(inbox := n.inbox + {p})
    case ToClient(p) => n.(c := Handle(n.c, n.c.peerIp, p))
    case Noise(src, p) => n.(c := Handle(n.c, src, p))
    case ToPeer(i, keep) => n.(got := Received(n, n.c.sent[i], keep))
    case Push(d) => n.(c := Send(n.c, PSH_ACK, d), written := n.written + d)
    case Take(k) => n.(c := n.c.(out := n.c.out[k..]), taken := n.taken + n.c.out[..k])
  }

  /** How many of the peer's sequence numbers after its SYN RCV.NXT has passed. */
  function Count(irs: nat, c: Tcp): (k: nat)
    ensures k < U32
  {
    (c.rcvNxt - irs - 1) % U32
  }

  /** How many of those are stream bytes rather than the FIN. */
  function Counted(irs: nat, stream: seq<byte>, c: Tcp): (k: nat)
    ensures k <= |stream|
  {
    Min(Count(irs, c), |stream|)
  }

  ghost predicate RcvInv(irs: nat, stream: seq<byte>, taken: seq<byte>, c: Tcp) {
    && |stream| + 1 < U32
    && Count(irs, c) <= |stream| + 1
    && |taken| + |c.out| <= Counted(irs, stream, c)
  }

  /** What has been returned, followed by what is buffered, is exactly the counted prefix of the peer's stream. */
  ghost predicate Lossless(irs: nat, stream: seq<byte>, taken: seq<byte>, c: Tcp) {
    taken + c.out == stream[..Counted(irs, stream, c)]
  }

  /** Bytes were counted that are neither returned nor buffered. */
  ghost predicate Short(irs: nat, stream: seq<byte>, taken: seq<byte>, c: Tcp) {
    |taken| + |c.out| < Counted(irs, stream, c)
  }

  /** Data on the wire between these ports is what the application wrote at that place. */
  ghost predicate OurPacket(localPort: nat, peerPort: nat, iss: nat, written: seq<byte>, p: seq<byte>) {
    match Parse(p)
    case None => true
    case Some(g) =>
      g.srcPort == localPort && g.dstPort == peerPort && g.data != [] ==>
        var off := g.seqNo - (iss + 1);
        0 <= off && off + |g.data| <= |written| && g.data == written[off..off + |g.data|]
  }

  ghost predicate SndInv(n: Net) {
    && n.c.sndNxt == n.iss + 1 + |n.written| < U32
    && n.got <= n.written
    && n.iss + 1 <= n.c.sndUna <= n.iss + 1 + |n.got|
    && (forall i :: 0 <= i < |n.c.sent| ==> OurPacket(n.c.localPort, n.c.peerPort, n.iss, n.written, n.c.sent[i]))
  }

  ghost predicate Inv(n: Net) {
    && n.c.Valid() && n.c.event != 1
    && RcvInv(n.irs, n.stream, n.taken, n.c)
    && SndInv(n)
    && (forall p :: p in n.inbox ==> Honest(n, p))
  }

  /** The accepted payload of this delivery does not fit the buffer. */
  predicate Overflows(c: Tcp, g: Segment) {
    InOrderData(c, g) && |g.data| > c.cap - |c.out|
  }

  ghost predicate Overflowing(n: Net, e: Event) {
    e.ToClient? && Parse(e.packet).Some? &&
    var g := Parse(e.packet).value;
    && g.srcPort == n.c.peerPort && g.dstPort == n.c.localPort
    && !HasBit(g.flags, RST)
    && Overflows(n.c, g)
  }

  // Handling one segment

  lemma {:induction false} SameOffset(irs: nat, a: nat, b: nat, x: nat)
    requires a < U32 && b < U32
    requires x == (irs + 1 + a) % U32 && b == (x - irs - 1) % U32
    ensures a == b
  {
  }

  lemma {:induction false} CountAdvances(irs: nat, c: Tcp, more: nat)
    requires Count(irs, c) + more < U32
    ensures ((c.rcvNxt + more) % U32 - irs - 1) % U32 == Count(irs, c) + more
  {
  }

  /** The data stage counts in-order bytes and keeps the buffer exact, unless the payload does not fit. */
  lemma {:induction false} DataStageKeeps(irs: nat, stream: seq<byte>, taken: seq<byte>, c: Tcp, g: Segment, off: nat)
    requires c.Valid() && g.Valid() && RcvInv(irs, stream, taken, c)
    requires g.data != [] ==> off + |g.data| <= |stream| && g.seqNo == (irs + 1 + off) % U32
                              && g.data == stream[off..off + |g.data|]
    ensures RcvInv(irs, stream, taken, DataStage(c, g))
    ensures Lossless(irs, stream, taken, c) ==>
              if Overflows(c, g) then Short(irs, stream, taken, DataStage(c, g))
              else Lossless(irs, stream, taken, DataStage(c, g))
    ensures Short(irs, stream, taken, c) ==> Short(irs, stream, taken, DataStage(c, g))
    ensures Count(irs, DataStage(c, g)) == Count(irs, c) + if InOrderData(c, g) then |g.data| else 0
    ensures InOrderData(c, g) ==> off == Count(irs, c)
  {
    if InOrderData(c, g) {
      SameOffset(irs, off, Count(irs, c), c.rcvNxt);
      CountAdvances(irs, c, |g.data|);
      var d := DataStage(c, g);
      var copy := Min(|g.data|, c.cap - |c.out|);
      assert d.out == c.out + g.data[..copy];
      assert d.rcvNxt == (c.rcvNxt + |g.data|) % U32;
      if Lossless(irs, stream, taken, c) && !Overflows(c, g) {
        assert taken + d.out == (taken + c.out) + g.data;
        assert stream[..off] + stream[off..off + |g.data|] == stream[..off + |g.data|];
      }
    }
  }

  /** The FIN stage counts the FIN once, exactly when everything before it is counted and, the comparison being
      done in 64 bits, the segment does not end at or beyond 2^32. */
  lemma {:induction false} FinStageKeeps(irs: nat, stream: seq<byte>, taken: seq<byte>, c: Tcp, g: Segment, off: nat)
    requires c.Valid() && g.Valid() && RcvInv(irs, stream, taken, c)
    requires HasBit(g.flags, FIN) ==> off + |g.data| == |stream| && g.seqNo == (irs + 1 + off) % U32
    ensures RcvInv(irs, stream, taken, FinStage(c, g))
    ensures FinStage(c, g).out == c.out
    ensures Counted(irs, stream, FinStage(c, g)) == Counted(irs, stream, c)
    ensures Count(irs, FinStage(c, g))
         == if HasBit(g.flags, FIN) && Count(irs, c) == |stream| && g.seqNo + |g.data| < U32 then |stream| + 1
            else Count(irs, c)
  {
    if HasBit(g.flags, FIN) {
      FinOffset(irs, off, |g.data|, |stream|, Count(irs, c), g.seqNo, c.rcvNxt);
      if g.seqNo + |g.data| == c.rcvNxt { CountAdvances(irs, c, 1); }
    }
  }

  lemma {:induction false} FinOffset(irs: nat, off: nat, len: nat, total: nat, count: nat, seqNo: nat, rcvNxt: nat)
    requires off + len == total && total + 1 < U32 && count <= total + 1 && rcvNxt < U32
    requires seqNo == (irs + 1 + off) % U32 && count == (rcvNxt - irs - 1) % U32
    ensures seqNo + len == rcvNxt <==> count == total && seqNo + len < U32
  {
    var a := (irs + 1) / U32;
    assert (irs + 1 + off) % U32 == irs + 1 + off - U32 * ((irs + 1 + off) / U32);
    assert (rcvNxt - irs - 1) % U32 == rcvNxt - irs - 1 - U32 * ((rcvNxt - irs - 1) / U32);
  }

  // The sending side of handling one segment

  predicate Dataless(p: seq<byte>) {
    Parse(p).Some? ==> Parse(p).value.data == []
  }

  /** Between two states the client has at most emitted packets without data. */
  ghost predicate OnlyAcks(c: Tcp, d: Tcp) {
    && d.sndNxt == c.sndNxt && d.sndUna == c.sndUna && d.cap == c.cap
    && d.localIp == c.localIp && d.peerIp == c.peerIp && d.localPort == c.localPort && d.peerPort == c.peerPort
    && |c.sent| <= |d.sent| && d.sent[..|c.sent|] == c.sent
    && (forall i :: |c.sent| <= i < |d.sent| ==> Dataless(d.sent[i]))
  }

  lemma {:induction false} PureAck(c: Tcp)
    requires c.Valid()
    ensures OnlyAcks(c, Send(c, 0x10, []))
    ensures Send(c, 0x10, []).(sent := c.sent) == c
  {
    hide Packet, Parse;
    PacketParses(c.localIp, c.peerIp, c.Outgoing(0x10, []));
    assert Dataless(Packet(c.localIp, c.peerIp, c.Outgoing(0x10, [])));
  }

  lemma {:induction false} OnlyAcksTrans(c: Tcp, d: Tcp, e: Tcp)
    requires OnlyAcks(c, d) && OnlyAcks(d, e)
    ensures OnlyAcks(c, e)
  {
    hide Dataless;
    assert e.sent[..|c.sent|] == e.sent[..|d.sent|][..|c.sent|];
    forall i | |c.sent| <= i < |e.sent| ensures Dataless(e.sent[i]) {
      if i < |d.sent| { assert e.sent[i] == e.sent[..|d.sent|][i] == d.sent[i]; }
    }
  }

  lemma {:induction false} StagesOnlyAck(c: Tcp, g: Segment)
    requires c.Valid() && g.Valid()
    ensures OnlyAcks(c, DataStage(c, g)) && OnlyAcks(c, FinStage(c, g))
    ensures InOrderData(c, g) ==> DataStage(c, g).event == 3
    ensures !InOrderData(c, g) ==> DataStage(c, g) == c
    ensures FinStage(c, g).event == if HasBit(g.flags, FIN) then 4 else c.event
  {
    hide Send, HasBit;
    var copy := Min(|g.data|, c.cap - |c.out|);
    var c1 := c.(out := c.out + g.data[..copy], rcvNxt := (c.rcvNxt + |g.data|) % U32);
    var next := if g.seqNo + |g.data| == c.rcvNxt then (c.rcvNxt + 1) % U32 else c.rcvNxt;
    PureAck(c1);
    PureAck(c.(rcvNxt := next));
  }

  lemma {:induction false} SndInvAfterAcks(n: Net, d: Tcp)
    requires SndInv(n) && OnlyAcks(n.c, d)
    ensures SndInv(n.(c := d))
  {
    hide Parse;
    forall i | 0 <= i < |d.sent| ensures OurPacket(n.c.localPort, n.c.peerPort, n.iss, n.written, d.sent[i]) {
      if i < |n.c.sent| {
        assert d.sent[i] == d.sent[..|n.c.sent|][i];
        assert OurPacket(n.c.localPort, n.c.peerPort, n.iss, n.written, n.c.sent[i]);
      } else {
        assert Dataless(d.sent[i]);
      }
    }
  }

  // Every event keeps the invariant

  lemma {:induction false} AckKeeps(n: Net, g: Segment)
    requires Inv(n) && g.Valid()
    requires HasBit(g.flags, ACK) ==> g.ackNo <= n.iss + 1 + |n.got|
    ensures SndInv(n.(c := AckStage(n.c, g)))
    ensures AckStage(n.c, g).(sndUna := n.c.sndUna) == n.c
  {
    hide OurPacket;
  }

  /** Delivering one honest segment: the receive invariant stays, and the buffer stays exact unless the payload
      overflows it. */
  lemma {:induction false} AcceptKeeps(n: Net, g: Segment, off: nat)
    requires Inv(n) && g.Valid()
    requires g.data != [] || HasBit(g.flags, FIN) ==> InStream(n, g, off)
    requires HasBit(g.flags, ACK) ==> g.ackNo <= n.iss + 1 + |n.got|
    ensures var d := Accept(n.c, g);
            && d.Valid() && d.event != 1
            && RcvInv(n.irs, n.stream, n.taken, d) && SndInv(n.(c := d))
            && (Lossless(n.irs, n.stream, n.taken, n.c) ==>
                  if !HasBit(g.flags, RST) && Overflows(n.c, g) then Short(n.irs, n.stream, n.taken, d)
                  else Lossless(n.irs, n.stream, n.taken, d))
            && (Short(n.irs, n.stream, n.taken, n.c) ==> Short(n.irs, n.stream, n.taken, d))
  {
    hide DataStage, FinStage, AckStage, OurPacket, HasBit, Send;
    AckKeeps(n, g);
    var a := AckStage(n.c, g);
    if !HasBit(g.flags, RST) {
      var b := DataStage(a, g);
      var d := FinStage(b, g);
      DataStageKeeps(n.irs, n.stream, n.taken, a, g, off);
      FinStageKeeps(n.irs, n.stream, n.taken, b, g, off);
      StagesOnlyAck(a, g);
      StagesOnlyAck(b, g);
      OnlyAcksTrans(a, b, d);
      SndInvAfterAcks(n.(c := a), d);
    }
  }

  lemma {:induction false} HonestIsStable(n: Net, m: Net, p: seq<byte>)
    requires Honest(n, p)
    requires m.irs == n.irs && m.stream == n.stream && m.iss == n.iss && |m.got| >= |n.got|
    ensures Honest(m, p)
  {
    hide Parse, HasBit;
    match Parse(p)
    case None =>
    case Some(g) =>
      if g.data != [] || HasBit(g.flags, FIN) {
        var off: nat :| InStream(n, g, off);
        assert InStream(m, g, off);
      }
  }

  lemma {:induction false} InboxStable(n: Net, m: Net)
    requires forall p :: p in n.inbox ==> Honest(n, p)
    requires m.irs == n.irs && m.stream == n.stream && m.iss == n.iss && |m.got| >= |n.got|
    ensures forall p :: p in n.inbox ==> Honest(m, p)
  {
    hide Honest;
    forall p | p in n.inbox ensures Honest(m, p) { HonestIsStable(n, m, p); }
  }

  ghost predicate Keeps(n: Net, e: Event)
    requires n.c.Valid() && Enabled(n, e)
  {
    var m := Next(n, e);
    && Inv(m)
    && (Lossless(n.irs, n.stream, n.taken, n.c) ==>
          if Overflowing(n, e) then Short(m.irs, m.stream, m.taken, m.c) else Lossless(m.irs, m.stream, m.taken, m.c))
    && (Short(n.irs, n.stream, n.taken, n.c) ==> Short(m.irs, m.stream, m.taken, m.c))
  }

  lemma {:induction false} DeliveryKeeps(n: Net, p: seq<byte>)
    requires Inv(n) && p in n.inbox
    ensures Keeps(n, ToClient(p))
  {
    hide Parse, Accept, HasBit, SndInv, RcvInv, Lossless, Short, Overflows;
    assert Honest(n, p);
    var m := Next(n, ToClient(p));
    InboxStable(n, m) by { assert m == n.(c := m.c); }
    match Parse(p)
    case None =>
    case Some(g) =>
      if g.srcPort == n.c.peerPort && g.dstPort == n.c.localPort {
        var off: nat := 0;
        if g.data != [] || HasBit(g.flags, FIN) {
          off :| InStream(n, g, off);
        }
        AcceptKeeps(n, g, off);
      }
  }

  /** Whatever the peer takes from one of the client's packets continues the written data. */
  lemma {:induction false} ReceivedIsPrefix(n: Net, p: seq<byte>, keep: nat)
    requires n.c.Valid() && n.got <= n.written && OurPacket(n.c.localPort, n.c.peerPort, n.iss, n.written, p)
    ensures n.got <= Received(n, p, keep) <= n.written
  {
    hide Parse, Received;
    if Received(n, p, keep) != n.got {
      var g := TakenFrom(n, p, keep);
      TakenContinues(n.got, n.written, g.data, g.seqNo - (n.iss + 1), keep);
    }
  }

  /** What is taken is a nonempty stretch of the packet's data that begins where the peer's copy ends. */
  lemma {:induction false} TakenFrom(n: Net, p: seq<byte>, keep: nat) returns (g: Segment)
    requires n.c.Valid() && Received(n, p, keep) != n.got
    ensures Parse(p) == Some(g) && g.data != []
    ensures var off := g.seqNo - (n.iss + 1);
            && g.srcPort == n.c.localPort && g.dstPort == n.c.peerPort
            && 0 <= off <= |n.got| && |n.got| + keep <= off + |g.data|
            && Received(n, p, keep) == n.got + g.data[|n.got| - off..|n.got| - off + keep]
  {
    hide Parse, Checksum.Sum16, Checksum.Pseudo, Tcp.Valid;
    g := Parse(p).value;
    var off := g.seqNo - (n.iss + 1);
    var d := g.data[|n.got| - off..|n.got| - off + keep];
    assert d == [] ==> n.got + d == n.got;
  }

  lemma {:induction false} TakenContinues(got: seq<byte>, written: seq<byte>, data: seq<byte>, off: nat, keep: nat)
    requires got <= written && off + |data| <= |written| && data == written[off..off + |data|]
    requires off <= |got| && |got| + keep <= off + |data|
    ensures got <= got + data[|got| - off..|got| - off + keep] <= written
  {
    SliceOfSlice(written, off, off + |data|, |got| - off, |got| - off + keep);
    assert got == written[..|got|];
    assert written[..|got|] + written[|got|..|got| + keep] == written[..|got| + keep];
  }

  lemma {:induction false} PeerReceiptKeeps(n: Net, i: nat, keep: nat)
    requires Inv(n) && i < |n.c.sent|
    ensures Keeps(n, ToPeer(i, keep))
  {
    hide Parse, HasBit, RcvInv, Lossless, Short, Honest, Received, OurPacket;
    var m := Next(n, ToPeer(i, keep));
    ReceivedIsPrefix(n, n.c.sent[i], keep);
    InboxStable(n, m);
  }

  lemma {:induction false} OurPacketGrows(localPort: nat, peerPort: nat, iss: nat, written: seq<byte>,
                                          more: seq<byte>, p: seq<byte>)
    requires OurPacket(localPort, peerPort, iss, written, p) && written <= more
    ensures OurPacket(localPort, peerPort, iss, more, p)
  {
    hide Parse;
    match Parse(p)
    case None =>
    case Some(g) =>
      if g.srcPort == localPort && g.dstPort == peerPort && g.data != [] {
        var off := g.seqNo - (iss + 1);
        assert written[off..off + |g.data|] == more[off..off + |g.data|];
      }
  }

  lemma {:induction false} PushKeeps(n: Net, d: seq<byte>)
    requires Inv(n) && Enabled(n, Push(d))
    ensures Keeps(n, Push(d))
  {
    hide Parse, Honest, Send, OurPacket, HasBit;
    var m := Next(n, Push(d));
    PushPacket(n.c, d, n.iss, n.written);
    InboxStable(n, m);
    assert SndInv(m) by {
      forall i | 0 <= i < |m.c.sent| ensures OurPacket(m.c.localPort, m.c.peerPort, m.iss, m.written, m.c.sent[i]) {
        if i < |n.c.sent| { OurPacketGrows(n.c.localPort, n.c.peerPort, n.iss, n.written, m.written, n.c.sent[i]); }
      }
    }
  }

  lemma {:induction false} PushPacket(c: Tcp, d: seq<byte>, iss: nat, written: seq<byte>)
    requires c.Valid() && c.sndNxt == iss + 1 + |written| && iss + 1 + |written| + |d| < U32
    ensures var m := Send(c, PSH_ACK, d);
            && |m.sent| == |c.sent| + 1 && (forall i :: 0 <= i < |c.sent| ==> m.sent[i] == c.sent[i])
            && OurPacket(c.localPort, c.peerPort, iss, written + d, m.sent[|c.sent|])
            && m == c.(sent := m.sent, sndNxt := c.sndNxt + |d|)
  {
    hide Parse, Packet;
    var g := c.Outgoing(PSH_ACK, d);
    PacketParses(c.localIp, c.peerIp, g);
    assert (written + d)[|written|..] == d;
  }

  lemma {:induction false} TakeKeeps(n: Net, k: nat)
    requires Inv(n) && k <= |n.c.out|
    ensures Keeps(n, Take(k))
  {
    hide Parse, Honest;
    var m := Next(n, Take(k));
    assert m.taken + m.c.out == n.taken + n.c.out;
    InboxStable(n, m);
  }

  lemma {:induction false} EventKeeps(n: Net, e: Event)
    requires Inv(n) && Enabled(n, e)
    ensures Keeps(n, e)
  {
    match e
    case Emit(p) =>
      assert Keeps(n, e) by {
        hide Honest, RcvInv, OurPacket;
        InboxStable(n, Next(n, e));
        HonestIsStable(n, Next(n, e), p);
      }
    case ToClient(p) => DeliveryKeeps(n, p);
    case Noise(src, p) =>
      assert Next(n, e) == n by { hide Accept, Parse; }
    case ToPeer(i, keep) => PeerReceiptKeeps(n, i, keep);
    case Push(d) => PushKeeps(n, d);
    case Take(k) => TakeKeeps(n, k);
  }

  // Runs

  ghost predicate Run(n: Net, es: seq<Event>)
    requires n.c.Valid()
    decreases |es|
  {
    es == [] || (Enabled(n, es[0]) && Run(Next(n, es[0]), es[1..]))
  }

  ghost function After(n: Net, es: seq<Event>): (m: Net)
    requires n.c.Valid() && Run(n, es)
    ensures m.c.Valid()
    decreases |es|
  {
    if es == [] then n else After(Next(n, es[0]), es[1..])
  }

  /** Some accepted payload of the run did not fit the receive buffer. */
  ghost predicate SomeOverflow(n: Net, es: seq<Event>)
    requires n.c.Valid() && Run(n, es)
    decreases |es|
  {
    es != [] && (Overflowing(n, es[0]) || SomeOverflow(Next(n, es[0]), es[1..]))
  }

  /** Safety over every run: the invariant stays, and what was read followed by what is buffered is the counted
      prefix of the peer's stream if and only if every accepted payload fitted the buffer. */
  lemma {:induction false} RunKeeps(n: Net, es: seq<Event>)
    requires Inv(n) && Run(n, es)
    ensures Inv(After(n, es))
    ensures Lossless(n.irs, n.stream, n.taken, n.c) ==>
              (Lossless(n.irs, n.stream, After(n, es).taken, After(n, es).c) <==> !SomeOverflow(n, es))
    ensures Short(n.irs, n.stream, n.taken, n.c) ==> Short(n.irs, n.stream, After(n, es).taken, After(n, es).c)
    ensures After(n, es).irs == n.irs && After(n, es).stream == n.stream && After(n, es).iss == n.iss
    decreases |es|
  {
    if es != [] {
      var m := Next(n, es[0]);
      EventKeeps(n, es[0]);
      RunKeeps(m, es[1..]);
      assert m.irs == n.irs && m.stream == n.stream && m.iss == n.iss by { hide Handle, Send, Received; }
      hide Inv, Next, Enabled, Overflowing;
      var z := After(n, es);
      assert Short(n.irs, n.stream, z.taken, z.c) ==> !Lossless(n.irs, n.stream, z.taken, z.c);
    }
  }

  /** No packet so far carries data between these two ports. */
  predicate NewPorts(sent: seq<seq<byte>>, localPort: nat, peerPort: nat) {
    forall i :: 0 <= i < |sent| ==> Quiet(sent[i], localPort, peerPort)
  }

  predicate Quiet(p: seq<byte>, localPort: nat, peerPort: nat) {
    match Parse(p)
    case None => true
    case Some(g) => g.srcPort == localPort && g.dstPort == peerPort ==> g.data == []
  }

  /** The handshake puts client and peer into the invariant, with nothing counted and nothing lost. Packets of earlier
      connections may still be delivered, if those used other ports: `net_tcp_connect` takes a new local port. */
  lemma {:induction false} Handshake(s: Tcp, peerIp: seq<byte>, localPort: nat, peerPort: nat, iss: nat, cap: nat,
                                     g: Segment, stream: seq<byte>)
    requires s.Valid() && |peerIp| == 4 && localPort < U16 && peerPort < U16 && iss + 1 < U32
    requires NewPorts(s.sent, localPort, peerPort)
    requires g.Valid() && HasBit(g.flags, SYN) && HasBit(g.flags, ACK) && g.ackNo == iss + 1
    requires |stream| + 1 < U32
    ensures var c := Accept(Connect(s, peerIp, localPort, peerPort, iss, cap), g);
            && c.event == 2
            && Inv(Net(c, g.seqNo, stream, iss, [], [], [], {}))
            && Count(g.seqNo, c) == 0 && Lossless(g.seqNo, stream, [], c)
  {
    hide Connect, Accept, Send, Inv, SndInv, RcvInv, Lossless, Parse, HasBit;
    var t := Connect(s, peerIp, localPort, peerPort, iss, cap);
    ConnectState(s, peerIp, localPort, peerPort, iss, cap);
    SynAckAccepted(t, g);
    SynAckInv(t.(sndUna := g.ackNo, rcvNxt := (g.seqNo + 1) % U32, event := 2), Accept(t, g), g.seqNo, iss, stream);
  }

  lemma {:induction false} ConnectState(s: Tcp, peerIp: seq<byte>, localPort: nat, peerPort: nat, iss: nat, cap: nat)
    requires s.Valid() && |peerIp| == 4 && localPort < U16 && peerPort < U16 && iss + 1 < U32
    requires NewPorts(s.sent, localPort, peerPort)
    ensures var t := Connect(s, peerIp, localPort, peerPort, iss, cap);
            && t.event == 1 && t.sndNxt == iss + 1 && t.sndUna == iss && t.out == []
            && t.localPort == localPort && t.peerPort == peerPort && NewPorts(t.sent, localPort, peerPort)
  {
    hide Send, Parse;
    var t := s.(peerIp := peerIp, localPort := localPort, peerPort := peerPort, event := 1, sndNxt := iss,
                sndUna := iss, rcvNxt := 0, out := [], cap := cap);
    SynSent(t);
    var u := Send(t, 0x02, []);
    forall i | 0 <= i < |u.sent| ensures Quiet(u.sent[i], localPort, peerPort) {
      if i == |t.sent| { assert Dataless(u.sent[i]); } else { assert Quiet(t.sent[i], localPort, peerPort); }
    }
  }

  lemma {:induction false} SynSent(t: Tcp)
    requires t.Valid() && t.sndNxt + 1 < U32
    ensures var u := Send(t, 0x02, []);
            && u == t.(sent := u.sent, sndNxt := t.sndNxt + 1)
            && |u.sent| == |t.sent| + 1 && Dataless(u.sent[|t.sent|])
            && (forall i :: 0 <= i < |t.sent| ==> u.sent[i] == t.sent[i])
  {
    hide Packet, Parse;
    var g := t.Outgoing(0x02, []);
    PacketParses(t.localIp, t.peerIp, g);
    var p := Packet(t.localIp, t.peerIp, g);
    assert Dataless(p);
    assert HasBit(0x02, SYN) && !HasBit(0x02, FIN);
    hide Dataless, HasBit;
    assert Send(t, 0x02, []).sent == t.sent + [p];
  }

  lemma {:induction false} SynAckAccepted(t: Tcp, g: Segment)
    requires t.Valid() && g.Valid() && t.event == 1 && t.sndUna <= g.ackNo == t.sndNxt
    requires HasBit(g.flags, SYN) && HasBit(g.flags, ACK)
    ensures Accept(t, g) == Send(t.(sndUna := g.ackNo, rcvNxt := (g.seqNo + 1) % U32, event := 2), 0x10, [])
  {
    hide Send, HasBit;
  }

  lemma {:induction false} SynAckInv(b: Tcp, c: Tcp, irs: nat, iss: nat, stream: seq<byte>)
    requires b.Valid() && c == Send(b, 0x10, []) && b.event == 2 && b.out == [] && irs < U32
    requires b.sndUna == b.sndNxt == iss + 1 && b.rcvNxt == (irs + 1) % U32
    requires NewPorts(b.sent, b.localPort, b.peerPort)
    requires |stream| + 1 < U32
    ensures c.event == 2 && Inv(Net(c, irs, stream, iss, [], [], [], {}))
    ensures Count(irs, c) == 0 && Lossless(irs, stream, [], c)
  {
    PureAck(b);
    hide Send, Parse;
    var n := Net(b, irs, stream, iss, [], [], [], {});
    forall i | 0 <= i < |b.sent| ensures OurPacket(b.localPort, b.peerPort, iss, [], b.sent[i]) {
      assert Quiet(b.sent[i], b.localPort, b.peerPort);
    }
    assert SndInv(n);
    SndInvAfterAcks(n, c);
    SameOffset(irs, 0, (c.rcvNxt - irs - 1) % U32, c.rcvNxt);
  }

  /** A delivered FIN: it is counted once everything before it is, never twice, and then the stream is complete. A
      FIN that is out of order, or whose segment reaches 2^32, raises event 4 without being counted. */
  lemma {:induction false} FinDelivered(n: Net, p: seq<byte>)
    requires Inv(n) && p in n.inbox && Parse(p).Some?
    requires var g := Parse(p).value;
             g.srcPort == n.c.peerPort && g.dstPort == n.c.localPort && HasBit(g.flags, FIN) && !HasBit(g.flags, RST)
    ensures var g, d := Parse(p).value, Next(n, ToClient(p)).c;
            var counted := Count(n.irs, n.c) + if InOrderData(n.c, g) then |g.data| else 0;
            && d.event == 4
            && Count(n.irs, d)
               == (if counted == |n.stream| && g.seqNo + |g.data| < U32 then |n.stream| + 1 else counted)
            && (Count(n.irs, d) == |n.stream| + 1 && Lossless(n.irs, n.stream, n.taken, n.c) && !Overflows(n.c, g) ==>
                  n.taken + d.out == n.stream)
  {
    var g := Parse(p).value;
    var d := Next(n, ToClient(p)).c;
    assert d == Accept(n.c, g) by { hide Accept, Parse, HasBit; }
    var off: nat :| InStream(n, g, off) by { hide Parse, HasBit; assert Honest(n, p); }
    FinAccepted(n, g, off) by { hide Parse, HasBit; assert Honest(n, p); }
  }

  lemma {:induction false} FinAccepted(n: Net, g: Segment, off: nat)
    requires Inv(n) && g.Valid() && HasBit(g.flags, FIN) && !HasBit(g.flags, RST) && InStream(n, g, off)
    requires HasBit(g.flags, ACK) ==> g.ackNo <= n.iss + 1 + |n.got|
    ensures var d := Accept(n.c, g);
            var counted := Count(n.irs, n.c) + if InOrderData(n.c, g) then |g.data| else 0;
            && d.event == 4
            && Count(n.irs, d)
               == (if counted == |n.stream| && g.seqNo + |g.data| < U32 then |n.stream| + 1 else counted)
            && (Count(n.irs, d) == |n.stream| + 1 && Lossless(n.irs, n.stream, n.taken, n.c) && !Overflows(n.c, g) ==>
                  n.taken + d.out == n.stream)
  {
    hide DataStage, FinStage, AckStage, HasBit, Send, SndInv;
    AckKeeps(n, g);
    AcceptKeeps(n, g, off);
    var a := AckStage(n.c, g);
    var b := DataStage(a, g);
    DataStageKeeps(n.irs, n.stream, n.taken, a, g, off);
    FinStageKeeps(n.irs, n.stream, n.taken, b, g, off);
    StagesOnlyAck(a, g);
    StagesOnlyAck(b, g);
    assert n.stream[..|n.stream|] == n.stream;
  }

  // Calls of the client inside a run

  /** What the client did during a run without reads. */
  ghost function ClientActions(n: Net, es: seq<Event>): seq<Action>
    requires n.c.Valid() && Run(n, es)
    decreases |es|
  {
    if es == [] then [] else StepActions(n, es[0]) + ClientActions(Next(n, es[0]), es[1..])
  }

  function StepActions(n: Net, e: Event): seq<Action> {
    match e
    case ToClient(p) => [Deliver(n.c.peerIp, p)]
    case Noise(src, p) => [Deliver(src, p)]
    case Push(d) => [Chunk(d)]
    case _ => []
  }

  lemma {:induction false} StepReplays(n: Net, e: Event, rest: seq<Action>)
    requires n.c.Valid() && Enabled(n, e) && !e.Take?
    ensures Replay(Next(n, e).c, rest) == Replay(n.c, StepActions(n, e) + rest)
    ensures Next(n, e).written + Chunks(rest) == n.written + Chunks(StepActions(n, e) + rest)
    ensures Next(n, e).taken == n.taken
  {
    hide Handle, Send, Received, Honest, Replay, Chunks;
    var acts := StepActions(n, e) + rest;
    if StepActions(n, e) == [] {
      assert acts == rest;
    } else {
      assert acts == [acts[0]] + rest;
      OneAction(n.c, acts[0], rest);
      if e.Push? { Assoc(n.written, e.data, Chunks(rest)); }
    }
  }

  lemma {:induction false} OneAction(c: Tcp, a: Action, rest: seq<Action>)
    requires c.Valid()
    ensures Replay(c, [a] + rest) == Replay(Act(c, a), rest)
    ensures Chunks([a] + rest) == (if a.Chunk? then a.data else []) + Chunks(rest)
  {
    hide Handle, Send;
    assert ([a] + rest)[1..] == rest;
  }

  predicate NoReads(es: seq<Event>) {
    forall i :: 0 <= i < |es| ==> !es[i].Take?
  }

  lemma {:induction false} RunReplays(n: Net, es: seq<Event>)
    requires n.c.Valid() && Run(n, es) && NoReads(es)
    ensures After(n, es).c == Replay(n.c, ClientActions(n, es))
    ensures After(n, es).written == n.written + Chunks(ClientActions(n, es))
    ensures After(n, es).taken == n.taken
    decreases |es|
  {
    if es != [] {
      hide Handle, Send, Received, Honest;
      var m := Next(n, es[0]);
      RunReplays(m, es[1..]);
      var rest := ClientActions(m, es[1..]);
      StepReplays(n, es[0], rest);
      assert m.written + Chunks(rest) == n.written + Chunks(StepActions(n, es[0]) + rest);
    }
  }

  predicate OnlyDeliveries(acts: seq<Action>) {
    forall i :: 0 <= i < |acts| ==> acts[i].Deliver?
  }

  lemma {:induction false} HandleKeepsNxt(s: Tcp, src: seq<byte>, p: seq<byte>)
    requires s.Valid() && s.event != 1
    ensures Handle(s, src, p).sndNxt == s.sndNxt && Handle(s, src, p).event != 1
    ensures s.sndUna <= s.sndNxt ==> s.sndUna <= Handle(s, src, p).sndUna <= s.sndNxt
  {
    hide Parse, Send, HasBit, DataStage, FinStage;
    match Parse(p)
    case None =>
    case Some(g) =>
      var a := AckStage(s, g);
      StagesOnlyAck(a, g);
      StagesOnlyAck(DataStage(a, g), g);
  }

  lemma {:induction false} DeliveriesKeepNxt(s: Tcp, acts: seq<Action>)
    requires s.Valid() && s.event != 1 && OnlyDeliveries(acts)
    ensures Replay(s, acts).sndNxt == s.sndNxt && Replay(s, acts).event != 1
    ensures s.sndUna <= s.sndNxt ==> s.sndUna <= Replay(s, acts).sndUna <= s.sndNxt
    decreases |acts|
  {
    if acts != [] {
      hide Handle;
      HandleKeepsNxt(s, acts[0].src, acts[0].packet);
      DeliveriesKeepNxt(Act(s, acts[0]), acts[1..]);
    }
  }

  lemma {:induction false} AwaitDelivers(s: Tcp, want: nat, polls: seq<Batch>)
    requires s.Valid()
    ensures OnlyDeliveries(Await(s, want, polls)) && Chunks(Await(s, want, polls)) == []
    decreases |polls|
  {
    hide Replay;
    if s.sndUna < want && polls != [] && s.event >= 0 {
      AwaitDelivers(Replay(s, Deliveries(polls[0])), want, polls[1..]);
    }
    DeliveriesHaveNoChunks(Await(s, want, polls));
  }

  lemma {:induction false} DeliveriesHaveNoChunks(acts: seq<Action>)
    requires OnlyDeliveries(acts)
    ensures Chunks(acts) == []
  {
    if acts != [] { DeliveriesHaveNoChunks(acts[1..]); }
  }

  /** A successful write has handed over exactly `data`, and ends with everything acknowledged. */
  lemma {:induction false} WriteAcknowledged(s: Tcp, data: seq<byte>, waits: seq<seq<Batch>>)
    requires s.Valid() && s.event != 1 && Write(s, data, waits).ok
    ensures Chunks(Write(s, data, waits).acts) == data
    ensures data != [] ==> var z := Replay(s, Write(s, data, waits).acts); z.sndUna >= z.sndNxt
    decreases |data|
  {
    hide Send, Replay, Await;
    if data != [] {
      var n := Min(MAX_CHUNK, |data|);
      var s1 := Send(s, PSH_ACK, data[..n]);
      var w := Await(s1, s1.sndNxt, if waits == [] then [] else waits[0]);
      var first := [Chunk(data[..n])] + w;
      var s2 := Replay(s, first);
      var left := if waits == [] then [] else waits[1..];
      ReplayChunk(s, data[..n], w);
      AwaitDelivers(s1, s1.sndNxt, if waits == [] then [] else waits[0]);
      SendKeepsEvent(s, data[..n]);
      DeliveriesKeepNxt(s1, w);
      WriteAcknowledged(s2, data[n..], left);
      ReplayConcat(s, first, Write(s2, data[n..], left).acts);
      ChunksConcat([Chunk(data[..n])], w);
      ChunksConcat(first, Write(s2, data[n..], left).acts);
      assert Chunks([Chunk(data[..n])]) == data[..n];
      assert data[..n] + data[n..] == data;
      if data[n..] == [] { ReplayNothing(s2); }
    }
  }

  lemma {:induction false} SendKeepsEvent(s: Tcp, data: seq<byte>)
    requires s.Valid()
    ensures Send(s, PSH_ACK, data).event == s.event && Send(s, PSH_ACK, data).sndUna == s.sndUna
    ensures Send(s, PSH_ACK, data).sndNxt == (s.sndNxt + |data|) % U32
  {
  }

  /** If `net_tcp_write` returns 1 inside any run, the peer then holds exactly what was written before and `data`. */
  lemma {:induction false} WriteDelivers(n: Net, es: seq<Event>, data: seq<byte>, waits: seq<seq<Batch>>)
    requires Inv(n) && Run(n, es) && NoReads(es)
    requires ClientActions(n, es) == Write(n.c, data, waits).acts && Write(n.c, data, waits).ok && data != []
    ensures After(n, es).got == n.written + data
  {
    hide Replay, Write, RcvInv, Lossless, Short, Honest;
    RunKeeps(n, es);
    RunReplays(n, es);
    WriteAcknowledged(n.c, data, waits);
  }

  ghost predicate InFlight(t: Tcp, most: nat) {
    t.sndUna <= t.sndNxt <= t.sndUna + most
  }

  /** One chunk and the wait for it: nothing else is sent, so at most this chunk is outstanding. */
  lemma {:induction false} ChunkInFlight(s: Tcp, chunk: seq<byte>, polls: seq<Batch>, k: nat)
    requires s.Valid() && s.event != 1 && s.sndUna == s.sndNxt && s.sndNxt + |chunk| < U32
    requires k <= |Await(Send(s, PSH_ACK, chunk), s.sndNxt + |chunk|, polls)|
    ensures var w := Await(Send(s, PSH_ACK, chunk), s.sndNxt + |chunk|, polls);
            var t := Replay(s, [Chunk(chunk)] + w[..k]);
            && InFlight(t, |chunk|) && t.sndNxt == s.sndNxt + |chunk| && t.event != 1
            && (forall i :: 0 <= i < |w| ==> w[i].Deliver?)
    ensures Send(s, PSH_ACK, chunk).sndNxt == s.sndNxt + |chunk|
  {
    hide Send, Replay, Await;
    var s1 := Send(s, PSH_ACK, chunk);
    var w := Await(s1, s.sndNxt + |chunk|, polls);
    SendKeepsEvent(s, chunk);
    AwaitDelivers(s1, s.sndNxt + |chunk|, polls);
    ReplayChunk(s, chunk, w[..k]);
    DeliveriesKeepNxt(s1, w[..k]);
  }

  /** During a write that starts with everything acknowledged at most one chunk is outstanding, and a chunk is sent
      only when nothing is. */
  lemma {:induction false} OneChunkInFlight(s: Tcp, data: seq<byte>, waits: seq<seq<Batch>>, k: nat)
    requires s.Valid() && s.event != 1 && s.sndUna == s.sndNxt && s.sndNxt + |data| < U32
    requires k <= |Write(s, data, waits).acts|
    ensures var acts := Write(s, data, waits).acts;
            var t := Replay(s, acts[..k]);
            && InFlight(t, MAX_CHUNK)
            && (k < |acts| && acts[k].Chunk? ==> t.sndUna == t.sndNxt && |acts[k].data| <= MAX_CHUNK)
    decreases |data|
  {
    hide Send, Replay, Await;
    var acts := Write(s, data, waits).acts;
    if k == 0 || data == [] {
      assert acts[..k] == [];
      ReplayNothing(s);
    } else {
      var n := Min(MAX_CHUNK, |data|);
      var polls := if waits == [] then [] else waits[0];
      var w := Await(Send(s, PSH_ACK, data[..n]), s.sndNxt + n, polls);
      ChunkInFlight(s, data[..n], polls, |w|);
      assert w[..|w|] == w;
      var first := [Chunk(data[..n])] + w;
      var s2 := Replay(s, first);
      var left := if waits == [] then [] else waits[1..];
      if k < |first| || (k == |first| && s2.sndUna < s.sndNxt + n) {
        ChunkInFlight(s, data[..n], polls, k - 1);
        assert acts[..k] == [Chunk(data[..n])] + w[..k - 1];
      } else {
        OneChunkInFlight(s2, data[n..], left, k - |first|);
        ReplayConcat(s, first, Write(s2, data[n..], left).acts[..k - |first|]);
        assert acts == first + Write(s2, data[n..], left).acts;
        assert acts[..k] == first + Write(s2, data[n..], left).acts[..k - |first|];
      }
    }
  }

  /** A successful write that starts with everything acknowledged ends so. */
  lemma {:induction false} WriteSettles(s: Tcp, data: seq<byte>, waits: seq<seq<Batch>>)
    requires s.Valid() && s.event != 1 && s.sndUna == s.sndNxt && s.sndNxt + |data| < U32 && Write(s, data, waits).ok
    ensures var z := Replay(s, Write(s, data, waits).acts);
            z.event != 1 && z.sndUna == z.sndNxt == s.sndNxt + |data|
    decreases |data|
  {
    hide Send, Replay, Await;
    if data == [] {
      ReplayNothing(s);
    } else {
      var n := Min(MAX_CHUNK, |data|);
      var polls := if waits == [] then [] else waits[0];
      var w := Await(Send(s, PSH_ACK, data[..n]), s.sndNxt + n, polls);
      ChunkInFlight(s, data[..n], polls, |w|);
      assert w[..|w|] == w;
      var first := [Chunk(data[..n])] + w;
      var left := if waits == [] then [] else waits[1..];
      WriteSettles(Replay(s, first), data[n..], left);
      ReplayConcat(s, first, Write(Replay(s, first), data[n..], left).acts);
    }
  }

  /** One call of `net_tcp_write`: its data and the polls of its waits. */
  datatype Call = Call(data: seq<byte>, waits: seq<seq<Batch>>)

  /** Writes in a row, as long as they succeed. */
  function Calls(s: Tcp, calls: seq<Call>): (w: WriteRun)
    requires s.Valid()
    decreases |calls|
  {
    if calls == [] then WriteRun([], true)
    else
      var first := Write(s, calls[0].data, calls[0].waits);
      if !first.ok then first
      else
        var rest := Calls(Replay(s, first.acts), calls[1..]);
        WriteRun(first.acts + rest.acts, rest.ok)
  }

  function TotalLength(calls: seq<Call>): nat {
    if calls == [] then 0 else |calls[0].data| + TotalLength(calls[1..])
  }

  /** Throughout any number of writes in a row, up to the first that fails, at most one chunk is outstanding and a
      chunk is sent only when nothing is. */
  lemma {:induction false} WritesInFlight(s: Tcp, calls: seq<Call>, k: nat)
    requires s.Valid() && s.event != 1 && s.sndUna == s.sndNxt && s.sndNxt + TotalLength(calls) < U32
    requires k <= |Calls(s, calls).acts|
    ensures var acts := Calls(s, calls).acts;
            var t := Replay(s, acts[..k]);
            && InFlight(t, MAX_CHUNK)
            && (k < |acts| && acts[k].Chunk? ==> t.sndUna == t.sndNxt && |acts[k].data| <= MAX_CHUNK)
    decreases |calls|
  {
    hide Replay, Write;
    var acts := Calls(s, calls).acts;
    if calls == [] {
      assert acts[..k] == [];
      ReplayNothing(s);
    } else {
      var first := Write(s, calls[0].data, calls[0].waits);
      if k < |first.acts| || !first.ok {
        OneChunkInFlight(s, calls[0].data, calls[0].waits, k);
        assert acts[..k] == first.acts[..k];
      } else {
        WriteSettles(s, calls[0].data, calls[0].waits);
        var z := Replay(s, first.acts);
        WritesInFlight(z, calls[1..], k - |first.acts|);
        ReplayConcat(s, first.acts, Calls(z, calls[1..]).acts[..k - |first.acts|]);
        assert acts[..k] == first.acts + Calls(z, calls[1..]).acts[..k - |first.acts|];
      }
    }
  }

  /** Acknowledgement numbers are compared without wrap-around. With everything acknowledged, a one-chunk write that
      never hears from the network reports success exactly when SND.NXT passes 2^32. */
  lemma {:induction false} UnheardWrite(s: Tcp, data: seq<byte>)
    requires s.Valid() && s.sndUna == s.sndNxt && 0 < |data| <= MAX_CHUNK
    ensures Write(s, data, []).ok <==> s.sndNxt + |data| >= U32
  {
    hide Send;
    SendKeepsEvent(s, data);
    assert data[..|data|] == data;
    ReplayChunk(s, data, []);
    assert [Chunk(data)] + [] == [Chunk(data)];
    ReplayNothing(Send(s, PSH_ACK, data));
  }

  /** What `net_tcp_read` returns inside any run without overflow continues what it returned before, along the
      peer's stream. */
  lemma {:induction false} ReadReturnsStream(n: Net, es: seq<Event>, cap: nat, polls: seq<Batch>)
    requires Inv(n) && Run(n, es) && NoReads(es) && !SomeOverflow(n, es) && Lossless(n.irs, n.stream, n.taken, n.c)
    requires ClientActions(n, es) == Read(n.c, cap, polls).acts && Read(n.c, cap, polls).result.Some?
    ensures n.taken + Read(n.c, cap, polls).result.value <= n.stream
  {
    hide Replay, Honest, SndInv;
    RunKeeps(n, es);
    RunReplays(n, es);
    ReadIsBuffered(n.c, cap, polls);
    var v, z := Read(n.c, cap, polls).result.value, After(n, es);
    assert n.taken + v == (n.taken + z.c.out)[..|n.taken| + |v|];
  }

  lemma {:induction false} ReadIsBuffered(s: Tcp, cap: nat, polls: seq<Batch>)
    requires s.Valid() && Read(s, cap, polls).result.Some?
    ensures Read(s, cap, polls).result.value <= Replay(s, Read(s, cap, polls).acts).out
    decreases |polls|
  {
    hide Replay;
    if s.out != [] {
      ReplayNothing(s);
    } else {
      var acts := Deliveries(polls[0]);
      var rest := Read(Replay(s, acts), cap, polls[1..]);
      ReadIsBuffered(Replay(s, acts), cap, polls[1..]);
      ReplayConcat(s, acts, rest.acts);
    }
  }
}
