/** Runs of the TCP client that show where it falls short: a payload that does not fit, and a FIN at 2^32. */
module TcpLimits {
  import opened Bytes
  import opened TcpSegment
  import opened TcpClient
  import opened TcpNetwork

  const FIN_ACK: byte := 0x11

  /** What a fresh connection is made of. */
  datatype Opening = Opening(s: Tcp, peerIp: seq<byte>, localPort: nat, peerPort: nat, iss: nat, cap: nat,
                             synAck: Segment)
  {
    ghost predicate Good()
      ensures Good() ==> |s.localIp| == 4 && |peerIp| == 4 && localPort < U16 && peerPort < U16
      ensures Good() ==> synAck.seqNo < U32 && iss + 1 < U32
    {
      && s.Valid() && |peerIp| == 4 && localPort < U16 && peerPort < U16 && iss + 1 < U32
      && NewPorts(s.sent, localPort, peerPort)
      && synAck.Valid() && HasBit(synAck.flags, SYN) && HasBit(synAck.flags, ACK) && synAck.ackNo == iss + 1
    }

    ghost function Client(): (c: Tcp)
      requires Good()
      ensures c.Valid()
    {
      Accept(Connect(s, peerIp, localPort, peerPort, iss, cap), synAck)
    }

    /** The connection with a peer that has `stream` to send. */
    ghost function Connected(stream: seq<byte>): Net
      requires Good()
    {
      Net(Client(), synAck.seqNo, stream, iss, [], [], [], {})
    }

    /** The peer's segment that carries its whole stream. */
    function Whole(flags: byte, stream: seq<byte>): (g: Segment)
      requires synAck.seqNo < U32
      ensures g.ackNo == iss + 1 && g.flags == flags && g.data == stream
    {
      Segment(peerPort, localPort, (synAck.seqNo + 1) % U32, iss + 1, flags, stream)
    }

    function OnWire(flags: byte, stream: seq<byte>): seq<byte>
      requires |s.localIp| == 4 && |peerIp| == 4 && localPort < U16 && peerPort < U16 && synAck.seqNo < U32
      requires iss + 1 < U32
    {
      Packet(peerIp, s.localIp, Whole(flags, stream))
    }
  }

  lemma {:induction false} ClientFields(o: Opening)
    requires o.Good()
    ensures var c := o.Client();
            c.peerIp == o.peerIp && c.localPort == o.localPort && c.peerPort == o.peerPort && c.cap == o.cap
            && c.sndUna == o.iss + 1
  {
    hide Packet, HasBit;
    ConnectState(o.s, o.peerIp, o.localPort, o.peerPort, o.iss, o.cap);
    SynAckAccepted(Connect(o.s, o.peerIp, o.localPort, o.peerPort, o.iss, o.cap), o.synAck);
  }

  lemma {:induction false} TwoEvents(n: Net, e: Event, f: Event)
    requires n.c.Valid() && Enabled(n, e) && Enabled(Next(n, e), f)
    ensures Run(n, [e, f]) && After(n, [e, f]) == Next(Next(n, e), f)
    ensures SomeOverflow(n, [e, f]) <==> Overflowing(n, e) || Overflowing(Next(n, e), f)
  {
    hide Enabled, Next, Overflowing;
    OneEvent(Next(n, e), f);
    assert [e, f][1..] == [f];
  }

  lemma {:induction false} OneEvent(n: Net, e: Event)
    requires n.c.Valid() && Enabled(n, e)
    ensures Run(n, [e]) && After(n, [e]) == Next(n, e) && (SomeOverflow(n, [e]) <==> Overflowing(n, e))
  {
    hide Enabled, Next, Overflowing;
    assert [e][1..] == [];
  }

  /** The peer sends its whole stream in one segment, with or without FIN, and the network delivers it. */
  function Script(p: seq<byte>): seq<Event> {
    [Emit(p), ToClient(p)]
  }

  lemma {:induction false} Emitted(o: Opening, flags: byte, stream: seq<byte>)
    requires o.Good() && stream != [] && |stream| + 1 < U32
    ensures var n, p := o.Connected(stream), o.OnWire(flags, stream);
            && Inv(n) && Lossless(n.irs, n.stream, n.taken, n.c) && Honest(n, p)
            && Parse(p) == Some(o.Whole(flags, stream))
            && n.c.out == [] && Count(n.irs, n.c) == 0 && n.c.rcvNxt == (o.synAck.seqNo + 1) % U32
  {
    hide Parse, Packet, HasBit, Inv, SndInv, RcvInv, Accept, Connect;
    var n, p, g := o.Connected(stream), o.OnWire(flags, stream), o.Whole(flags, stream);
    Handshake(o.s, o.peerIp, o.localPort, o.peerPort, o.iss, o.cap, o.synAck, stream);
    PacketParses(o.peerIp, o.s.localIp, g);
    assert InStream(n, g, 0);
    assert n.c.Valid() by { hide *; assert o.Client().Valid(); }
    CountedFrom(n.irs, n.c);
    assert n.taken + n.c.out == n.c.out;
  }

  lemma {:induction false} CountedFrom(irs: nat, c: Tcp)
    requires c.Valid() && Count(irs, c) == 0
    ensures c.rcvNxt == (irs + 1) % U32
  {
  }

  /** Where the script leads: the segment is accepted by the fresh client. */
  lemma {:induction false} ScriptRuns(o: Opening, flags: byte, stream: seq<byte>)
    requires o.Good() && stream != [] && |stream| + 1 < U32
    ensures var n, p, g := o.Connected(stream), o.OnWire(flags, stream), o.Whole(flags, stream);
            && Inv(n) && Lossless(n.irs, n.stream, n.taken, n.c) && n.c.out == [] && InOrderData(n.c, g)
            && n.c.cap == o.cap
            && Count(n.irs, n.c) == 0 && n.c.sndUna == g.ackNo
            && Run(n, Script(p)) && After(n, Script(p)) == n.(inbox := {p}, c := Accept(n.c, g))
            && (SomeOverflow(n, Script(p)) <==> !HasBit(flags, RST) && |stream| > o.cap)
  {
    hide Parse, Packet, HasBit, Inv, Lossless, Honest, Accept, Opening.Client;
    var n, p, g := o.Connected(stream), o.OnWire(flags, stream), o.Whole(flags, stream);
    Emitted(o, flags, stream);
    ClientFields(o);
    var m := Next(n, Emit(p));
    assert m == n.(inbox := {p}) && p in m.inbox;
    TwoEvents(n, Emit(p), ToClient(p));
    assert Handle(m.c, m.c.peerIp, p) == Accept(n.c, g);
  }

  /** For every buffer size there is a run that loses a byte: a stream one byte longer than the buffer, in one segment.
      All of it is counted and acknowledged, the last byte is nowhere. */
  lemma {:induction false} OverflowLoses(o: Opening, stream: seq<byte>)
    requires o.Good() && |stream| == o.cap + 1 && |stream| + 1 < U32
    ensures var n, p := o.Connected(stream), o.OnWire(ACK, stream);
            && Inv(n) && Run(n, Script(p)) && SomeOverflow(n, Script(p))
            && var z := After(n, Script(p));
               && !Lossless(z.irs, z.stream, z.taken, z.c)
               && Count(z.irs, z.c) == |stream| && z.taken + z.c.out == stream[..o.cap]
  {
    hide Parse, HasBit, Inv, Lossless, Accept, Opening.Client, Opening.OnWire, Opening.Good, Run, After,
         SomeOverflow, Count;
    AckOnly();
    var n, p := o.Connected(stream), o.OnWire(ACK, stream);
    ScriptRuns(o, ACK, stream);
    RunKeeps(n, Script(p));
    FrontKept(n.irs, n.c, o.Whole(ACK, stream));
  }

  lemma {:induction false} AckOnly()
    ensures HasBit(ACK, ACK) && !HasBit(ACK, RST) && !HasBit(ACK, FIN) && !HasBit(ACK, SYN)
  {
  }

  lemma {:induction false} FrontKept(irs: nat, c: Tcp, g: Segment)
    requires c.Valid() && g.Valid() && g.flags == ACK && c.sndUna == g.ackNo && InOrderData(c, g) && c.out == []
    requires Count(irs, c) == 0
    requires c.cap < |g.data| < U32
    ensures var d := Accept(c, g); Count(irs, d) == |g.data| && [] + d.out == g.data[..c.cap]
  {
    AckOnly();
    TakesFront(c, g);
    CountAdvances(irs, c, |g.data|);
    hide HasBit, DataStage;
    assert Accept(c, g) == DataStage(c, g);
  }

  lemma {:induction false} TakesFront(c: Tcp, g: Segment)
    requires c.Valid() && g.Valid() && InOrderData(c, g) && c.out == [] && |g.data| > c.cap
    ensures DataStage(c, g).out == g.data[..c.cap] && DataStage(c, g).rcvNxt == (c.rcvNxt + |g.data|) % U32
  {
    hide HasBit, Packet;
  }

  /** A FIN in order whose segment ends at 2^32 is not counted: the peer's one byte arrives with the FIN, is buffered
      and counted, event 4 is raised, and the FIN leaves the count where the data put it. */
  lemma {:induction false} FinAtTopUncounted(o: Opening, stream: seq<byte>)
    requires o.Good() && o.synAck.seqNo == U32 - 2 && |stream| == 1 && o.cap >= 1
    ensures var n, p := o.Connected(stream), o.OnWire(FIN_ACK, stream);
            && Inv(n) && Run(n, Script(p))
            && var z := After(n, Script(p));
               && z.c.event == 4 && z.taken + z.c.out == stream && Count(z.irs, z.c) == |stream|
  {
    hide Parse, HasBit, Inv, Lossless, Accept, Opening.Client, Opening.OnWire, Opening.Good, Run, After,
         SomeOverflow, Count;
    FinOnly();
    var n, p, g := o.Connected(stream), o.OnWire(FIN_ACK, stream), o.Whole(FIN_ACK, stream);
    ScriptRuns(o, FIN_ACK, stream);
    RunKeeps(n, Script(p));
    assert InStream(n, g, 0);
    FinAccepted(n, g, 0);
    assert stream[..1] == stream;
    AllCounted(n, Accept(n.c, g), stream);
  }

  lemma {:induction false} FinOnly()
    ensures HasBit(FIN_ACK, FIN) && !HasBit(FIN_ACK, RST)
  {
  }

  lemma {:induction false} AllCounted(n: Net, d: Tcp, stream: seq<byte>)
    requires Lossless(n.irs, stream, n.taken, d) && Count(n.irs, d) == |stream|
    ensures n.taken + d.out == stream
  {
  }
}
