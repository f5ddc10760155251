/** What the TCP client puts on the wire in answer to a packet, why a write gives up, and reads up to the end of the
    peer's stream. */
module TcpCalls {
  import opened Bytes
  import opened TcpSegment
  import opened TcpClient
  import opened TcpNetwork

  // Answers

  /** An acknowledgement without data, of everything up to `ackNo`. */
  ghost predicate IsAck(s: Tcp, p: seq<byte>, ackNo: nat) {
    Parse(p) == Some(Segment(s.localPort, s.peerPort, s.sndNxt, ackNo, 0x10, []))
  }

  ghost predicate SomeAck(s: Tcp, p: seq<byte>) {
    exists a: nat :: IsAck(s, p, a)
  }

  lemma {:induction false} AckPacket(s: Tcp)
    requires s.Valid()
    ensures var t := Send(s, 0x10, []);
            && t == s.(sent := t.sent) && |t.sent| == |s.sent| + 1 && t.sent[..|s.sent|] == s.sent
            && IsAck(s, t.sent[|s.sent|], s.rcvNxt)
  {
    hide Parse, Packet;
    PacketParses(s.localIp, s.peerIp, s.Outgoing(0x10, []));
    assert !HasBit(0x10, SYN) && !HasBit(0x10, FIN);
  }

  /** How many acknowledgements a segment brings about. */
  function AnswerCount(s: Tcp, g: Segment): nat {
    if HasBit(g.flags, SYN) && HasBit(g.flags, ACK) && s.event == 1 && g.ackNo == s.sndNxt then 1
    else if HasBit(g.flags, RST) then 0
    else (if g.data != [] && g.seqNo == s.rcvNxt then 1 else 0) + (if HasBit(g.flags, FIN) then 1 else 0)
  }

  /** A segment is answered by a SYN-ACK's, in-order data's and a FIN's acknowledgement and nothing else, and the last
      one covers everything counted. RCV.NXT moves only with an answer. */
  lemma {:induction false} Answers(s: Tcp, g: Segment)
    requires s.Valid() && g.Valid()
    ensures var d := Accept(s, g);
            && |d.sent| == |s.sent| + AnswerCount(s, g) && d.sent[..|s.sent|] == s.sent
            && (forall i :: |s.sent| <= i < |d.sent| ==> SomeAck(s, d.sent[i]))
            && (|d.sent| > |s.sent| ==> IsAck(s, d.sent[|d.sent| - 1], d.rcvNxt))
            && (|d.sent| == |s.sent| ==> d.rcvNxt == s.rcvNxt && d.out == s.out)
  {
    hide HasBit, Send, IsAck, DataStage, FinStage;
    var a := AckStage(s, g);
    if HasBit(g.flags, SYN) && HasBit(g.flags, ACK) && s.event == 1 && g.ackNo == s.sndNxt {
      var t := a.(rcvNxt := (g.seqNo + 1) % U32, event := 2);
      AckPacket(t);
      SameSender(s, t);
      var d := Send(t, 0x10, []);
      assert d == Accept(s, g) && IsAck(s, d.sent[|s.sent|], t.rcvNxt);
    } else if !HasBit(g.flags, RST) {
      StageAnswers(a, g);
      SameSender(s, a);
      var d := FinStage(DataStage(a, g), g);
      assert d == Accept(s, g);
      forall i | |s.sent| <= i < |d.sent| ensures SomeAck(s, d.sent[i]) { assert SomeAck(a, d.sent[i]); }
    }
  }

  lemma {:induction false} StageAnswers(s: Tcp, g: Segment)
    requires s.Valid() && g.Valid()
    ensures var d := FinStage(DataStage(s, g), g);
            var n := (if g.data != [] && g.seqNo == s.rcvNxt then 1 else 0) + (if HasBit(g.flags, FIN) then 1 else 0);
            && |d.sent| == |s.sent| + n && d.sent[..|s.sent|] == s.sent
            && (forall i :: |s.sent| <= i < |d.sent| ==> SomeAck(s, d.sent[i]))
            && (n > 0 ==> IsAck(s, d.sent[|d.sent| - 1], d.rcvNxt))
            && (n == 0 ==> d == s)
  {
    hide HasBit, Send, IsAck, DataStage, FinStage;
    var b := DataStage(s, g);
    var d := FinStage(b, g);
    DataAnswer(s, g);
    FinAnswer(b, g);
    SameSender(s, b);
    assert d.sent[..|s.sent|] == d.sent[..|b.sent|][..|s.sent|];
    assert |b.sent| > |s.sent| ==> d.sent[|s.sent|] == d.sent[..|b.sent|][|s.sent|];
  }

  /** Who sends and with which number is all that `IsAck` looks at. */
  lemma {:induction false} SameSender(s: Tcp, t: Tcp)
    requires s.localPort == t.localPort && s.peerPort == t.peerPort && s.sndNxt == t.sndNxt
    ensures forall p, a :: IsAck(s, p, a) == IsAck(t, p, a)
  {
    hide Parse;
  }

  lemma {:induction false} DataAnswer(s: Tcp, g: Segment)
    requires s.Valid() && g.Valid()
    ensures var d := DataStage(s, g);
            && d.localPort == s.localPort && d.peerPort == s.peerPort && d.sndNxt == s.sndNxt
            && (if g.data != [] && g.seqNo == s.rcvNxt then
                  |d.sent| == |s.sent| + 1 && d.sent[..|s.sent|] == s.sent && IsAck(s, d.sent[|s.sent|], d.rcvNxt)
                else d == s)
  {
    hide HasBit, Send, IsAck;
    if InOrderData(s, g) {
      var copy := Min(|g.data|, s.cap - |s.out|);
      var t := s.(out := s.out + g.data[..copy], rcvNxt := (s.rcvNxt + |g.data|) % U32);
      AckPacket(t);
      SameSender(s, t);
    }
  }

  lemma {:induction false} FinAnswer(s: Tcp, g: Segment)
    requires s.Valid() && g.Valid()
    ensures var d := FinStage(s, g);
            && (if HasBit(g.flags, FIN) then
                  |d.sent| == |s.sent| + 1 && d.sent[..|s.sent|] == s.sent && IsAck(s, d.sent[|s.sent|], d.rcvNxt)
                else d == s)
  {
    hide HasBit, Send, IsAck;
    if HasBit(g.flags, FIN) {
      var t := s.(rcvNxt := if g.seqNo + |g.data| == s.rcvNxt then (s.rcvNxt + 1) % U32 else s.rcvNxt);
      AckPacket(t);
      SameSender(s, t);
    }
  }

  /** What a segment does to the event and to SND.UNA: the peer's answer to the SYN connects, a reset ends, a FIN
      closes, data in order is reported; an acknowledgement counts if it lies between SND.UNA and SND.NXT. */
  lemma {:induction false} EventAndAck(s: Tcp, g: Segment)
    requires s.Valid() && g.Valid()
    ensures Accept(s, g).event
         == if HasBit(g.flags, SYN) && HasBit(g.flags, ACK) && s.event == 1 && g.ackNo == s.sndNxt then 2
            else if HasBit(g.flags, RST) then -1
            else if HasBit(g.flags, FIN) then 4
            else if g.data != [] && g.seqNo == s.rcvNxt then 3
            else s.event
    ensures Accept(s, g).sndUna == if HasBit(g.flags, ACK) && s.sndUna <= g.ackNo <= s.sndNxt then g.ackNo else s.sndUna
    ensures var d := Accept(s, g);
            && d.sndNxt == s.sndNxt && d.localIp == s.localIp && d.peerIp == s.peerIp && d.localPort == s.localPort
            && d.peerPort == s.peerPort && d.cap == s.cap
  {
    hide HasBit, Packet;
    assert !HasBit(0x10, SYN) && !HasBit(0x10, FIN) by { hide *; AckBits(); }
    AckWraps(s.sndNxt);
  }

  lemma {:induction false} AckBits()
    ensures !HasBit(0x10, SYN) && !HasBit(0x10, FIN) && !HasBit(0x10, RST) && HasBit(0x10, ACK)
  {
  }

  lemma {:induction false} AckWraps(x: nat)
    requires x < U32
    ensures x % U32 == x
  {
  }

  predicate ForUs(s: Tcp, src: seq<byte>, p: seq<byte>) {
    && |p| >= 20 && 20 <= p[12] as int / 16 * 4 <= |p| && src == s.peerIp
    && Big(p[..2]) == s.peerPort && Big(p[2..4]) == s.localPort
  }

  /** Which packets are looked at: from the peer's address and port to this port, with a header of at least twenty bytes
      inside the packet. All others change nothing. */
  lemma {:induction false} OthersIgnored(s: Tcp, src: seq<byte>, p: seq<byte>)
    requires s.Valid()
    ensures !ForUs(s, src, p) ==> Handle(s, src, p) == s
    ensures ForUs(s, src, p) ==> Parse(p).Some? && Handle(s, src, p) == Accept(s, Parse(p).value)
  {
    hide Accept, Get32;
    if |p| >= 20 {
      BigOfTwo(p[0], p[1]);
      BigOfTwo(p[2], p[3]);
      assert p[..2] == [p[0], p[1]] && p[2..4] == [p[2], p[3]];
    }
  }

  // When a write succeeds

  /** The first poll of the wait delivers an acknowledgement of everything up to `ackNo`. */
  ghost predicate AckedAtOnce(s: Tcp, polls: seq<Batch>, ackNo: nat) {
    && polls != [] && |polls[0]| == 1 && polls[0][0].0 == s.peerIp
    && match Parse(polls[0][0].1)
       case None => false
       case Some(g) =>
         g.srcPort == s.peerPort && g.dstPort == s.localPort && g.flags == 0x10 && g.data == [] && g.ackNo == ackNo
  }

  /** A peer that acknowledges every chunk makes the write succeed: the i-th wait hears of all bytes up to 1200 * (i
      + 1). */
  lemma {:induction false} AnsweredWrite(s: Tcp, data: seq<byte>, waits: seq<seq<Batch>>)
    requires s.Valid() && s.event >= 2 && s.sndUna == s.sndNxt && s.sndNxt + |data| < U32
    requires |data| <= 1200 * |waits|
    requires forall i :: 0 <= i < |waits| && 1200 * i < |data| ==>
               AckedAtOnce(s, waits[i], s.sndNxt + Min(1200 * (i + 1), |data|))
    ensures Write(s, data, waits).ok
    decreases |data|
  {
    hide Send, Replay, Await, AckedAtOnce;
    if data == [] {
      NothingToWrite(s, waits);
    } else {
      var n := Min(MAX_CHUNK, |data|);
      var s1 := Send(s, PSH_ACK, data[..n]);
      assert AckedAtOnce(s, waits[0], s.sndNxt + n);
      var s2 := ChunkAcked(s, data[..n], waits[0]);
      WriteTurn(s, data, waits);
      forall i | 0 <= i < |waits[1..]| && 1200 * i < |data| - n
        ensures AckedAtOnce(s2, waits[1..][i], s2.sndNxt + Min(1200 * (i + 1), |data| - n))
      {
        assert AckedAtOnce(s, waits[i + 1], s.sndNxt + Min(1200 * (i + 2), |data|));
        SamePeer(s, s2, waits[i + 1], s.sndNxt + Min(1200 * (i + 2), |data|));
      }
      AnsweredWrite(s2, data[n..], waits[1..]);
    }
  }

  lemma {:induction false} NothingToWrite(s: Tcp, waits: seq<seq<Batch>>)
    requires s.Valid()
    ensures Write(s, [], waits).ok
  {
  }

  lemma {:induction false} SamePeer(s: Tcp, t: Tcp, polls: seq<Batch>, ackNo: nat)
    requires AckedAtOnce(s, polls, ackNo)
    requires t.peerIp == s.peerIp && t.peerPort == s.peerPort && t.localPort == s.localPort
    ensures AckedAtOnce(t, polls, ackNo)
  {
    hide Parse;
  }

  /** One chunk and the poll that acknowledges it. */
  lemma {:induction false} ChunkAcked(s: Tcp, chunk: seq<byte>, polls: seq<Batch>) returns (t: Tcp)
    requires s.Valid() && s.event >= 2 && s.sndUna == s.sndNxt && 0 < |chunk| && s.sndNxt + |chunk| < U32
    requires AckedAtOnce(s, polls, s.sndNxt + |chunk|)
    ensures var s1 := Send(s, PSH_ACK, chunk);
            && s1.sndNxt == s.sndNxt + |chunk| && t.Valid() && t == Replay(s1, Await(s1, s1.sndNxt, polls))
            && t.event == s.event && t.sndUna == t.sndNxt == s.sndNxt + |chunk|
            && t.peerIp == s.peerIp && t.peerPort == s.peerPort && t.localPort == s.localPort
  {
    hide Packet, Parse, HasBit;
    var s1 := Send(s, PSH_ACK, chunk);
    SendKeepsEvent(s, chunk) by { hide *; }
    var g := Parse(polls[0][0].1).value;
    AckBits();
    var acts := Deliveries(polls[0]);
    assert acts == [Deliver(s.peerIp, polls[0][0].1)];
    t := Accept(s1, g);
    assert Replay(s1, acts) == t by { hide Accept; OneDelivery(s1, s.peerIp, polls[0][0].1); }
    EventAndAck(s1, g);
    hide Accept, Send, Replay;
    AwaitEndsAtOnce(s1, polls);
  }

  lemma {:induction false} OneDelivery(s: Tcp, src: seq<byte>, p: seq<byte>)
    requires s.Valid()
    ensures Replay(s, [Deliver(src, p)]) == Handle(s, src, p)
  {
    hide Handle;
    assert [Deliver(src, p)][1..] == [];
  }

  lemma {:induction false} AwaitEndsAtOnce(s1: Tcp, polls: seq<Batch>)
    requires s1.Valid() && polls != [] && s1.sndUna < s1.sndNxt && s1.event >= 0
    requires var t := Replay(s1, Deliveries(polls[0])); t.sndUna >= s1.sndNxt
    ensures Await(s1, s1.sndNxt, polls) == Deliveries(polls[0])
  {
    hide Replay;
    assert Deliveries(polls[0]) + [] == Deliveries(polls[0]);
  }

  /** The three packets of the handshake: the SYN carries the initial number, the peer's SYN-ACK is acknowledged. */
  lemma {:induction false} ThreeWay(s: Tcp, peerIp: seq<byte>, localPort: nat, peerPort: nat, iss: nat, cap: nat,
                                    g: Segment)
    requires s.Valid() && |peerIp| == 4 && localPort < U16 && peerPort < U16 && iss + 1 < U32
    requires g.Valid() && HasBit(g.flags, SYN) && HasBit(g.flags, ACK) && g.ackNo == iss + 1
    ensures var t := Connect(s, peerIp, localPort, peerPort, iss, cap);
            var c := Accept(t, g);
            && |t.sent| == |s.sent| + 1 && |c.sent| == |s.sent| + 2
            && Parse(t.sent[|s.sent|]) == Some(Segment(localPort, peerPort, iss, 0, 0x02, []))
            && Parse(c.sent[|s.sent| + 1])
               == Some(Segment(localPort, peerPort, iss + 1, (g.seqNo + 1) % U32, 0x10, []))
            && c.peerIp == peerIp && c.out == [] && c.cap == cap && c.event == 2
  {
    hide Parse, Packet, HasBit;
    var u := s.(peerIp := peerIp, localPort := localPort, peerPort := peerPort, event := 1, sndNxt := iss,
                sndUna := iss, rcvNxt := 0, out := [], cap := cap);
    var t := Connect(s, peerIp, localPort, peerPort, iss, cap);
    SynSent(u);
    PacketParses(u.localIp, u.peerIp, u.Outgoing(0x02, []));
    SynAckAccepted(t, g);
    AckPacket(t.(sndUna := g.ackNo, rcvNxt := (g.seqNo + 1) % U32, event := 2));
  }

  // Why a write gives up

  /** `acts` ends with the chunk at 1200 * i, sent after all before it, and a wait of k polls without its
      acknowledgement: the connection was reset or the polls of this wait are used up. */
  ghost predicate StuckAt(s: Tcp, data: seq<byte>, waits: seq<seq<Batch>>, acts: seq<Action>, i: nat,
                          done: seq<Action>, k: nat)
    requires s.Valid()
  {
    && i * 1200 < |data| && Chunks(done) == data[..i * 1200]
    && var chunk := data[i * 1200..Min(|data|, i * 1200 + 1200)];
       var polls := if i < |waits| then waits[i] else [];
       var sent := Send(Replay(s, done), PSH_ACK, chunk);
       && k <= |polls| && acts == done + [Chunk(chunk)] + Arrivals(polls[..k])
       && var z := Replay(s, acts);
          z == Polled(sent, polls, k) && z.sndUna < sent.sndNxt && (z.event < 0 || k == |polls|)
  }

  /** A write fails over one chunk. */
  lemma {:induction false} WriteGivesUp(s: Tcp, data: seq<byte>, waits: seq<seq<Batch>>)
    returns (i: nat, done: seq<Action>, k: nat)
    requires s.Valid() && !Write(s, data, waits).ok
    ensures StuckAt(s, data, waits, Write(s, data, waits).acts, i, done, k)
    decreases |data|
  {
    hide Send, Replay, Await, StuckAt;
    var n := Min(MAX_CHUNK, |data|);
    var polls := if waits == [] then [] else waits[0];
    var s1 := Send(s, PSH_ACK, data[..n]);
    var w := Await(s1, s1.sndNxt, polls);
    var first := [Chunk(data[..n])] + w;
    WriteTurn(s, data, waits);
    if Replay(s, first).sndUna < s1.sndNxt {
      i, done := 0, [];
      k := StuckAtOnce(s, data, waits);
    } else {
      var left := if waits == [] then [] else waits[1..];
      var more;
      i, more, k := WriteGivesUp(Replay(s, first), data[n..], left);
      done := first + more;
      AwaitDelivers(s1, s1.sndNxt, polls);
      ChunksConcat([Chunk(data[..n])], w);
      assert Chunks([Chunk(data[..n])]) == data[..n];
      assert data[n..] != [] by { SomethingLeft(Replay(s, first), data[n..], left); }
      StuckLater(s, data, waits, first, Write(Replay(s, first), data[n..], left).acts, i, more, k);
      i := i + 1;
    }
  }

  lemma {:induction false} SomethingLeft(s: Tcp, data: seq<byte>, waits: seq<seq<Batch>>)
    requires s.Valid() && !Write(s, data, waits).ok
    ensures data != []
  {
  }

  lemma {:induction false} StuckAtOnce(s: Tcp, data: seq<byte>, waits: seq<seq<Batch>>) returns (k: nat)
    requires s.Valid() && data != []
    requires var s1 := Send(s, PSH_ACK, data[..Min(MAX_CHUNK, |data|)]);
             var w := Await(s1, s1.sndNxt, if waits == [] then [] else waits[0]);
             Replay(s, [Chunk(data[..Min(MAX_CHUNK, |data|)])] + w).sndUna < s1.sndNxt
    ensures var s1 := Send(s, PSH_ACK, data[..Min(MAX_CHUNK, |data|)]);
            var w := Await(s1, s1.sndNxt, if waits == [] then [] else waits[0]);
            StuckAt(s, data, waits, [Chunk(data[..Min(MAX_CHUNK, |data|)])] + w, 0, [], k)
  {
    hide Send, Replay, Await, Arrivals;
    var chunk := data[..Min(MAX_CHUNK, |data|)];
    var polls := if waits == [] then [] else waits[0];
    var s1 := Send(s, PSH_ACK, chunk);
    ReplayChunk(s, chunk, Await(s1, s1.sndNxt, polls));
    k := AwaitEnds(s1, s1.sndNxt, polls);
    ReplayNothing(s);
    assert [Chunk(chunk)] + Arrivals(polls[..k]) == [] + [Chunk(chunk)] + Arrivals(polls[..k]);
  }

  lemma {:induction false} StuckLater(s: Tcp, data: seq<byte>, waits: seq<seq<Batch>>, first: seq<Action>,
                                      acts: seq<Action>, i: nat, done: seq<Action>, k: nat)
    requires s.Valid() && |data| > 1200 && Chunks(first) == data[..1200]
    requires StuckAt(Replay(s, first), data[1200..], if waits == [] then [] else waits[1..], acts, i, done, k)
    ensures StuckAt(s, data, waits, first + acts, i + 1, first + done, k)
  {
    hide Send, Replay, Arrivals, Chunks;
    ReplayConcat(s, first, done);
    ReplayConcat(s, first, acts);
    ChunksConcat(first, done);
    var from, to := (i + 1) * 1200, Min(|data|, (i + 1) * 1200 + 1200);
    LaterChunk(data, i);
    var polls := if i + 1 < |waits| then waits[i + 1] else [];
    FourActions(first, done, [Chunk(data[from..to])], Arrivals(polls[..k]));
  }

  lemma {:induction false} LaterChunk(data: seq<byte>, i: nat)
    requires 1200 + i * 1200 <= |data|
    ensures data[1200..][i * 1200..Min(|data| - 1200, i * 1200 + 1200)]
         == data[(i + 1) * 1200..Min(|data|, (i + 1) * 1200 + 1200)]
    ensures data[..1200] + data[1200..][..i * 1200] == data[..(i + 1) * 1200]
  {
    assert data[1200..] == data[1200..|data|];
    SliceOfSlice(data, 1200, |data|, i * 1200, Min(|data| - 1200, i * 1200 + 1200));
    SliceOfSlice(data, 1200, |data|, 0, i * 1200);
  }

  lemma {:induction false} FourActions(a: seq<Action>, b: seq<Action>, c: seq<Action>, d: seq<Action>)
    ensures a + (b + c + d) == a + b + c + d
  {
  }

  // Reads up to the end of the stream

  datatype ReadCall = ReadCall(cap: nat, polls: seq<Batch>)

  function AfterRead(s: Tcp, call: ReadCall): (t: Tcp)
    requires s.Valid()
    ensures t.Valid()
  {
    var z := Replay(s, Read(s, call.cap, call.polls).acts);
    z.(out := z.out[Min(|z.out|, call.cap)..])
  }

  /** What successive calls of `net_tcp_read` return. */
  function Reads(s: Tcp, calls: seq<ReadCall>): (rs: seq<Option<seq<byte>>>)
    requires s.Valid()
    ensures |rs| == |calls|
    decreases |calls|
  {
    if calls == [] then []
    else [Read(s, calls[0].cap, calls[0].polls).result] + Reads(AfterRead(s, calls[0]), calls[1..])
  }

  function Collected(rs: seq<Option<seq<byte>>>): seq<byte> {
    if rs == [] then [] else (if rs[0].Some? then rs[0].value else []) + Collected(rs[1..])
  }

  function Room(calls: seq<ReadCall>): nat {
    if calls == [] then 0 else calls[0].cap + Room(calls[1..])
  }

  /** On a closed connection the reads hand out the buffer piece by piece, and a read fails exactly when the ones before
      it have taken all of it. */
  lemma {:induction false} ReadsDrain(s: Tcp, calls: seq<ReadCall>)
    requires s.Valid() && (s.event < 0 || s.event == 4)
    requires forall i :: 0 <= i < |calls| ==> calls[i].cap > 0
    ensures Collected(Reads(s, calls)) == s.out[..Min(|s.out|, Room(calls))]
    ensures forall i :: 0 <= i < |calls| ==> (Reads(s, calls)[i].None? <==> Room(calls[..i]) >= |s.out|)
    decreases |calls|
  {
    hide Read, AfterRead, Reads, Collected, Room;
    if calls == [] {
      NoReadsLeft(s);
    } else {
      var t, rest := AfterRead(s, calls[0]), calls[1..];
      FirstRead(s, calls[0]);
      ReadsDrain(t, rest);
      ReadsCons(s, calls);
      var m := Min(|s.out|, calls[0].cap);
      var n := Min(|t.out|, Room(rest));
      assert s.out[..m] + s.out[m..][..n] == s.out[..m + n];
      forall i | 0 <= i < |calls| ensures Reads(s, calls)[i].None? <==> Room(calls[..i]) >= |s.out| {
        RoomCons(calls, i);
      }
    }
  }

  lemma {:induction false} NoReadsLeft(s: Tcp)
    requires s.Valid()
    ensures Collected(Reads(s, [])) == s.out[..0] && Room([]) == 0
  {
  }

  lemma {:induction false} ReadsCons(s: Tcp, calls: seq<ReadCall>)
    requires s.Valid() && calls != []
    ensures var first, rest := Read(s, calls[0].cap, calls[0].polls).result, Reads(AfterRead(s, calls[0]), calls[1..]);
            && Reads(s, calls) == [first] + rest
            && Collected(Reads(s, calls)) == (if first.Some? then first.value else []) + Collected(rest)
            && Room(calls) == calls[0].cap + Room(calls[1..])
  {
    hide Read, AfterRead;
    assert Reads(s, calls)[1..] == Reads(AfterRead(s, calls[0]), calls[1..]);
  }

  lemma {:induction false} RoomCons(calls: seq<ReadCall>, i: nat)
    requires i < |calls|
    ensures Room(calls[..i]) == if i == 0 then 0 else calls[0].cap + Room(calls[1..][..i - 1])
  {
    if i > 0 { assert calls[..i][0] == calls[0] && calls[..i][1..] == calls[1..][..i - 1]; }
  }

  lemma {:induction false} FirstRead(s: Tcp, call: ReadCall)
    requires s.Valid() && (s.event < 0 || s.event == 4)
    ensures var t := AfterRead(s, call);
            var m := Min(|s.out|, call.cap);
            && Read(s, call.cap, call.polls).result == (if s.out == [] then None else Some(s.out[..m]))
            && t == s.(out := s.out[m..])
  {
    ReplayNothing(s);
  }

  /** Once the peer's FIN is counted, the connection is closed. */
  predicate ClosedOnceCounted(n: Net) {
    Count(n.irs, n.c) == |n.stream| + 1 ==> n.c.event < 0 || n.c.event == 4
  }

  lemma {:induction false} EventCloses(n: Net, e: Event)
    requires Inv(n) && ClosedOnceCounted(n) && Enabled(n, e)
    ensures ClosedOnceCounted(Next(n, e))
  {
    hide Honest, SndInv, Accept, Parse, HasBit, Received, Send;
    match e
    case Emit(_) =>
    case ToClient(p) => DeliveryCloses(n, p);
    case Noise(src, p) => assert Next(n, e) == n;
    case ToPeer(_, _) =>
    case Push(d) => SendKeepsRcv(n.c, d);
    case Take(_) =>
  }

  lemma {:induction false} SendKeepsRcv(s: Tcp, data: seq<byte>)
    requires s.Valid()
    ensures Send(s, PSH_ACK, data).rcvNxt == s.rcvNxt && Send(s, PSH_ACK, data).event == s.event
  {
    hide Packet, HasBit;
  }

  lemma {:induction false} DeliveryCloses(n: Net, p: seq<byte>)
    requires Inv(n) && ClosedOnceCounted(n) && p in n.inbox
    ensures ClosedOnceCounted(Next(n, ToClient(p)))
  {
    hide Parse, HasBit, SndInv, Count, Accept;
    assert Honest(n, p);
    if Parse(p).Some? {
      var g := Parse(p).value;
      if g.srcPort == n.c.peerPort && g.dstPort == n.c.localPort {
        var off: nat := 0;
        if g.data != [] || HasBit(g.flags, FIN) { off :| InStream(n, g, off); }
        SegmentCloses(n, g, off);
      }
    }
  }

  lemma {:induction false} SegmentCloses(n: Net, g: Segment, off: nat)
    requires n.c.Valid() && RcvInv(n.irs, n.stream, n.taken, n.c) && n.c.event != 1
    requires ClosedOnceCounted(n) && g.Valid()
    requires g.data != [] || HasBit(g.flags, FIN) ==> InStream(n, g, off)
    ensures ClosedOnceCounted(n.(c := Accept(n.c, g)))
  {
    hide HasBit, Send, DataStage, FinStage, AckStage;
    var a := AckStage(n.c, g);
    assert a.(sndUna := n.c.sndUna) == n.c && a.Valid() by { hide *; UnaOnly(n.c, g); }
    if !HasBit(g.flags, RST) {
      var b := DataStage(a, g);
      DataStageKeeps(n.irs, n.stream, n.taken, a, g, off);
      FinStageKeeps(n.irs, n.stream, n.taken, b, g, off);
      StagesOnlyAck(a, g);
      StagesOnlyAck(b, g);
    }
  }

  lemma {:induction false} UnaOnly(s: Tcp, g: Segment)
    requires s.Valid() && g.Valid()
    ensures AckStage(s, g).(sndUna := s.sndUna) == s
  {
    hide HasBit;
  }

  lemma {:induction false} RunCloses(n: Net, es: seq<Event>)
    requires Inv(n) && ClosedOnceCounted(n) && Run(n, es)
    ensures ClosedOnceCounted(After(n, es))
    decreases |es|
  {
    if es != [] {
      hide Inv, ClosedOnceCounted, Next, Enabled;
      EventKeeps(n, es[0]);
      EventCloses(n, es[0]);
      RunCloses(Next(n, es[0]), es[1..]);
    }
  }

  /** A stream that ends with the connection is read to its end: after any run without overflow in which the peer's FIN
      was counted, the reads together return just the rest of the stream, as much of it as they have room for, and no
      read fails before all of it is returned. */
  lemma {:induction false} ReadsFinishStream(n: Net, es: seq<Event>, calls: seq<ReadCall>)
    requires Inv(n) && Lossless(n.irs, n.stream, n.taken, n.c) && ClosedOnceCounted(n)
    requires Run(n, es) && !SomeOverflow(n, es) && Count(n.irs, After(n, es).c) == |n.stream| + 1
    requires forall i :: 0 <= i < |calls| ==> calls[i].cap > 0
    ensures var z := After(n, es);
            var left := |n.stream| - |z.taken|;
            && left >= 0
            && z.taken + Collected(Reads(z.c, calls)) == n.stream[..|z.taken| + Min(left, Room(calls))]
            && (forall i :: 0 <= i < |calls| ==> (Reads(z.c, calls)[i].None? <==> Room(calls[..i]) >= left))
  {
    hide Inv, Honest, Reads, Collected, Run, After, SomeOverflow;
    InvBasics(n);
    RunKeeps(n, es);
    RunCloses(n, es);
    var z := After(n, es);
    ReadsDrain(z.c, calls);
    assert n.stream[..|n.stream|] == n.stream;
    assert z.taken + z.c.out == n.stream;
    var m := Min(|z.c.out|, Room(calls));
    assert (z.taken + z.c.out)[..|z.taken| + m] == z.taken + z.c.out[..m];
  }

  lemma {:induction false} InvBasics(n: Net)
    requires Inv(n)
    ensures n.c.Valid() && |n.stream| + 1 < U32
  {
  }
}
