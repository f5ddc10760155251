/** TCP segments on the wire: what `send_tcp` emits and what `handle_tcp` reads back. */
module TcpSegment {
  import opened Bytes
  import opened Checksum

  const FIN: nat := 0x01
  const SYN: nat := 0x02
  const RST: nat := 0x04
  const ACK: nat := 0x10

  datatype Segment = Segment(srcPort: nat, dstPort: nat, seqNo: nat, ackNo: nat, flags: byte, data: seq<byte>)
  {
    ghost predicate Valid() {
      srcPort < U16 && dstPort < U16 && seqNo < U32 && ackNo < U32
    }
  }

  /** The reading side: the data offset must name a header inside the segment. */
  function Parse(p: seq<byte>): (r: Option<Segment>)
    ensures r.Some? ==> r.value.Valid() && |r.value.data| <= |p| - 20
  {
    if |p| < 20 then None
    else
      var headerLen := (p[12] as int / 16) * 4;
      if headerLen < 20 || headerLen > |p| then None
      else Some(Segment(Get16(p, 0), Get16(p, 2), Get32(p, 4), Get32(p, 8), p[13], p[headerLen..]))
  }

  /** The twenty header bytes with a zero checksum field, followed by the data. */
  function Unsummed(g: Segment): (p: seq<byte>)
    requires g.Valid()
    ensures |p| == 20 + |g.data| && p[16] == 0 && p[17] == 0
  {
    Put16(g.srcPort) + Put16(g.dstPort) + Put32(g.seqNo) + Put32(g.ackNo)
    + [0x50, g.flags] + Put16(4096) + [0, 0, 0, 0] + g.data
  }

  function Packet(src: seq<byte>, dst: seq<byte>, g: Segment): (p: seq<byte>)
    requires |src| == 4 && |dst| == 4 && g.Valid()
    ensures |p| == 20 + |g.data|
  {
    var u := Unsummed(g);
    Splice(u, 16, Put16(Sum16(Pseudo(src, dst, |u|) + u)))
  }

  /** Reading an emitted segment gives back the segment. */
  lemma {:induction false} PacketParses(src: seq<byte>, dst: seq<byte>, g: Segment)
    requires |src| == 4 && |dst| == 4 && g.Valid()
    ensures Parse(Packet(src, dst, g)) == Some(g)
  {
    var u := Unsummed(g);
    var p := Packet(src, dst, g);
    assert p[0..2] == u[0..2] == Put16(g.srcPort);
    assert p[2..4] == u[2..4] == Put16(g.dstPort);
    assert p[4..8] == u[4..8] == Put32(g.seqNo);
    assert p[8..12] == u[8..12] == Put32(g.ackNo);
    assert p[20..] == u[20..] == g.data;
    assert p[12] == u[12] == 0x50 && p[13] == u[13] == g.flags;
    FieldAt(p, 0);
    FieldAt(p, 2);
    FieldAt(p, 4);
    FieldAt(p, 8);
  }

  lemma {:induction false} FieldAt(p: seq<byte>, o: nat)
    requires o + 4 <= |p|
    ensures Get16(p, o) == Get16(p[o..o + 2], 0) && Get32(p, o) == Get32(p[o..o + 4], 0)
  {
  }

  /** The segment byte by byte, most significant byte first: ports, numbers, five header words, flags, a window of 4096
      bytes, no urgent data, then the data (section 3.1 of RFC 9293). */
  lemma {:induction false} PacketBytes(src: seq<byte>, dst: seq<byte>, g: Segment)
    requires |src| == 4 && |dst| == 4 && g.Valid()
    ensures var p := Packet(src, dst, g);
            && |p| == 20 + |g.data| && p[20..] == g.data
            && g.srcPort == Big(p[..2]) && g.dstPort == Big(p[2..4])
            && g.seqNo == Big(p[4..8]) && g.ackNo == Big(p[8..12])
            && p[12] == 0x50 && p[13] == g.flags && p[14] == 0x10 && p[15] == 0 && p[18] == 0 && p[19] == 0
  {
    hide Sum16, Pseudo;
    var u, p := Unsummed(g), Packet(src, dst, g);
    assert u[14..16] == Put16(4096);
    assert forall i :: 0 <= i < 16 || 18 <= i < |p| ==> p[i] == u[i];
    assert p[..2] == u[..2] == Put16(g.srcPort) && p[2..4] == u[2..4] == Put16(g.dstPort);
    assert p[4..8] == u[4..8] == Put32(g.seqNo) && p[8..12] == u[8..12] == Put32(g.ackNo);
    PutIsBig(g.srcPort % U16, g.seqNo);
    PutIsBig(g.dstPort % U16, g.ackNo);
    assert p[20..] == g.data;
  }

  /** Every emitted segment verifies against its pseudo-header (section 3.1 of RFC 9293). */
  lemma {:induction false} PacketVerifies(src: seq<byte>, dst: seq<byte>, g: Segment)
    requires |src| == 4 && |dst| == 4 && g.Valid()
    ensures Sum16(Pseudo(src, dst, |Packet(src, dst, g)|) + Packet(src, dst, g)) == 0
  {
    var u := Unsummed(g);
    var whole := Pseudo(src, dst, |u|) + u;
    StoredChecksumVerifies(whole, 28, 0);
    assert Splice(whole, 28, Put16(Sum16(whole))) == Pseudo(src, dst, |u|) + Packet(src, dst, g);
  }
}

/** The one-connection TCP client of kernel/net.c: its state as a value, and the transitions its handlers make.
    Sizes are those of the 64-bit kernel: sequence numbers are 32 bits wide, lengths are not. */
module TcpClient {
  import opened Bytes
  import opened TcpSegment

  const MAX_CHUNK: nat := 1200
  const PSH_ACK: byte := 0x18

  /** `event`: 1 connecting, 2 connected, 3 data arrived, 4 peer closed, -1 reset. `sent` is every TCP packet handed
      to the IP layer so far. */
  datatype Tcp = Tcp(localIp: seq<byte>, peerIp: seq<byte>, localPort: nat, peerPort: nat, event: int,
                     sndNxt: nat, sndUna: nat, rcvNxt: nat, out: seq<byte>, cap: nat, sent: seq<seq<byte>>)
  {
    ghost predicate Valid() {
      && |localIp| == 4 && |peerIp| == 4 && localPort < U16 && peerPort < U16
      && sndNxt < U32 && sndUna < U32 && rcvNxt < U32 && |out| <= cap
    }

    function Outgoing(flags: byte, data: seq<byte>): Segment {
      Segment(localPort, peerPort, sndNxt, rcvNxt, flags, data)
    }
  }

  /** `send_tcp`: emit, then advance SND.NXT over SYN, FIN and data. */
  function Send(s: Tcp, flags: byte, data: seq<byte>): (t: Tcp)
    requires s.Valid()
    ensures t.Valid()
  {
    var syn := if HasBit(flags, SYN) then 1 else 0;
    var fin := if HasBit(flags, FIN) then 1 else 0;
    s.(sent := s.sent + [Packet(s.localIp, s.peerIp, s.Outgoing(flags, data))],
       sndNxt := (s.sndNxt + syn + fin + |data|) % U32)
  }

  function AckStage(s: Tcp, g: Segment): (t: Tcp)
    requires s.Valid() && g.Valid()
    ensures t.Valid()
  {
    if HasBit(g.flags, ACK) && s.sndUna <= g.ackNo <= s.sndNxt then s.(sndUna := g.ackNo) else s
  }

  predicate InOrderData(s: Tcp, g: Segment) {
    g.data != [] && g.seqNo == s.rcvNxt
  }

  function DataStage(s: Tcp, g: Segment): (t: Tcp)
    requires s.Valid() && g.Valid()
    ensures t.Valid()
  {
    if InOrderData(s, g) then
      var copy := Min(|g.data|, s.cap - |s.out|);
      Send(s.(out := s.out + g.data[..copy], rcvNxt := (s.rcvNxt + |g.data|) % U32), 0x10, []).(event := 3)
    else s
  }

  function FinStage(s: Tcp, g: Segment): (t: Tcp)
    requires s.Valid() && g.Valid()
    ensures t.Valid()
  {
    if HasBit(g.flags, FIN) then
      var next := if g.seqNo + |g.data| == s.rcvNxt then (s.rcvNxt + 1) % U32 else s.rcvNxt;
      Send(s.(rcvNxt := next), 0x10, []).(event := 4)
    else s
  }

  predicate IsSynAck(s: Tcp, g: Segment) {
    HasBit(g.flags, ACK) && HasBit(g.flags, SYN) && s.event == 1 && g.ackNo == s.sndNxt
  }

  function Accept(s: Tcp, g: Segment): (t: Tcp)
    requires s.Valid() && g.Valid()
    ensures t.Valid()
  {
    var a := AckStage(s, g);
    if IsSynAck(a, g) then Send(a.(rcvNxt := (g.seqNo + 1) % U32, event := 2), 0x10, [])
    else if HasBit(g.flags, RST) then a.(event := -1)
    else FinStage(DataStage(a, g), g)
  }

  /** `handle_tcp`: segments of other hosts, other ports or with a bad header length are ignored. */
  function Handle(s: Tcp, src: seq<byte>, p: seq<byte>): (t: Tcp)
    requires s.Valid()
    ensures t.Valid()
  {
    match Parse(p)
    case None => s
    case Some(g) =>
      if src != s.peerIp || g.srcPort != s.peerPort || g.dstPort != s.localPort then s else Accept(s, g)
  }

  // What the client does, as a list of actions

  datatype Action = Deliver(src: seq<byte>, packet: seq<byte>) | Chunk(data: seq<byte>)

  function Act(s: Tcp, a: Action): (t: Tcp)
    requires s.Valid()
    ensures t.Valid()
  {
    match a
    case Deliver(src, p) => Handle(s, src, p)
    case Chunk(d) => Send(s, PSH_ACK, d)
  }

  function Replay(s: Tcp, acts: seq<Action>): (t: Tcp)
    requires s.Valid()
    ensures t.Valid()
    decreases |acts|
  {
    hide Act;
    if acts == [] then s else Replay(Act(s, acts[0]), acts[1..])
  }

  lemma {:induction false} ReplayConcat(s: Tcp, a: seq<Action>, b: seq<Action>)
    requires s.Valid()
    ensures Replay(s, a + b) == Replay(Replay(s, a), b)
    decreases |a|
  {
    hide Act;
    if a == [] {
      assert a + b == b;
    } else {
      ReplayConcat(Act(s, a[0]), a[1..], b);
      assert (a + b)[1..] == a[1..] + b;
    }
  }

  lemma {:induction false} ReplayNothing(s: Tcp)
    requires s.Valid()
    ensures Replay(s, []) == s
  {
  }

  lemma {:induction false} ReplayChunk(s: Tcp, data: seq<byte>, acts: seq<Action>)
    requires s.Valid()
    ensures Replay(s, [Chunk(data)] + acts) == Replay(Send(s, PSH_ACK, data), acts)
  {
    hide Send;
    assert ([Chunk(data)] + acts)[1..] == acts;
  }

  /** A batch is what one `net_poll` delivers: TCP payloads with their source address. */
  type Batch = seq<(seq<byte>, seq<byte>)>

  function Deliveries(b: Batch): (acts: seq<Action>)
    ensures |acts| == |b| && forall i :: 0 <= i < |b| ==> acts[i] == Deliver(b[i].0, b[i].1)
  {
    seq(|b|, i requires 0 <= i < |b| => Deliver(b[i].0, b[i].1))
  }

  /** The polling loop of `net_tcp_write`; `polls` lists the deliveries of the polls that fit before the deadline. */
  function Await(s: Tcp, want: nat, polls: seq<Batch>): (acts: seq<Action>)
    requires s.Valid()
    decreases |polls|
  {
    if s.sndUna < want && polls != [] && s.event >= 0 then
      var acts := Deliveries(polls[0]);
      acts + Await(Replay(s, acts), want, polls[1..])
    else []
  }

  datatype WriteRun = WriteRun(acts: seq<Action>, ok: bool)

  /** `net_tcp_write`: `waits[i]` are the polls that fit into the wait for the i-th chunk. */
  function Write(s: Tcp, data: seq<byte>, waits: seq<seq<Batch>>): (w: WriteRun)
    requires s.Valid()
    decreases |data|
  {
    if data == [] then WriteRun([], true)
    else
      var n := Min(MAX_CHUNK, |data|);
      var s1 := Send(s, PSH_ACK, data[..n]);
      var first := [Chunk(data[..n])] + Await(s1, s1.sndNxt, if waits == [] then [] else waits[0]);
      if Replay(s, first).sndUna < s1.sndNxt then WriteRun(first, false)
      else
        var rest := Write(Replay(s, first), data[n..], if waits == [] then [] else waits[1..]);
        WriteRun(first + rest.acts, rest.ok)
  }

  /** The data a list of actions hands to `send_tcp`, in order. */
  function Chunks(acts: seq<Action>): seq<byte> {
    if acts == [] then []
    else (if acts[0].Chunk? then acts[0].data else []) + Chunks(acts[1..])
  }

  lemma {:induction false} ChunksConcat(a: seq<Action>, b: seq<Action>)
    ensures Chunks(a + b) == Chunks(a) + Chunks(b)
  {
    if a == [] {
      assert a + b == b;
    } else {
      ChunksConcat(a[1..], b);
      assert (a + b)[1..] == a[1..] + b;
      Assoc(if a[0].Chunk? then a[0].data else [], Chunks(a[1..]), Chunks(b));
    }
  }

  // The polling loop of net_tcp_read

  datatype ReadRun = ReadRun(acts: seq<Action>, result: Option<seq<byte>>)

  /** `net_tcp_read` with a buffer of `cap` bytes: None stands for its -1. */
  function Read(s: Tcp, cap: nat, polls: seq<Batch>): (r: ReadRun)
    requires s.Valid()
    decreases |polls|
  {
    if s.out != [] then ReadRun([], Some(s.out[..Min(|s.out|, cap)]))
    else if s.event < 0 || s.event == 4 || polls == [] then ReadRun([], None)
    else
      var acts := Deliveries(polls[0]);
      var rest := Read(Replay(s, acts), cap, polls[1..]);
      ReadRun(acts + rest.acts, rest.result)
  }

  // What the polling loops mean: nothing here mentions `Read` or `Await`

  /** Everything that these polls deliver, in order. */
  function Arrivals(polls: seq<Batch>): seq<Action> {
    if polls == [] then [] else Deliveries(polls[0]) + Arrivals(polls[1..])
  }

  /** The client after the first k polls. */
  function Polled(s: Tcp, polls: seq<Batch>, k: nat): (t: Tcp)
    requires s.Valid() && k <= |polls|
    ensures t.Valid()
  {
    Replay(s, Arrivals(polls[..k]))
  }

  lemma {:induction false} PolledLater(s: Tcp, polls: seq<Batch>, k: nat)
    requires s.Valid() && k < |polls|
    ensures Polled(s, polls, 0) == s && Arrivals(polls[..0]) == []
    ensures Arrivals(polls[..k + 1]) == Deliveries(polls[0]) + Arrivals(polls[1..][..k])
    ensures Polled(s, polls, k + 1) == Polled(Replay(s, Deliveries(polls[0])), polls[1..], k)
  {
    hide Replay, Deliveries;
    assert polls[..k + 1][0] == polls[0] && polls[..k + 1][1..] == polls[1..][..k];
    ReplayConcat(s, Deliveries(polls[0]), Arrivals(polls[1..][..k]));
    ReplayNothing(s);
  }

  /** The read polled k times, each time with nothing buffered and the connection still open. Then it returns what is
      buffered, as much as fits, and removes it; it fails if there is still nothing and the peer has closed, the
      connection is reset, or no poll is left. */
  ghost predicate ReadEndsAt(s: Tcp, cap: nat, polls: seq<Batch>, k: nat, result: Option<seq<byte>>, after: Tcp)
    requires s.Valid() && k <= |polls|
  {
    && (forall j :: 0 <= j < k ==> var t := Polled(s, polls, j); t.out == [] && t.event >= 0 && t.event != 4)
    && var z := Polled(s, polls, k);
       if z.out != [] then
         result == Some(z.out[..Min(|z.out|, cap)]) && after == z.(out := z.out[Min(|z.out|, cap)..])
       else
         result == None && after == z && (z.event < 0 || z.event == 4 || k == |polls|)
  }

  lemma {:induction false} ReadEnds(s: Tcp, cap: nat, polls: seq<Batch>) returns (k: nat)
    requires s.Valid()
    ensures k <= |polls| && Read(s, cap, polls).acts == Arrivals(polls[..k])
    ensures var z := Polled(s, polls, k);
            ReadEndsAt(s, cap, polls, k, Read(s, cap, polls).result, z.(out := z.out[Min(|z.out|, cap)..]))
    decreases |polls|
  {
    hide Replay;
    ReplayNothing(s);
    assert polls[..0] == [];
    if s.out != [] || s.event < 0 || s.event == 4 || polls == [] {
      k := 0;
    } else {
      var t := Replay(s, Deliveries(polls[0]));
      var m := ReadEnds(t, cap, polls[1..]);
      k := m + 1;
      PolledLater(s, polls, m);
      forall j | 0 <= j < k ensures var u := Polled(s, polls, j); u.out == [] && u.event >= 0 && u.event != 4 {
        if j > 0 { PolledLater(s, polls, j - 1); }
      }
    }
  }

  /** A read fails exactly when nothing is buffered after any of the polls up to one after which the peer has closed,
      the connection is reset, or no poll is left. */
  lemma {:induction false} ReadFailsIff(s: Tcp, cap: nat, polls: seq<Batch>)
    requires s.Valid()
    ensures Read(s, cap, polls).result.None? <==>
            exists k | 0 <= k <= |polls| ::
              && (forall j :: 0 <= j <= k ==> Polled(s, polls, j).out == [])
              && (k == |polls| || Polled(s, polls, k).event < 0 || Polled(s, polls, k).event == 4)
    ensures s.out != [] ==> Read(s, cap, polls).result == Some(s.out[..Min(|s.out|, cap)])
  {
    hide Replay, Arrivals;
    var m := ReadEnds(s, cap, polls);
  }

  /** The wait for an acknowledgement polled k times, each time with `want` unacknowledged and the connection not
      reset, and it ended for one of three reasons. */
  ghost predicate WaitEndsAt(s: Tcp, want: nat, polls: seq<Batch>, k: nat, after: Tcp)
    requires s.Valid() && k <= |polls|
  {
    && (forall j :: 0 <= j < k ==> Polled(s, polls, j).sndUna < want && Polled(s, polls, j).event >= 0)
    && after == Polled(s, polls, k)
    && (after.sndUna >= want || after.event < 0 || k == |polls|)
  }

  lemma {:induction false} AwaitEnds(s: Tcp, want: nat, polls: seq<Batch>) returns (k: nat)
    requires s.Valid()
    ensures k <= |polls| && Await(s, want, polls) == Arrivals(polls[..k])
    ensures WaitEndsAt(s, want, polls, k, Replay(s, Await(s, want, polls)))
    decreases |polls|
  {
    hide Replay;
    ReplayNothing(s);
    assert polls[..0] == [];
    if s.sndUna < want && polls != [] && s.event >= 0 {
      var m := AwaitEnds(Replay(s, Deliveries(polls[0])), want, polls[1..]);
      k := m + 1;
      PolledLater(s, polls, m);
      forall j | 0 <= j < k ensures Polled(s, polls, j).sndUna < want && Polled(s, polls, j).event >= 0 {
        if j > 0 { PolledLater(s, polls, j - 1); }
      }
    } else {
      k := 0;
    }
  }

  /** `net_tcp_connect` once the address is resolved: reset the state and emit the SYN. */
  function Connect(s: Tcp, peerIp: seq<byte>, localPort: nat, peerPort: nat, iss: nat, cap: nat): (t: Tcp)
    requires s.Valid() && |peerIp| == 4 && localPort < U16 && peerPort < U16 && iss < U32
    ensures t.Valid()
  {
    Send(s.(peerIp := peerIp, localPort := localPort, peerPort := peerPort, event := 1, sndNxt := iss, sndUna := iss,
            rcvNxt := 0, out := [], cap := cap), 0x02, [])
  }

  lemma {:induction false} StepwiseWrap(x: nat, a: nat, b: nat, n: nat)
    requires x < U32 && a <= 1 && b <= 1
    ensures (((x + a) % U32 + b) % U32 + n) % U32 == (x + a + b + n) % U32
    ensures a == 0 ==> (x + a) % U32 == x
    ensures b == 0 ==> ((x + a) % U32 + b) % U32 == (x + a) % U32
  {
  }

  /** One turn of the write loop, as `Write` unfolds it. */
  lemma {:induction false} WriteTurn(s: Tcp, data: seq<byte>, waits: seq<seq<Batch>>)
    requires s.Valid() && data != []
    ensures var n := Min(MAX_CHUNK, |data|);
            var s1 := Send(s, PSH_ACK, data[..n]);
            var first := [Chunk(data[..n])] + Await(s1, s1.sndNxt, if waits == [] then [] else waits[0]);
            var s2 := Replay(s1, Await(s1, s1.sndNxt, if waits == [] then [] else waits[0]));
            var rest := Write(s2, data[n..], if waits == [] then [] else waits[1..]);
            && s2 == Replay(s, first)
            && Write(s, data, waits)
            == if s2.sndUna < s1.sndNxt then WriteRun(first, false) else WriteRun(first + rest.acts, rest.ok)
  {
    hide Send, Replay, Await;
    var n := Min(MAX_CHUNK, |data|);
    var s1 := Send(s, PSH_ACK, data[..n]);
    ReplayChunk(s, data[..n], Await(s1, s1.sndNxt, if waits == [] then [] else waits[0]));
  }

  /** Where the write loop stands: `done` led from `start` to `s`, and writing the rest from `s` completes `whole`. */
  ghost predicate Underway(whole: WriteRun, start: Tcp, done: seq<Action>, s: Tcp, data: seq<byte>,
                           waits: seq<seq<Batch>>) {
    && start.Valid() && s.Valid() && s == Replay(start, done)
    && whole == WriteRun(done + Write(s, data, waits).acts, Write(s, data, waits).ok)
  }

  /** The same, for the loop's own counters: `off` bytes are acknowledged, `i` waits are over. */
  ghost predicate UnderwayAt(whole: WriteRun, start: Tcp, done: seq<Action>, s: Tcp,
                             data: seq<byte>, off: nat, waits: seq<seq<Batch>>, i: nat)
    requires off <= |data|
  {
    Underway(whole, start, done, s, data[off..], if i <= |waits| then waits[i..] else [])
  }

  lemma {:induction false} WriteBegins(s: Tcp, data: seq<byte>, waits: seq<seq<Batch>>)
    requires s.Valid()
    ensures UnderwayAt(Write(s, data, waits), s, [], s, data, 0, waits, 0)
  {
    assert data[0..] == data && waits[0..] == waits;
  }

  lemma {:induction false} WriteAdvancesAt(whole: WriteRun, start: Tcp, done: seq<Action>, s: Tcp, data: seq<byte>,
                                           off: nat,
                        waits: seq<seq<Batch>>, i: nat, first: seq<Action>, s2: Tcp)
    requires off < |data| && UnderwayAt(whole, start, done, s, data, off, waits, i) && s.Valid()
    requires var n := Min(MAX_CHUNK, |data| - off);
             var s1 := Send(s, PSH_ACK, data[off..off + n]);
             && first == [Chunk(data[off..off + n])] + Await(s1, s1.sndNxt, if i < |waits| then waits[i] else [])
             && s2 == Replay(s, first)
    ensures var n := Min(MAX_CHUNK, |data| - off);
            if s2.sndUna < Send(s, PSH_ACK, data[off..off + n]).sndNxt then s2 == Replay(start, whole.acts) && !whole.ok
            else UnderwayAt(whole, start, done + first, s2, data, off + n, waits, i + 1)
  {
    hide Send, Replay, Await, Write, Underway;
    var n := Min(MAX_CHUNK, |data| - off);
    var left := if i <= |waits| then waits[i..] else [];
    assert data[off..][..n] == data[off..off + n] && data[off..][n..] == data[off + n..];
    assert left != [] ==> left[0] == waits[i] && left[1..] == waits[i + 1..];
    WriteAdvances(whole, start, done, s, data[off..], left, first, s2);
  }

  lemma {:induction false} WriteAdvances(whole: WriteRun, start: Tcp, done: seq<Action>, s: Tcp, data: seq<byte>,
                                         waits: seq<seq<Batch>>,
                      first: seq<Action>, s2: Tcp)
    requires Underway(whole, start, done, s, data, waits) && data != []
    requires var n := Min(MAX_CHUNK, |data|);
             var s1 := Send(s, PSH_ACK, data[..n]);
             && first == [Chunk(data[..n])] + Await(s1, s1.sndNxt, if waits == [] then [] else waits[0])
             && s2 == Replay(s, first)
    ensures var want := Send(s, PSH_ACK, data[..Min(MAX_CHUNK, |data|)]).sndNxt;
            if s2.sndUna < want then s2 == Replay(start, whole.acts) && !whole.ok
            else Underway(whole, start, done + first, s2, data[Min(MAX_CHUNK, |data|)..],
                          if waits == [] then [] else waits[1..])
  {
    hide Send, Replay, Await, Write, Packet;
    WriteTurn(s, data, waits);
    ReplayConcat(start, done, first);
    var rest := Write(s2, data[Min(MAX_CHUNK, |data|)..], if waits == [] then [] else waits[1..]);
    assert done + (first + rest.acts) == (done + first) + rest.acts;
  }

  lemma {:induction false} WriteEnds(whole: WriteRun, start: Tcp, done: seq<Action>, s: Tcp, data: seq<byte>,
                                     waits: seq<seq<Batch>>, i: nat)
    requires UnderwayAt(whole, start, done, s, data, |data|, waits, i)
    requires start.Valid()
    ensures whole.ok && s == Replay(start, whole.acts)
  {
    assert data[|data|..] == [];
    assert done + [] == done;
  }

  // The kernel's own form: static variables updated by handlers

  class Engine {
    var localIp: seq<byte>
    var peerIp: seq<byte>
    var localPort: nat
    var peerPort: nat
    var event: int
    var sndNxt: nat
    var sndUna: nat
    var rcvNxt: nat
    var out: array<byte>
    var outLen: nat
    var sent: seq<seq<byte>>

    ghost function View(): Tcp
      reads this, out
      requires outLen <= out.Length
    {
      Tcp(localIp, peerIp, localPort, peerPort, event, sndNxt, sndUna, rcvNxt, out[..outLen], out.Length, sent)
    }

    ghost predicate Valid()
      reads this, out
      ensures Valid() ==> outLen <= out.Length && View().Valid()
    {
      outLen <= out.Length && View().Valid()
    }

    constructor (ip: seq<byte>, buffer: array<byte>)
      requires |ip| == 4
      ensures Valid() && localIp == ip && out == buffer && sent == [] && outLen == 0
    {
      localIp, peerIp := ip, [0, 0, 0, 0];
      localPort, peerPort, event, sndNxt, sndUna, rcvNxt := 0, 0, 0, 0, 0, 0;
      out, outLen, sent := buffer, 0, [];
    }

    method SendTcp(flags: byte, data: seq<byte>)
      requires Valid() && |data| <= 1460
      modifies this`sent, this`sndNxt
      ensures Valid() && View() == Send(old(View()), flags, data)
    {
      ghost var g := View().Outgoing(flags, data);
      var packet := BuildPacket(flags, data);
      hide Packet;
      sent := sent + [packet];
      ghost var x := sndNxt;
      ghost var syn := if HasBit(flags, SYN) then 1 else 0;
      ghost var fin := if HasBit(flags, FIN) then 1 else 0;
      if HasBit(flags, SYN) { sndNxt := (sndNxt + 1) % U32; }
      if HasBit(flags, FIN) { sndNxt := (sndNxt + 1) % U32; }
      sndNxt := (sndNxt + |data|) % U32;
      assert sndNxt == (x + syn + fin + |data|) % U32 by { StepwiseWrap(x, syn, fin, |data|); }
    }

    method BuildPacket(flags: byte, data: seq<byte>) returns (packet: seq<byte>)
      requires Valid() && |data| <= 1460
      ensures packet == Packet(localIp, peerIp, View().Outgoing(flags, data))
    {
      hide Unsummed, Put16, Checksum.Sum16, Checksum.Pseudo, Checksum.WordSum;
      var g := Segment(localPort, peerPort, sndNxt, rcvNxt, flags, data);
      var p := new byte[1500](_ => 0);
      var len := 20 + |data|;
      CopyInto(p, 0, Unsummed(g));
      assert p[..len] == Unsummed(g);
      var check := Checksum.TcpChecksum(localIp, peerIp, p[..len]);
      CopyInto(p, 16, Put16(check));
      assert p[..len] == Splice(Unsummed(g), 16, Put16(check));
      packet := p[..len];
    }

    /** `handle_tcp`. The two stages after the reset check are split off; they run in this order. */
    method HandleTcp(p: seq<byte>, src: seq<byte>)
      requires Valid()
      modifies this, out
      ensures Valid() && out == old(out) && View() == Handle(old(View()), src, p)
    {
      hide Send, Get16, Get32, HasBit, DataStage, FinStage;
      if |p| < 20 || src != peerIp { return; }
      if Get16(p, 0) != peerPort || Get16(p, 2) != localPort { return; }
      var seqNo, ackNo, flags := Get32(p, 4), Get32(p, 8), p[13];
      var headerLen := (p[12] as int / 16) * 4;
      if headerLen < 20 || headerLen > |p| { return; }
      ghost var g := Parse(p).value;
      if HasBit(flags, ACK) && sndUna <= ackNo <= sndNxt { sndUna := ackNo; }
      ghost var acked := View();
      if HasBit(flags, ACK) && HasBit(flags, SYN) && event == 1 && ackNo == sndNxt {
        rcvNxt, event := (seqNo + 1) % U32, 2;
        SendTcp(0x10, []);
        return;
      }
      if HasBit(flags, RST) {
        event := -1;
        return;
      }
      TakeData(seqNo, p[headerLen..], g);
      TakeFin(flags, seqNo, |p| - headerLen, g);
    }

    method TakeData(seqNo: nat, data: seq<byte>, ghost g: Segment)
      requires Valid() && g.Valid() && g.seqNo == seqNo && g.data == data
      modifies this, out
      ensures Valid() && out == old(out) && View() == DataStage(old(View()), g)
    {
      hide Send, Splice;
      if data != [] && seqNo == rcvNxt {
        ghost var s := View();
        var copy := if |data| < out.Length - outLen then |data| else out.Length - outLen;
        SpliceFront(out[..], outLen, data[..copy]);
        CopyInto(out, outLen, data[..copy]);
        outLen := outLen + copy;
        rcvNxt := (rcvNxt + |data|) % U32;
        SendTcp(0x10, []);
        event := 3;
      }
    }

    method TakeFin(flags: byte, seqNo: nat, dataLen: nat, ghost g: Segment)
      requires Valid() && g.Valid() && g.seqNo == seqNo && |g.data| == dataLen && g.flags == flags
      modifies this
      ensures Valid() && out == old(out) && View() == FinStage(old(View()), g)
    {
      hide Send;
      if HasBit(flags, FIN) {
        if seqNo + dataLen == rcvNxt { rcvNxt := (rcvNxt + 1) % U32; }
        SendTcp(0x10, []);
        event := 4;
      }
    }

    /** `net_poll` as far as TCP is concerned: the handler runs on every delivered packet. */
    method Poll(batch: Batch)
      requires Valid()
      modifies this, out
      ensures Valid() && out == old(out) && View() == Replay(old(View()), Deliveries(batch))
    {
      ghost var acts := Deliveries(batch);
      for i := 0 to |batch|
        invariant Valid() && out == old(out)
        invariant Replay(View(), acts[i..]) == Replay(old(View()), acts)
      {
        HandleTcp(batch[i].1, batch[i].0);
        assert acts[i..][1..] == acts[i + 1..];
      }
    }

    method NetTcpConnect(ip: seq<byte>, local: nat, port: nat, ticks: nat)
      requires Valid() && |ip| == 4 && local < U16 && port < U16
      modifies this
      ensures Valid() && out == old(out)
      ensures View() == Connect(old(View()), ip, local, port, (0x13570000 + ticks) % U32, out.Length)
    {
      peerIp, localPort, peerPort := ip, local, port;
      sndNxt := (0x13570000 + ticks) % U32;
      sndUna, rcvNxt, event, outLen := sndNxt, 0, 1, 0;
      SendTcp(0x02, []);
    }

    /** `net_tcp_read`; the copied-out bytes leave the buffer and the rest moves to its front. */
    method NetTcpRead(cap: nat, polls: seq<Batch>) returns (result: Option<seq<byte>>)
      requires Valid() && cap > 0
      modifies this, out
      ensures Valid() && out == old(out)
      ensures var run := Read(old(View()), cap, polls);
              var s := Replay(old(View()), run.acts);
              && result == run.result
              && (result.Some? ==> result.value != [] && result.value <= s.out)
              && View() == s.(out := if result.Some? then s.out[|result.value|..] else s.out)
      ensures exists k :: 0 <= k <= |polls| && ReadEndsAt(old(View()), cap, polls, k, result, View())
      ensures old(View()).out != [] ==> result == Some(old(View()).out[..Min(|old(View()).out|, cap)])
    {
      hide Replay, ReadEndsAt;
      ghost var start := View();
      ghost var done: seq<Action> := [];
      assert View() == Replay(start, done) by { ReplayNothing(start); }
      ghost var stop := ReadEnds(start, cap, polls);
      var k := 0;
      while true
        invariant 0 <= k <= |polls| && Valid() && out == old(out)
        invariant View() == Replay(start, done)
        invariant Read(start, cap, polls) == ReadRun(done + Read(View(), cap, polls[k..]).acts,
                                                     Read(View(), cap, polls[k..]).result)
        decreases |polls| - k
      {
        ghost var here := Read(View(), cap, polls[k..]);
        assert done + [] == done;
        if outLen > 0 {
          var n := if outLen < cap then outLen else cap;
          result := Some(out[..n]);
          assert out[..outLen] != [] && out[..outLen][..n] == out[..n];
          assert here == ReadRun([], result);
          ShiftDown(n);
          return;
        }
        assert out[..outLen] == [];
        if event < 0 || event == 4 { return None; }
        if k == |polls| { return None; }
        ghost var acts := Deliveries(polls[k]);
        Poll(polls[k]);
        assert polls[k..][1..] == polls[k + 1..];
        ReplayConcat(start, done, acts);
        assert done + (acts + Read(View(), cap, polls[k + 1..]).acts)
          == (done + acts) + Read(View(), cap, polls[k + 1..]).acts;
        done := done + acts;
        k := k + 1;
      }
    }

    method ShiftDown(n: nat)
      requires Valid() && n <= outLen
      modifies this`outLen, out
      ensures Valid() && View() == old(View()).(out := old(out[n..outLen]))
    {
      for i := n to outLen
        invariant outLen == old(outLen)
        invariant forall j :: 0 <= j < i - n ==> out[j] == old(out[j + n])
        invariant forall j :: i <= j < out.Length ==> out[j] == old(out[j])
      {
        out[i - n] := out[i];
      }
      outLen := outLen - n;
      assert out[..outLen] == old(out[n..outLen]);
    }

    /** `net_tcp_write`: chunks of at most MAX_CHUNK bytes, each waited for before the next. */
    method NetTcpWrite(data: seq<byte>, waits: seq<seq<Batch>>) returns (ok: bool)
      requires Valid()
      modifies this, out
      ensures Valid() && out == old(out)
      ensures ok == Write(old(View()), data, waits).ok
      ensures View() == Replay(old(View()), Write(old(View()), data, waits).acts)
    {
      hide Write, Replay, Send, Await, Underway, UnderwayAt, Packet;
      ghost var start := View();
      ghost var done: seq<Action> := [];
      ghost var whole := Write(start, data, waits);
      WriteBegins(start, data, waits);
      var off, i := 0, 0;
      while off < |data|
        invariant 0 <= off <= |data| && 0 <= i
        invariant Valid() && out == old(out)
        invariant UnderwayAt(whole, start, done, View(), data, off, waits, i)
      {
        ghost var s := View();
        var n := Min(MAX_CHUNK, |data| - off);
        ghost var first: seq<Action>;
        ok, first := SendChunk(data[off..off + n], if i < |waits| then waits[i] else []);
        WriteAdvancesAt(whole, start, done, s, data, off, waits, i, first, View());
        if !ok { return; }
        done := done + first;
        off, i := off + n, i + 1;
      }
      WriteEnds(whole, start, done, View(), data, waits, i);
      ok := true;
    }

    /** One turn of the loop: emit the chunk and wait for its acknowledgement. */
    method SendChunk(chunk: seq<byte>, polls: seq<Batch>) returns (ok: bool, ghost first: seq<Action>)
      requires Valid() && |chunk| <= MAX_CHUNK
      modifies this, out
      ensures Valid() && out == old(out)
      ensures var s1 := Send(old(View()), PSH_ACK, chunk);
              && first == [Chunk(chunk)] + Await(s1, s1.sndNxt, polls)
              && View() == Replay(s1, Await(s1, s1.sndNxt, polls)) == Replay(old(View()), first)
              && ok == (View().sndUna >= s1.sndNxt)
    {
      hide Replay, Await, Send;
      ghost var s := View();
      SendTcp(PSH_ACK, chunk);
      ghost var s1 := View();
      var want := sndNxt;
      AwaitAck(want, polls);
      first := [Chunk(chunk)] + Await(s1, want, polls);
      ReplayChunk(s, chunk, Await(s1, want, polls));
      ok := sndUna >= want;
    }

    method AwaitAck(want: nat, polls: seq<Batch>)
      requires Valid()
      modifies this, out
      ensures Valid() && out == old(out)
      ensures View() == Replay(old(View()), Await(old(View()), want, polls))
      ensures exists k :: 0 <= k <= |polls| && WaitEndsAt(old(View()), want, polls, k, View())
    {
      hide Replay, WaitEndsAt;
      ghost var start := View();
      ghost var stop := AwaitEnds(start, want, polls);
      ghost var done: seq<Action> := [];
      assert View() == Replay(start, done) by { ReplayNothing(start); }
      var k := 0;
      while sndUna < want && k < |polls| && event >= 0
        invariant 0 <= k <= |polls| && Valid() && out == old(out)
        invariant View() == Replay(start, done)
        invariant Await(start, want, polls) == done + Await(View(), want, polls[k..])
        decreases |polls| - k
      {
        ghost var acts := Deliveries(polls[k]);
        Poll(polls[k]);
        assert polls[k..][1..] == polls[k + 1..];
        ReplayConcat(start, done, acts);
        assert done + (acts + Await(View(), want, polls[k + 1..]))
          == (done + acts) + Await(View(), want, polls[k + 1..]);
        done := done + acts;
        k := k + 1;
      }
      assert done + [] == done;
    }
  }
}
