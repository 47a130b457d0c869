/** A connect and any number of sends and receives with a firmware that answers each message with one response and one
    flow-control message (src/uefi/heci_efi.c:680-737, 798-811, 882-936). */
module FlowControl {
  import opened HeciRegisters
  import opened HeciPackets
  import opened HeciTable
  import opened HeciWire
  import opened HeciDelivery
  import opened HeciSession
  import opened HeciRuns

  // ---- one receive ----

  /** The messages received, all successfully, are taken from the front of the inbound queue. */
  ghost predicate Serves(queue: seq<Message>, seg: seq<Exchange>, rest: seq<Message>) {
    && |seg| <= |queue| && rest == queue[|seg|..]
    && forall k :: 0 <= k < |seg| ==> Delivers(seg[k], queue[k])
  }

  predicate LooksLikeFlowControl(m: Message) {
    |m| == 8 && m[0] == FLOW_CONTROL
  }

  /** What the firmware queues for one message: the order of the two is its own choice. */
  datatype Answer = Answer(response: Message, credit: Message, creditFirst: bool)

  function Queued(a: Answer): seq<Message> {
    if a.creditFirst then [a.credit, a.response] else [a.response, a.credit]
  }

  /** The connection whose receives take a flow-control message off the link with every response. */
  predicate Paired(conn: Connection, bdf: Bdf) {
    conn.properties.fixedAddress == 0 && bdf.func == 0
  }

  predicate Returns(m: Message, size: nat, bytesRead: Word, content: seq<Byte>) {
    bytesRead == |m| && Min(|m|, size) <= |content| && content[..Min(|m|, size)] == m[..Min(|m|, size)]
  }

  /** One receive takes both messages of an answer, and returns the response exactly when the response does not come
      first looking like a flow-control message, or cannot be told from the one that follows. */
  lemma OneReceive(conn: Connection, bdf: Bdf, a: Answer, size: Word, seg: seq<Exchange>, rest: seq<Message>, bytesRead: Word, content: seq<Byte>)
    requires Paired(conn, bdf) && size > 0 && LooksLikeFlowControl(a.credit)
    requires Serves(Queued(a), seg, rest) && ReceiveExchanges(conn, bdf, size, seg, bytesRead, content)
    ensures |seg| == 2 && rest == []
    ensures Returns(a.response, size, bytesRead, content) <==>
            a.creditFirst || !LooksLikeFlowControl(a.response) || a.response[..Min(8, size)] == a.credit[..Min(8, size)]
  {
    var q := Queued(a);
    assert Delivers(seg[0], q[0]);
    assert |q[0]| == 8 ==> seg[0].content[..Min(8, size)][0] == q[0][..Min(8, size)][0];
    assert IsFlowControl(seg[0]) <==> LooksLikeFlowControl(q[0]);
    assert |seg| == 2;
    assert Delivers(seg[1], q[1]);
  }

  /** A receive that does not pair leaves the second message of an answer on the link for the next caller. */
  lemma UnpairedReceiveLeavesOne(conn: Connection, bdf: Bdf, a: Answer, size: Word, seg: seq<Exchange>, rest: seq<Message>, bytesRead: Word, content: seq<Byte>)
    requires !Paired(conn, bdf) && size > 0 && LooksLikeFlowControl(a.credit)
    requires Serves(Queued(a), seg, rest) && ReceiveExchanges(conn, bdf, size, seg, bytesRead, content)
    ensures rest == [] <==> a.creditFirst || LooksLikeFlowControl(a.response)
  {
    var q := Queued(a);
    assert Delivers(seg[0], q[0]);
    assert |q[0]| == 8 ==> seg[0].content[..Min(8, size)][0] == q[0][..Min(8, size)][0];
    assert IsFlowControl(seg[0]) <==> LooksLikeFlowControl(q[0]);
  }

  // ---- the firmware ----

  predicate AcceptsConnect(m: Message) {
    |m| == 4 && m[0] == CONNECT_RES && (m[3] == 0 || m[3] == 2)
  }

  predicate MeantFor(hosts: seq<Byte>, id: Byte) {
    forall host <- hosts :: host == id
  }

  predicate IsCredit(p: Parcel) {
    Sound(p) && LooksLikeFlowControl(MessageOf(p))
  }

  function ResponseOf(q: seq<Parcel>): Parcel
    requires |q| == 2
  {
    if IsCredit(q[0]) then q[1] else q[0]
  }

  /** The two messages that answer a payload from host id `id`: a response to that id, and a credit. A response that comes
      first must not look like a credit itself. */
  predicate IsAnswer(q: seq<Parcel>, id: Byte) {
    && |q| == 2 && Sound(q[0]) && Sound(q[1]) && (IsCredit(q[0]) || IsCredit(q[1]))
    && MeantFor(Hosts(ResponseOf(q)), id)
  }

  function AnswerOf(q: seq<Parcel>): Answer
    requires |q| == 2 && Sound(q[0]) && Sound(q[1])
  {
    if IsCredit(q[0]) then Answer(MessageOf(q[1]), MessageOf(q[0]), true) else Answer(MessageOf(q[0]), MessageOf(q[1]), false)
  }

  /** A connection as the firmware knows it: its own address, and the host id. */
  datatype Pair = Pair(address: Byte, host: Byte)

  /** The pair that a bus message names: the firmware's address comes first, in byte 1, and the host id in byte 2. */
  function Named(m: seq<Byte>): Pair
    requires |m| >= 3
  {
    Pair(m[1], m[2])
  }

  function PairOf(conn: Connection): Pair {
    Pair(conn.properties.address, conn.hostClientId)
  }

  /** What the firmware remembers: the open connections, and for each the answers it has been allowed and not yet given. */
  datatype Firmware = Firmware(open: set<Pair>, credits: multiset<Pair>)

  /** It learns of both from the bytes of the bus messages, and from the addresses of a payload, and from nothing else. */
  function Noted(fw: Firmware, e: Exchange): Firmware {
    match e
    case Reset(_) => Firmware({}, multiset{})
    case Received(_, _, _, _, _) => fw
    case Sent(host, address, payload, _) =>
      if host != 0 then fw.(credits := fw.credits - multiset{Pair(address, host)})
      else if |payload| == 4 && payload[0] == CONNECT_REQ then fw.(open := fw.open + {Named(payload)})
      else if |payload| == 4 && payload[0] == DISCONNECT_REQ then fw.(open := fw.open - {Named(payload)})
      else if |payload| == 8 && payload[0] == FLOW_CONTROL then fw.(credits := fw.credits + multiset{Named(payload)})
      else fw
  }

  /** The firmware before exchange `j` of a log that it enters as `fw`. */
  function FwAt(fw: Firmware, log: seq<Exchange>, j: nat): Firmware
    requires j <= |log|
  {
    if j == 0 then fw else Noted(FwAt(fw, log, j - 1), log[j - 1])
  }

  /** The firmware accepts a connect and grants a first credit. It answers a payload only on a connection that is open, and
      only if it has been allowed to: by a flow-control message for that very connection. It is silent otherwise. */
  predicate Reacts(fw: Firmware, e: Exchange, q: seq<Parcel>) {
    if !e.Sent? || |e.payload| == 0 then q == []
    else if e.hostAddress != 0 then
      var pair := Pair(e.fwAddress, e.hostAddress);
      if pair in fw.open && pair in fw.credits then IsAnswer(q, e.hostAddress) else q == []
    else if |e.payload| == 4 && e.payload[0] == CONNECT_REQ then
      |q| == 2 && Sound(q[0]) && Sound(q[1]) && AcceptsConnect(MessageOf(q[0]))
    else q == []
  }

  ghost predicate GoodEntry(fw: Firmware, x: Inbound, j: int) {
    && 0 <= j < |x.log| && MovesAt(x, j) && x.log[j].outcome == Success && Reacts(FwAt(fw, x.log, j), x.log[j], x.queued[j])
  }

  /** The inbound side of a log in which every exchange succeeds and the firmware behaves. */
  ghost predicate GoodInbound(fw: Firmware, x: Inbound) {
    && |x.queued| == |x.log| && |x.states| == |x.log| + 1 && x.states[0] == []
    && forall j :: 0 <= j < |x.log| ==> GoodEntry(fw, x, j)
  }

  /** After `j` exchanges nothing is left on the link. */
  predicate Drained(x: Inbound, j: nat) {
    j < |x.states| && x.states[j] == []
  }

  /** `seg` is what the log holds from position `p` on. */
  predicate SegAt(x: Inbound, p: nat, seg: seq<Exchange>) {
    p + |seg| <= |x.log| && x.log[p..p + |seg|] == seg
  }

  lemma SegEntry(x: Inbound, p: nat, seg: seq<Exchange>, i: nat)
    requires SegAt(x, p, seg) && i < |seg|
    ensures x.log[p + i] == seg[i]
  {
    assert x.log[p..p + |seg|][i] == x.log[p + i];
  }

  /** A send adds what the firmware answers it with. */
  lemma SendAdds(fw: Firmware, x: Inbound, p: nat)
    requires GoodInbound(fw, x) && p < |x.log| && x.log[p].Sent?
    ensures x.states[p + 1] == x.states[p] + x.queued[p] && Reacts(FwAt(fw, x.log, p), x.log[p], x.queued[p])
  {
    assert GoodEntry(fw, x, p);
  }

  /** A receive teaches the firmware nothing. */
  lemma UnheardAt(fw: Firmware, x: Inbound, p: nat)
    requires p < |x.log| && x.log[p].Received?
    ensures FwAt(fw, x.log, p + 1) == FwAt(fw, x.log, p)
  {}

  /** A receive takes one message off, and there is one. */
  lemma ReceiveTakes(fw: Firmware, x: Inbound, p: nat)
    requires GoodInbound(fw, x) && p < |x.log| && x.log[p].Received?
    ensures x.states[p] != [] && Sound(x.states[p][0]) && Brings(x.log[p], x.states[p][0])
    ensures x.states[p + 1] == x.states[p][1..]
  {
    assert GoodEntry(fw, x, p);
    assert x.states[p] + [] == x.states[p];
  }

  /** Two receives take the two messages in front. */
  lemma TwoReceives(fw: Firmware, x: Inbound, p: nat, q: seq<Parcel>, rest: seq<Parcel>)
    requires GoodInbound(fw, x) && p + 2 <= |x.log| && x.log[p].Received? && x.log[p + 1].Received?
    requires |q| == 2 && x.states[p] == q + rest
    ensures Sound(q[0]) && Sound(q[1]) && Brings(x.log[p], q[0]) && Brings(x.log[p + 1], q[1])
    ensures x.states[p + 2] == rest
  {
    ReceiveTakes(fw, x, p);
    assert (q + rest)[1..] == [q[1]] + rest && ([q[1]] + rest)[1..] == rest;
    ReceiveTakes(fw, x, p + 1);
  }

  // ---- the steps of one handle ----

  /** A connect that meets what a connect needs: a device with a valid table, its client in it without a fixed address, a
      free host id, and PCI function 0. */
  predicate CanConnect(w: World, op: Op) {
    && op.Connect? && op.h in w.handles && !w.handles[op.h].conn.connected && w.handles[op.h].bdf.func == 0
    && op.rec != NO_RECORD && !IsError(op.rec.enumStatus) && op.rec.mid.isValid && SlotOk(op.rec.mid)
    && FirstFree(op.rec.mid.hostIds, 1).Some?
    && FirstMatch(op.rec.mid.clients, w.handles[op.h].guid, 0).Some?
    && ClientFor(w, op).fixedAddress == 0
  }

  function ClientFor(w: World, op: Op): Properties
    requires op.Connect? && op.h in w.handles && FirstMatch(op.rec.mid.clients, w.handles[op.h].guid, 0).Some?
  {
    op.rec.mid.clients[FirstMatch(op.rec.mid.clients, w.handles[op.h].guid, 0).value].properties
  }

  /** Handle `h` is connected, in the current generation of a valid device, and pairs its receives. */
  predicate Live(w: World, h: nat, i: nat) {
    && TableOk(w.table) && h in w.handles && At(w.table, w.handles[h].bdf, i)
    && w.table[i].isValid && w.handles[h].conn.connected && w.handles[h].conn.generation == w.table[i].generation
    && w.handles[h].conn.hostClientId != 0 && Paired(w.handles[h].conn, w.handles[h].bdf)
  }

  /** The firmware accepts, so the handshake is complete. */
  lemma HandshakeCompletes(fw: Firmware, x: Inbound, p: nat, seg: seq<Exchange>, address: Byte, id: Byte, status: EfiStatus)
    requires GoodInbound(fw, x) && Drained(x, p) && SegAt(x, p, seg)
    requires HandshakeDone(seg, address, id) || HandshakeStopped(seg, address, id, status)
    ensures HandshakeDone(seg, address, id) && Drained(x, p + 3)
    ensures FwAt(fw, x.log, p + 3).open == FwAt(fw, x.log, p).open + {Pair(address, id)}
  {
    SegEntry(x, p, seg, 0);
    SendAdds(fw, x, p);
    assert GoodEntry(fw, x, p);
    var q := x.queued[p];
    assert [] + q == q + [] == q;
    if |seg| == 1 {
      assert false;
    } else {
      SegEntry(x, p, seg, 1);
      ReceiveTakes(fw, x, p + 1);
      AcceptedReply(seg[1], q[0]);
      assert |seg| == 3;
      SegEntry(x, p, seg, 2);
      TwoReceives(fw, x, p + 1, q, []);
      ConnectNoted(fw, x, p, address, id);
    }
  }

  lemma ConnectNoted(fw: Firmware, x: Inbound, p: nat, address: Byte, id: Byte)
    requires p + 3 <= |x.log| && x.log[p].Sent? && x.log[p].hostAddress == 0 && x.log[p].payload == ConnectRequest(address, id)
    requires x.log[p + 1].Received? && x.log[p + 2].Received?
    ensures FwAt(fw, x.log, p + 3).open == FwAt(fw, x.log, p).open + {Pair(address, id)}
  {
    UnheardAt(fw, x, p + 1);
    UnheardAt(fw, x, p + 2);
  }

  lemma AcceptedReply(e: Exchange, p: Parcel)
    requires Sound(p) && AcceptsConnect(MessageOf(p)) && Brings(e, p) && e.size == 4 && |e.content| == 4
    ensures e.content[0] == CONNECT_RES && (e.content[3] == 0 || e.content[3] == 2)
  {
    assert e.content[..4] == MessageOf(p)[..4];
    assert e.content[0] == e.content[..4][0] && e.content[3] == e.content[..4][3];
  }

  /** A connect succeeds and takes both messages that it causes off the link: its reply and the first credit. */
  lemma ConnectLeavesNothing(fw: Firmware, w: World, op: Op, w': World, x: Inbound, p: nat) returns (i: nat)
    requires Next(w, op, w') && CanConnect(w, op)
    requires GoodInbound(fw, x) && Drained(x, p) && SegAt(x, p, op.rec.seg)
    ensures op.status == Success && |op.rec.seg| == 3 && Drained(x, p + 3)
    ensures Live(w', op.h, i) && w'.handles[op.h].conn.properties == ClientFor(w, op)
    ensures FwAt(fw, x.log, p + 3).open == FwAt(fw, x.log, p).open + {PairOf(w'.handles[op.h].conn)}
  {
    var bdf := w.handles[op.h].bdf;
    var (u, r) := Lookup(w.table, bdf);
    FoundIsAt(w.table, bdf);
    i := r.value;
    AtMeansLookup(u, bdf, i);
    var mid, props := op.rec.mid, ClientFor(w, op);
    var id := FirstFree(mid.hostIds, 1).value;
    UpdateKeepsKeys(u, i, mid);
    UpdateKeepsKeys(u[i := mid], i, mid.(hostIds := mid.hostIds[id := true]));
    assert u[i := mid][i] == mid;
    HandshakeCompletes(fw, x, p, op.rec.seg, props.address, id, op.status);
  }

  lemma SameHandles(w: World, h: nat)
    requires h in w.handles
    ensures w.handles[h := w.handles[h]] == w.handles
  {}

  /** The flow-control message of a send allows the firmware exactly the answer that its payload then asks for. */
  lemma CreditGivenAndSpent(fw: Firmware, x: Inbound, p: nat, pair: Pair)
    requires p + 2 <= |x.log| && pair.host != 0
    requires x.log[p].Sent? && x.log[p].hostAddress == 0 && x.log[p].payload == FlowControlMessage(pair.address, pair.host)
    requires x.log[p + 1].Sent? && x.log[p + 1].hostAddress == pair.host && x.log[p + 1].fwAddress == pair.address
    ensures pair in FwAt(fw, x.log, p + 1).credits && FwAt(fw, x.log, p + 1).open == FwAt(fw, x.log, p).open
    ensures FwAt(fw, x.log, p + 2) == FwAt(fw, x.log, p)
  {
    var before := FwAt(fw, x.log, p);
    assert FwAt(fw, x.log, p + 1) == before.(credits := before.credits + multiset{pair});
    assert before.credits + multiset{pair} - multiset{pair} == before.credits;
  }

  /** So where both exchanges of a send go well, the payload is answered, and the firmware is as before. */
  lemma PayloadAnswered(fw: Firmware, conn: Connection, bytes: seq<Byte>, seg: seq<Exchange>, x: Inbound, p: nat)
    requires GoodInbound(fw, x) && SegAt(x, p, seg) && PairOf(conn) in FwAt(fw, x.log, p).open
    requires conn.properties.fixedAddress == 0 && conn.hostClientId != 0 && bytes != [] && SendExchanges(conn, bytes, seg)
    ensures |seg| == 2 && seg[1].outcome == Success
    ensures x.log[p + 1].Sent? && x.log[p + 1].payload == bytes
    ensures IsAnswer(x.queued[p + 1], conn.hostClientId) && x.states[p + 2] == x.states[p] + x.queued[p + 1]
    ensures FwAt(fw, x.log, p + 2) == FwAt(fw, x.log, p)
  {
    SegEntry(x, p, seg, 0);
    SendAdds(fw, x, p);
    assert GoodEntry(fw, x, p);
    SegEntry(x, p, seg, 1);
    CreditGivenAndSpent(fw, x, p, PairOf(conn));
    SendAdds(fw, x, p + 1);
    assert GoodEntry(fw, x, p + 1);
    assert x.states[p] + [] == x.states[p];
  }

  /** A send on an open connection succeeds and changes nothing, neither here nor in the firmware; its payload comes second,
      behind the flow-control message that allows the answer, and adds that answer to the queue. */
  lemma LiveSend(fw: Firmware, w: World, op: Op, w': World, i: nat, x: Inbound, p: nat)
    requires Next(w, op, w') && op.Send? && Live(w, op.h, i)
    requires op.valid && 0 < |op.bytes| <= w.handles[op.h].conn.properties.maxMessageLength
    requires GoodInbound(fw, x) && SegAt(x, p, op.seg) && PairOf(w.handles[op.h].conn) in FwAt(fw, x.log, p).open
    ensures w' == w && op.status == Success && |op.seg| == 2
    ensures x.log[p + 1].Sent? && x.log[p + 1].payload == op.bytes
    ensures IsAnswer(x.queued[p + 1], w.handles[op.h].conn.hostClientId) && x.states[p + 2] == x.states[p] + x.queued[p + 1]
    ensures FwAt(fw, x.log, p + 2) == FwAt(fw, x.log, p)
  {
    var conn, bdf := w.handles[op.h].conn, w.handles[op.h].bdf;
    AtMeansLookup(w.table, bdf, i);
    PayloadAnswered(fw, conn, op.bytes, op.seg, x, p);
    SameHandles(w, op.h);
  }

  /** The exchange whose message a receive hands to its caller. */
  function Carrier(seg: seq<Exchange>): Exchange
    requires |seg| > 0
  {
    if |seg| > 1 && seg[0].Received? && |seg[0].content| > 0 && IsFlowControl(seg[0]) then seg[1] else seg[0]
  }

  /** The message handed over was meant for host id `id`. */
  predicate Own(seg: seq<Exchange>, id: Byte) {
    |seg| > 0 && Carrier(seg).Received? && MeantFor(Carrier(seg).hosts, id)
  }

  lemma MeantForOne(p: Parcel, sender: Byte, id: Byte)
    requires p != [] && MeantFor(Hosts(p), sender)
    ensures MeantFor(Hosts(p), id) <==> sender == id
  {
    assert Hosts(p)[0] in Hosts(p);
  }

  /** Whose message a receive takes is decided by the front of the queue alone. */
  lemma OwnIfFront(seg: seq<Exchange>, q: seq<Parcel>, sender: Byte, id: Byte)
    requires |seg| == 2 && IsAnswer(q, sender) && Brings(seg[0], q[0]) && Brings(seg[1], q[1]) && seg[0].size > 0
    requires |seg[0].content| > 0
    ensures Own(seg, id) <==> sender == id
  {
    var m := MessageOf(q[0]);
    assert |m| == 8 ==> seg[0].content[..Min(8, seg[0].size)][0] == m[..Min(8, seg[0].size)][0];
    assert IsFlowControl(seg[0]) <==> IsCredit(q[0]);
    assert Carrier(seg).hosts == Hosts(ResponseOf(q));
    MeantForOne(ResponseOf(q), sender, id);
  }

  lemma DeliveredInOrder(q: seq<Parcel>, seg: seq<Exchange>)
    requires |q| == 2 && Sound(q[0]) && Sound(q[1])
    requires |seg| == 2 && Brings(seg[0], q[0]) && Brings(seg[1], q[1])
    ensures Serves(Queued(AnswerOf(q)), seg, [])
  {
    assert Queued(AnswerOf(q)) == [MessageOf(q[0]), MessageOf(q[1])];
  }

  /** The exchanges of a receive that finds an answer in front of the queue. */
  lemma AnswerTaken(fw: Firmware, conn: Connection, bdf: Bdf, size: Word, seg: seq<Exchange>, bytesRead: Word, content: seq<Byte>,
                    x: Inbound, p: nat, q: seq<Parcel>, rest: seq<Parcel>, sender: Byte)
    requires Paired(conn, bdf) && size > 0 && ReceiveExchanges(conn, bdf, size, seg, bytesRead, content)
    requires GoodInbound(fw, x) && SegAt(x, p, seg) && x.states[p] == q + rest && IsAnswer(q, sender)
    ensures |seg| == 2 && seg[1].outcome == Success && x.states[p + 2] == rest
    ensures Returns(MessageOf(ResponseOf(q)), size, bytesRead, content)
    ensures Own(seg, conn.hostClientId) <==> sender == conn.hostClientId
  {
    SegEntry(x, p, seg, 0);
    assert GoodEntry(fw, x, p);
    assert |seg| == 2;
    SegEntry(x, p, seg, 1);
    assert GoodEntry(fw, x, p + 1);
    TwoReceives(fw, x, p, q, rest);
    DeliveredInOrder(q, seg);
    OneReceive(conn, bdf, AnswerOf(q), size, seg, [], bytesRead, content);
    OwnIfFront(seg, q, sender, conn.hostClientId);
  }

  /** A receive that finds an answer in front succeeds, changes nothing, takes exactly that answer off the queue, and returns
      its response, whether or not it was meant for the handle that receives. */
  lemma LiveReceive(fw: Firmware, w: World, op: Op, w': World, i: nat, x: Inbound, p: nat, q: seq<Parcel>, rest: seq<Parcel>, sender: Byte)
    requires Next(w, op, w') && op.Receive? && Live(w, op.h, i)
    requires op.valid && 0 < op.size <= w.handles[op.h].conn.properties.maxMessageLength
    requires GoodInbound(fw, x) && SegAt(x, p, op.seg) && x.states[p] == q + rest && IsAnswer(q, sender)
    ensures w' == w && op.status == Success && |op.seg| == 2 && x.states[p + 2] == rest
    ensures Returns(MessageOf(ResponseOf(q)), op.size, op.bytesRead, op.content)
    ensures Own(op.seg, w.handles[op.h].conn.hostClientId) <==> sender == w.handles[op.h].conn.hostClientId
    ensures FwAt(fw, x.log, p + 2) == FwAt(fw, x.log, p)
  {
    var conn, bdf := w.handles[op.h].conn, w.handles[op.h].bdf;
    AnswerTaken(fw, conn, bdf, op.size, op.seg, op.bytesRead, op.content, x, p, q, rest, sender);
    SegEntry(x, p, op.seg, 0);
    SegEntry(x, p, op.seg, 1);
    UnheardAt(fw, x, p);
    UnheardAt(fw, x, p + 1);
    SameHandles(w, op.h);
  }

  /** Closing a connected handle shuts at the firmware the connection it names, and no other: the one that its connect
      opened, whatever generation the device is in by then. */
  lemma CloseShuts(fw: Firmware, w: World, op: Op, w': World, x: Inbound, p: nat)
    requires Next(w, op, w') && op.Close? && w.handles[op.h].conn.connected && w.handles[op.h].conn.properties.fixedAddress == 0
    requires SegAt(x, p, op.seg)
    ensures 1 <= |op.seg| <= 2
    ensures FwAt(fw, x.log, p + |op.seg|) ==
            FwAt(fw, x.log, p).(open := FwAt(fw, x.log, p).open - {PairOf(w.handles[op.h].conn)})
  {
    var conn := w.handles[op.h].conn;
    assert exists status :: DisconnectExchanges(conn, op.seg, status);
    SegEntry(x, p, op.seg, 0);
    if |op.seg| == 2 {
      SegEntry(x, p, op.seg, 1);
      UnheardAt(fw, x, p + 1);
    }
  }
}
