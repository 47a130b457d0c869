/** A run in which two handles that share a device get each other's responses. Nothing on the receive path compares the host
    address of what arrives with that of the handle (src/uefi/heci_core.c:492-562, src/uefi/heci_efi.c:882-936). */
module Crossed {
  import opened HeciRegisters
  import opened HeciPackets
  import opened HeciTable
  import opened Wrappers
  import opened HeciWire
  import opened HeciDelivery
  import opened HeciSession
  import opened HeciRuns
  import opened HeciFirmware
  import opened FlowControl
  import opened Conversations

  // ---- messages of one packet ----

  function Note(bytes: seq<Byte>, host: Byte): Parcel
    requires |bytes| <= 8
  {
    [Packet(Header(ADDRESS, host, |bytes|, 0, true), LoadWords(bytes + Zeros(3), 0, Dwords(|bytes|)))]
  }

  lemma NoteIs(bytes: seq<Byte>, host: Byte)
    requires |bytes| <= 8
    ensures var p := Note(bytes, host); Sound(p) && MessageOf(p) == bytes && Hosts(p) == [host]
  {
    var p, mem := Note(bytes, host), bytes + Zeros(3);
    LoadedFront(mem, 0, |bytes|);
    assert mem[0..|bytes|] == bytes;
    assert p[1..] == [] && TotalLength([]) == 0 && Content([]) == [];
    assert TotalLength(p) == |bytes|;
    assert WellFormed(p[0]);
    assert Content(p) == bytes + [];
  }

  // ---- the run ----

  function Talking(key: Bdf, guid: Guid): World {
    World(Tab(Listed(key, guid, 0, 1, TwoIds())), Two(Linked(key, guid, 0, 1, 1), Linked(key, guid, 0, 1, 2)))
  }

  /** Handle `h` has host id `h + 1`. */
  function Says(h: nat, bytes: seq<Byte>): Op
    requires h < 2
  {
    Op.Send(h, true, bytes, Success, [Sent(0, 0, FlowControlMessage(ADDRESS, h + 1), Success), Sent(h + 1, ADDRESS, bytes, Success)])
  }

  /** Handle `h` receives the response `bytes` that was meant for host id `host`. */
  function Hears(h: nat, bytes: seq<Byte>, host: Byte): Op
    requires |bytes| == 1
  {
    Op.Receive(h, true, 1, Success, 1, bytes,
               [Received(1, 1, bytes, [host], Success), Received(8, 8, FlowControlMessage(ADDRESS, host), [0], Success)])
  }

  lemma TalkingIs(key: Bdf, guid: Guid)
    requires key.func == 0
    ensures var w := Talking(key, guid);
      && TableOk(w.table) && Lookup(w.table, key) == (w.table, Some(0))
      && 0 in w.handles && w.handles[0] == Linked(key, guid, 0, 1, 1) && 1 in w.handles && w.handles[1] == Linked(key, guid, 0, 1, 2)
      && w.handles[0 := w.handles[0]] == w.handles && w.handles[1 := w.handles[1]] == w.handles
      && w.table[0] == Listed(key, guid, 0, 1, TwoIds())
  {
    FirstIds();
    TabLookup(Listed(key, guid, 0, 1, TwoIds()));
    TwoUpdates(Linked(key, guid, 0, 1, 1), Linked(key, guid, 0, 1, 2), Linked(key, guid, 0, 1, 1));
    TwoUpdates(Linked(key, guid, 0, 1, 1), Linked(key, guid, 0, 1, 2), Linked(key, guid, 0, 1, 2));
  }

  lemma SaysIsNext(key: Bdf, guid: Guid, h: nat, bytes: seq<Byte>)
    requires key.func == 0 && h < 2 && 0 < |bytes| <= 8
    ensures Next(Talking(key, guid), Says(h, bytes), Talking(key, guid))
  {
    TalkingIs(key, guid);
  }

  lemma HearsIsNext(key: Bdf, guid: Guid, h: nat, bytes: seq<Byte>, host: Byte)
    requires key.func == 0 && h < 2 && |bytes| == 1
    ensures Next(Talking(key, guid), Hears(h, bytes, host), Talking(key, guid))
  {
    TalkingIs(key, guid);
  }

  function CrossedWorld(key: Bdf, guid: Guid, i: nat): World {
    if i == 0 then START
    else if i == 1 then World(InitialTable(), map[0 := Bare(key, guid)])
    else if i == 2 then World(InitialTable(), Two(Bare(key, guid), Bare(key, guid)))
    else if i == 3 then World(Tab(Listed(key, guid, 0, 1, OneId())), Two(Linked(key, guid, 0, 1, 1), Bare(key, guid)))
    else Talking(key, guid)
  }

  /** Both handles connect, both send, and then they receive the other way round. */
  function CrossedOp(key: Bdf, guid: Guid, i: nat): Op {
    if i <= 1 then Op.Open(i, key, guid)
    else if i == 2 then Op.Connect(0, Success, Afresh(key, guid, 0, 1))
    else if i == 3 then Op.Connect(1, Success, Joining(key, guid, 0))
    else if i == 4 then Says(0, [1])
    else if i == 5 then Says(1, [2])
    else if i == 6 then Hears(1, [10], 1)
    else Hears(0, [20], 2)
  }

  function CrossedRun(key: Bdf, guid: Guid): Run {
    Run(seq(9, i requires 0 <= i => CrossedWorld(key, guid, i)), seq(8, i requires 0 <= i => CrossedOp(key, guid, i)))
  }

  ghost predicate CrossedStep(key: Bdf, guid: Guid, j: nat) {
    Next(CrossedWorld(key, guid, j), CrossedOp(key, guid, j), CrossedWorld(key, guid, j + 1))
  }

  lemma CrossedOpens(key: Bdf, guid: Guid)
    requires key.func == 0
    ensures CrossedStep(key, guid, 0) && CrossedStep(key, guid, 1)
  {
    OneOpens(key, guid);
    AnotherOpens(key, guid);
  }

  lemma CrossedConnects(key: Bdf, guid: Guid, j: nat)
    requires key.func == 0 && guid != ZERO_GUID && 2 <= j <= 3
    ensures CrossedStep(key, guid, j)
  {
    if j == 2 {
      FirstConnects(key, guid, 0);
    } else {
      SecondConnects(key, guid, 0);
    }
  }

  lemma CrossedSays(key: Bdf, guid: Guid)
    requires key.func == 0
    ensures CrossedStep(key, guid, 4) && CrossedStep(key, guid, 5)
  {
    SaysIsNext(key, guid, 0, [1]);
    SaysIsNext(key, guid, 1, [2]);
  }

  lemma CrossedHears(key: Bdf, guid: Guid)
    requires key.func == 0
    ensures CrossedStep(key, guid, 6) && CrossedStep(key, guid, 7)
  {
    HearsIsNext(key, guid, 1, [10], 1);
    HearsIsNext(key, guid, 0, [20], 2);
  }

  lemma CrossedStepIs(key: Bdf, guid: Guid, j: nat)
    requires key.func == 0 && guid != ZERO_GUID && j < 8
    ensures CrossedStep(key, guid, j)
  {
    if j <= 1 {
      CrossedOpens(key, guid);
    } else if j <= 3 {
      CrossedConnects(key, guid, j);
    } else if j <= 5 {
      CrossedSays(key, guid);
    } else {
      CrossedHears(key, guid);
    }
  }

  lemma CrossedIsRun(key: Bdf, guid: Guid)
    requires key.func == 0 && guid != ZERO_GUID
    ensures IsRun(CrossedRun(key, guid)) && CrossedRun(key, guid).worlds[0] == START
  {
    var r := CrossedRun(key, guid);
    forall j | 0 <= j < |r.ops|
      ensures StepHolds(r, j)
    {
      CrossedStepIs(key, guid, j);
    }
  }

  // ---- the firmware behaves ----

  /** The log from the second connect on. */
  function CrossedLog(): seq<Exchange> {
    Greeting(0, 2) + Says(0, [1]).seg + Says(1, [2]).seg + Hears(1, [10], 1).seg + Hears(0, [20], 2).seg
  }

  function Credit(host: Byte): Parcel {
    Note(FlowControlMessage(ADDRESS, host), 0)
  }

  function Accepted(): seq<Parcel> {
    [Note([CONNECT_RES, ADDRESS, 2, 0], 0), Credit(2)]
  }

  function Responses(): seq<Parcel> {
    [Note([10], 1), Credit(1), Note([20], 2), Credit(2)]
  }

  function CrossedInbound(): Inbound {
    var a, r := Accepted(), Responses();
    Inbound(CrossedLog(),
            [a, [], [], [], r[..2], [], r[2..], [], [], [], []],
            [[], a, a[1..], [], [], r[..2], r[..2], r, r[1..], r[2..], r[3..], []])
  }

  /** The firmware has the connection of handle 0 open, and nothing is owed on it. */
  const FW: Firmware := Firmware({Pair(ADDRESS, 1)}, multiset{})

  lemma NotedAt(log: seq<Exchange>, j: nat, fw: Firmware, e: Exchange)
    requires j < |log| && FwAt(FW, log, j) == fw && log[j] == e
    ensures FwAt(FW, log, j + 1) == Noted(fw, e)
  {}

  /** The second connect opens a second connection; what is received changes nothing. */
  lemma BothAreOpen()
    ensures FwAt(FW, CrossedLog(), 3) == Firmware({Pair(ADDRESS, 1), Pair(ADDRESS, 2)}, multiset{})
  {
    var log, joined := CrossedLog(), FW.(open := FW.open + {Pair(ADDRESS, 2)});
    assert FwAt(FW, log, 0) == FW;
    NotedAt(log, 0, FW, Greeting(0, 2)[0]);
    NotedAt(log, 1, joined, Greeting(0, 2)[1]);
    NotedAt(log, 2, joined, Greeting(0, 2)[2]);
  }

  /** When a payload comes, its connection is open and an answer has been allowed. */
  lemma PayloadsAreAllowed()
    ensures var fw := FwAt(FW, CrossedLog(), 4); Pair(ADDRESS, 1) in fw.open && Pair(ADDRESS, 1) in fw.credits
    ensures var fw := FwAt(FW, CrossedLog(), 6); Pair(ADDRESS, 2) in fw.open && Pair(ADDRESS, 2) in fw.credits
  {
    var log := CrossedLog();
    SaysInLog();
    BothAreOpen();
    var fw := FwAt(FW, log, 3);
    NotedAt(log, 3, fw, log[3]);
    NotedAt(log, 4, Noted(fw, log[3]), log[4]);
    NotedAt(log, 5, FwAt(FW, log, 5), log[5]);
  }

  lemma SentIsGood(fw: Firmware, x: Inbound, j: nat)
    requires j < |x.log| && j < |x.queued| && j + 1 < |x.states|
    requires x.log[j].Sent? && x.log[j].outcome == Success && Reacts(FwAt(fw, x.log, j), x.log[j], x.queued[j])
    requires x.states[j + 1] == x.states[j] + x.queued[j]
    ensures GoodEntry(fw, x, j)
  {}

  lemma ReceivedIsGood(fw: Firmware, x: Inbound, j: nat, bytes: seq<Byte>, host: Byte, size: Word)
    requires j < |x.log| && j < |x.queued| && j + 1 < |x.states| && |bytes| <= 8
    requires x.log[j] == Received(size, |bytes|, bytes, [host], Success) && x.queued[j] == []
    requires x.states[j] == [Note(bytes, host)] + x.states[j + 1]
    ensures GoodEntry(fw, x, j)
  {
    NoteIs(bytes, host);
    assert x.states[j] + [] == x.states[j];
    assert x.states[j][1..] == x.states[j + 1];
  }

  lemma AnswerIsGood(bytes: seq<Byte>, id: Byte)
    requires |bytes| == 1
    ensures IsAnswer([Note(bytes, id), Credit(id)], id)
  {
    NoteIs(bytes, id);
    NoteIs(FlowControlMessage(ADDRESS, id), 0);
  }

  lemma AnswersAreGood()
    ensures IsAnswer(Responses()[..2], 1) && IsAnswer(Responses()[2..], 2)
  {
    AnswerIsGood([10], 1);
    AnswerIsGood([20], 2);
    assert Responses()[..2] == [Note([10], 1), Credit(1)] && Responses()[2..] == [Note([20], 2), Credit(2)];
  }

  lemma AcceptedIsGood()
    ensures Reacts(FW, Greeting(0, 2)[0], Accepted())
  {
    NoteIs([CONNECT_RES, ADDRESS, 2, 0], 0);
    NoteIs(FlowControlMessage(ADDRESS, 2), 0);
  }

  /** A flow-control message: the firmware notes it and is silent. */
  lemma SilentIsGood(fw: Firmware, x: Inbound, j: nat, id: Byte)
    requires j < |x.log| && j < |x.queued| && j + 1 < |x.states|
    requires x.log[j] == Sent(0, 0, FlowControlMessage(ADDRESS, id), Success) && x.queued[j] == [] && x.states[j + 1] == x.states[j]
    ensures GoodEntry(fw, x, j)
  {
    assert x.states[j] + [] == x.states[j];
    SentIsGood(fw, x, j);
  }

  lemma ConnectIsGood()
    ensures GoodEntry(FW, CrossedInbound(), 0)
  {
    var x := CrossedInbound();
    AcceptedIsGood();
    assert [] + Accepted() == Accepted();
    SentIsGood(FW, x, 0);
  }

  lemma PayloadIsGood(fw: Firmware, x: Inbound, j: nat, bytes: seq<Byte>, id: Byte)
    requires j < |x.log| && j < |x.queued| && j + 1 < |x.states| && bytes != [] && id != 0
    requires x.log[j] == Sent(id, ADDRESS, bytes, Success) && IsAnswer(x.queued[j], id)
    requires Pair(ADDRESS, id) in FwAt(fw, x.log, j).open && Pair(ADDRESS, id) in FwAt(fw, x.log, j).credits
    requires x.states[j + 1] == x.states[j] + x.queued[j]
    ensures GoodEntry(fw, x, j)
  {
    SentIsGood(fw, x, j);
  }

  /** The four exchanges of the two sends. */
  lemma SaysInLog()
    ensures |CrossedLog()| == 11
    ensures CrossedLog()[3] == Sent(0, 0, FlowControlMessage(ADDRESS, 1), Success) && CrossedLog()[4] == Sent(1, ADDRESS, [1], Success)
    ensures CrossedLog()[5] == Sent(0, 0, FlowControlMessage(ADDRESS, 2), Success) && CrossedLog()[6] == Sent(2, ADDRESS, [2], Success)
  {}

  lemma SaysQueued()
    ensures var x, r := CrossedInbound(), Responses();
      && x.log == CrossedLog() && |x.queued| == 11 && |x.states| == 12
      && x.queued[3] == [] && x.queued[4] == r[..2] && x.queued[5] == [] && x.queued[6] == r[2..]
      && x.states[3] == [] && x.states[4] == [] && x.states[5] == r[..2] && x.states[6] == r[..2] && x.states[7] == r
  {}

  lemma FirstPayloadIsGood()
    ensures GoodEntry(FW, CrossedInbound(), 4)
  {
    SaysInLog();
    SaysQueued();
    AnswersAreGood();
    PayloadsAreAllowed();
    assert [] + Responses()[..2] == Responses()[..2];
    PayloadIsGood(FW, CrossedInbound(), 4, [1], 1);
  }

  lemma SecondPayloadIsGood()
    ensures GoodEntry(FW, CrossedInbound(), 6)
  {
    SaysInLog();
    SaysQueued();
    AnswersAreGood();
    PayloadsAreAllowed();
    assert Responses()[..2] + Responses()[2..] == Responses();
    PayloadIsGood(FW, CrossedInbound(), 6, [2], 2);
  }

  lemma FirstNoticeIsGood()
    ensures GoodEntry(FW, CrossedInbound(), 3)
  {
    SaysInLog();
    SaysQueued();
    SilentIsGood(FW, CrossedInbound(), 3, 1);
  }

  lemma SecondNoticeIsGood()
    ensures GoodEntry(FW, CrossedInbound(), 5)
  {
    SaysInLog();
    SaysQueued();
    SilentIsGood(FW, CrossedInbound(), 5, 2);
  }

  lemma GreetingReceives()
    ensures GoodEntry(FW, CrossedInbound(), 1) && GoodEntry(FW, CrossedInbound(), 2)
  {
    ReceivedIsGood(FW, CrossedInbound(), 1, [CONNECT_RES, ADDRESS, 2, 0], 0, 4);
    ReceivedIsGood(FW, CrossedInbound(), 2, FlowControlMessage(ADDRESS, 2), 0, 8);
  }

  lemma FirstReceives()
    ensures GoodEntry(FW, CrossedInbound(), 7) && GoodEntry(FW, CrossedInbound(), 8)
  {
    ReceivedIsGood(FW, CrossedInbound(), 7, [10], 1, 1);
    ReceivedIsGood(FW, CrossedInbound(), 8, FlowControlMessage(ADDRESS, 1), 0, 8);
  }

  lemma SecondReceives()
    ensures GoodEntry(FW, CrossedInbound(), 9) && GoodEntry(FW, CrossedInbound(), 10)
  {
    ReceivedIsGood(FW, CrossedInbound(), 9, [20], 2, 1);
    ReceivedIsGood(FW, CrossedInbound(), 10, FlowControlMessage(ADDRESS, 2), 0, 8);
  }

  /** An inbound side is good when each of its entries is. */
  lemma ElevenAreGood(fw: Firmware, x: Inbound)
    requires |x.log| == 11 && |x.queued| == 11 && |x.states| == 12 && x.states[0] == []
    requires GoodEntry(fw, x, 0) && GoodEntry(fw, x, 1) && GoodEntry(fw, x, 2) && GoodEntry(fw, x, 3) && GoodEntry(fw, x, 4) && GoodEntry(fw, x, 5)
    requires GoodEntry(fw, x, 6) && GoodEntry(fw, x, 7) && GoodEntry(fw, x, 8) && GoodEntry(fw, x, 9) && GoodEntry(fw, x, 10)
    ensures GoodInbound(fw, x)
  {}

  lemma FirmwareBehaves()
    ensures GoodInbound(FW, CrossedInbound())
  {
    ConnectIsGood();
    GreetingReceives();
    FirstNoticeIsGood();
    SecondNoticeIsGood();
    FirstPayloadIsGood();
    SecondPayloadIsGood();
    FirstReceives();
    SecondReceives();
    ElevenAreGood(FW, CrossedInbound());
  }

  // ---- what becomes of it ----

  /** The run from the second connect on. */
  function Tail(key: Bdf, guid: Guid): Run {
    Run(CrossedRun(key, guid).worlds[3..], CrossedRun(key, guid).ops[3..])
  }

  lemma TailTold(key: Bdf, guid: Guid)
    requires key.func == 0 && guid != ZERO_GUID
    ensures Told(FW, Tail(key, guid), CrossedInbound())
  {
    CrossedIsRun(key, guid);
    FirmwareBehaves();
    var r, run := CrossedRun(key, guid), Tail(key, guid);
    forall j | 0 <= j < |run.ops|
      ensures StepHolds(run, j)
    {
      assert StepHolds(r, j + 3);
    }
    TailLog(run.ops);
  }

  lemma TailLog(ops: seq<Op>)
    requires |ops| == 5 && SegOf(ops[0]) == Greeting(0, 2) && SegOf(ops[1]) == Says(0, [1]).seg && SegOf(ops[2]) == Says(1, [2]).seg
    requires SegOf(ops[3]) == Hears(1, [10], 1).seg && SegOf(ops[4]) == Hears(0, [20], 2).seg
    ensures CrossedLog() == AllSegs(ops, 5)
  {
    assert AllSegs(ops, 0) == [];
    assert AllSegs(ops, 1) == Greeting(0, 2);
    assert AllSegs(ops, 2) == Greeting(0, 2) + Says(0, [1]).seg;
    assert AllSegs(ops, 3) == Greeting(0, 2) + Says(0, [1]).seg + Says(1, [2]).seg;
    assert AllSegs(ops, 4) == Greeting(0, 2) + Says(0, [1]).seg + Says(1, [2]).seg + Hears(1, [10], 1).seg;
  }

  lemma TailTalks(key: Bdf, guid: Guid)
    requires key.func == 0 && guid != ZERO_GUID
    ensures Talks(FW, Tail(key, guid), 1)
  {
    var run := Tail(key, guid);
    TalkingIs(key, guid);
    FirstIds();
    ScanFindsClient(guid, 0);
    TwoUpdates(Linked(key, guid, 0, 1, 1), Bare(key, guid), Bare(key, guid));
    assert CanConnect(run.worlds[0], run.ops[0]);
    forall t | 1 <= t < |run.ops|
      ensures TurnAt(FW, run, 1, t)
    {
      assert run.ops[t].h < 2;
    }
  }

  /** From the start, for every device on function 0 and every GUID but zero: both handles send, the firmware answers each
      with a response of its own, every call succeeds, and handle 1 is handed the response that was meant for handle 0. */
  lemma CrossedResponses(key: Bdf, guid: Guid)
    requires key.func == 0 && guid != ZERO_GUID
    ensures var r := CrossedRun(key, guid); IsRun(r) && r.worlds[0] == START
    ensures Conversation(FW, Tail(key, guid), 1, CrossedInbound())
    ensures var r, w := CrossedRun(key, guid), Talking(key, guid);
      && r.worlds[6] == w && 0 in w.handles && 1 in w.handles
      && r.ops[6].Receive? && r.ops[6].h == 1 && r.ops[6].status == Success
      && Own(r.ops[6].seg, w.handles[0].conn.hostClientId) && !Own(r.ops[6].seg, w.handles[1].conn.hostClientId)
  {
    CrossedIsRun(key, guid);
    TailTold(key, guid);
    TailTalks(key, guid);
    TalkingIs(key, guid);
    assert Hears(1, [10], 1).seg[0].hosts[0] in Hears(1, [10], 1).seg[0].hosts;
  }
}
