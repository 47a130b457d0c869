/** What a reply with an unexpected command does: two runs in which a connect reports success and yet nothing can be sent
    afterwards (src/uefi/heci_efi.c:545-549, 704-708). */
module OddReplies {
  import opened HeciRegisters
  import opened HeciTable
  import opened HeciWire
  import opened HeciSession
  import opened HeciRuns
  import opened HeciFirmware
  import TeeEfi

  // ---- one handle ----

  function One(h: Handle): map<nat, Handle> {
    map[0 := h]
  }

  function Opened(key: Bdf, guid: Guid): World {
    World(InitialTable(), One(Bare(key, guid)))
  }

  /** A run of one handle: open, connect, and a send of one byte of which nothing comes. */
  function Futile(key: Bdf, guid: Guid, rec: ConnectRecord, w: World, status: EfiStatus, w': World): Run {
    Run([START, Opened(key, guid), w, w'],
        [Op.Open(0, key, guid), Op.Connect(0, Success, rec), Op.Send(0, true, [7], status, [])])
  }

  lemma FutileIsRun(key: Bdf, guid: Guid, rec: ConnectRecord, w: World, status: EfiStatus, w': World)
    requires key != UNINITIALIZED && Next(Opened(key, guid), Op.Connect(0, Success, rec), w)
    requires Next(w, Op.Send(0, true, [7], status, []), w')
    ensures IsRun(Futile(key, guid, rec, w, status, w'))
  {
    FutileOpens(key, guid, rec, w, status, w');
    FutileConnects(key, guid, rec, w, status, w');
    FutileSends(key, guid, rec, w, status, w');
    ThreeSteps(Futile(key, guid, rec, w, status, w'));
  }

  lemma FutileOpens(key: Bdf, guid: Guid, rec: ConnectRecord, w: World, status: EfiStatus, w': World)
    requires key != UNINITIALIZED
    ensures StepHolds(Futile(key, guid, rec, w, status, w'), 0)
  {
    OneOpens(key, guid);
  }

  lemma FutileConnects(key: Bdf, guid: Guid, rec: ConnectRecord, w: World, status: EfiStatus, w': World)
    requires Next(Opened(key, guid), Op.Connect(0, Success, rec), w)
    ensures StepHolds(Futile(key, guid, rec, w, status, w'), 1)
  {}

  lemma FutileSends(key: Bdf, guid: Guid, rec: ConnectRecord, w: World, status: EfiStatus, w': World)
    requires Next(w, Op.Send(0, true, [7], status, []), w')
    ensures StepHolds(Futile(key, guid, rec, w, status, w'), 2)
  {}

  lemma ThreeSteps(r: Run)
    requires |r.ops| == 3 && |r.worlds| == 4 && StepHolds(r, 0) && StepHolds(r, 1) && StepHolds(r, 2)
    ensures IsRun(r)
  {}

  lemma OneUpdates(a: Handle, b: Handle)
    ensures 0 in One(a) && One(a)[0] == a && One(a)[0 := b] == One(b)
  {}

  // ---- the connect reply has another command ----

  function OddConnect(key: Bdf, guid: Guid): ConnectRecord {
    Afresh(key, guid, 0, 1).(
      seg := [Sent(0, 0, ConnectRequest(ADDRESS, 1), Success), Received(4, 4, [0, 0, 0, 0], [0], Success)])
  }

  function NotConnected(key: Bdf, guid: Guid): World {
    World(Tab(Listed(key, guid, 0, 1, NoIds())), One(Bare(key, guid)))
  }

  lemma OddConnectIsStep(key: Bdf, guid: Guid)
    requires key != UNINITIALIZED && guid != ZERO_GUID
    ensures Next(Opened(key, guid), Op.Connect(0, Success, OddConnect(key, guid)), NotConnected(key, guid))
  {
    var mid, rec := Listed(key, guid, 0, 1, NoIds()), OddConnect(key, guid);
    FreshLookup(key);
    EnumerationSucceeds(NewSlot(key), guid, 0);
    ScanFindsClient(guid, 0);
    FirstIds();
    TabLookup(mid);
    OneUpdates(Bare(key, guid), Bare(key, guid));
    assert Tab(NewSlot(key))[0 := mid] == Tab(mid);
    assert HandshakeStopped(rec.seg, ADDRESS, 1, Success);
    assert SelectPost(Tab(mid), 0, NO_CONNECTION, guid, Tab(mid), NO_CONNECTION, Success, rec.seg);
  }

  lemma RefusedAsTooLong(key: Bdf, guid: Guid)
    requires key != UNINITIALIZED
    ensures Next(NotConnected(key, guid), Op.Send(0, true, [7], BufferTooSmall, []), NotConnected(key, guid))
  {
    TabLookup(Listed(key, guid, 0, 1, NoIds()));
    OneUpdates(Bare(key, guid), Bare(key, guid));
  }

  /** A connect whose reply carries another command reports success and leaves the handle unconnected; the library then takes
      itself for connected, and even one byte is too long to send. */
  lemma OddConnectReply(key: Bdf, guid: Guid)
    requires key != UNINITIALIZED && guid != ZERO_GUID
    ensures var r := Futile(key, guid, OddConnect(key, guid), NotConnected(key, guid), BufferTooSmall, NotConnected(key, guid));
      && IsRun(r) && r.worlds[0] == START
      && r.ops[1].Connect? && r.ops[1].status == Success && TeeEfi.WrongConnectReply(r.ops[1].rec)
      && 0 in r.worlds[2].handles && !r.worlds[2].handles[0].conn.connected
  {
    OddConnectIsStep(key, guid);
    RefusedAsTooLong(key, guid);
    FutileIsRun(key, guid, OddConnect(key, guid), NotConnected(key, guid), BufferTooSmall, NotConnected(key, guid));
    OneUpdates(Bare(key, guid), Bare(key, guid));
  }

  // ---- a properties reply has another command ----

  /** Clients 1 and 2 are announced, 1 is answered well, and 2 with another command. */
  function OddEnumSeg(guid: Guid): seq<Exchange> {
    EnumHead(6) + PropertySeg(1, Reply(guid, 1)) + PropertySeg(2, Zeros(28))
  }

  function HalfListed(key: Bdf, guid: Guid, ids: seq<bool>): Slot {
    Slot(key, false, 1, ids, Clients(guid, 1))
  }

  function OddProperties(key: Bdf, guid: Guid): ConnectRecord {
    ConnectRecord(Success, HalfListed(key, guid, NoIds()), Bitmap(6), OneReply(guid, 1), OddEnumSeg(guid), [])
  }

  function HalfConnected(key: Bdf, guid: Guid): World {
    World(Tab(HalfListed(key, guid, OneId())), One(Linked(key, guid, 1, 1, 1)))
  }

  function Dropped(key: Bdf, guid: Guid): World {
    World(Tab(HalfListed(key, guid, OneId())), One(Handle(key, guid, Link(guid, 1, 1, 1).(connected := false))))
  }

  lemma OddSegIs(guid: Guid)
    ensures OneEnumerationRequest(OddEnumSeg(guid)) && WrongProperties(OddEnumSeg(guid))
  {
    assert OddEnumSeg(guid)[3..] == PropertySeg(1, Reply(guid, 1)) + PropertySeg(2, Zeros(28));
  }

  lemma OddEnumeration(key: Bdf, guid: Guid)
    ensures EnumPost(NewSlot(key), HalfListed(key, guid, NoIds()), Success, Bitmap(6), OneReply(guid, 1), OddEnumSeg(guid))
  {
    RepliesAreClients(guid, 1);
    OddSegIs(guid);
    OddIsStopped(guid);
    BitmapSet(6, 1);
    SmallBits(1);
  }

  lemma OddTurns(guid: Guid)
    ensures var first, rest := PropertySeg(1, Reply(guid, 1)), OddEnumSeg(guid)[3..];
      |rest| == 4 && rest[..2] == first && FailedTurn(2, rest[2..], Success)
  {
    var first, second := PropertySeg(1, Reply(guid, 1)), PropertySeg(2, Zeros(28));
    assert OddEnumSeg(guid)[3..] == first + second;
    assert (first + second)[..2] == first && (first + second)[2..] == second;
  }

  lemma FirstTwoAnnounced(guid: Guid)
    ensures |Bitmap(6)| == 32 && BitSet(Bitmap(6), 2) && Covers(OneReply(guid, 1), Bitmap(6), 2)
  {
    BitmapSet(6, 1);
    BitmapSet(6, 2);
    SmallBits(1);
    SmallBits(2);
  }

  /** It stops in the turn of client 2, after client 1 has answered. */
  lemma OddIsStopped(guid: Guid)
    ensures RepliesOk(OneReply(guid, 1)) && GivenUp(Bitmap(6), OneReply(guid, 1), OddEnumSeg(guid), Success)
  {
    OddTurns(guid);
    RepliesAreClients(guid, 1);
    AnsweredOnce(guid, 1, 2);
    FirstTwoAnnounced(guid);
    assert StoppedAt(Bitmap(6), OneReply(guid, 1), OddEnumSeg(guid)[3..], Success, 2, 2);
    OddAnnounces(guid);
  }

  lemma OddAnnounces(guid: Guid)
    ensures Announces(OddEnumSeg(guid), Bitmap(6))
  {
    assert OddEnumSeg(guid)[2].content[4..] == Bitmap(6);
  }

  lemma OddPropertiesIsStep(key: Bdf, guid: Guid)
    requires key != UNINITIALIZED && guid != ZERO_GUID
    ensures Next(Opened(key, guid), Op.Connect(0, Success, OddProperties(key, guid)), HalfConnected(key, guid))
  {
    FreshLookup(key);
    FirstIds();
    OddEnumeration(key, guid);
    OneUpdates(Bare(key, guid), Linked(key, guid, 1, 1, 1));
    ConnectStep(Opened(key, guid), 0, NewSlot(key), guid, 1, 1, OddProperties(key, guid));
  }

  lemma RefusedAsInvalid(key: Bdf, guid: Guid)
    requires key != UNINITIALIZED
    ensures Next(HalfConnected(key, guid), Op.Send(0, true, [7], MediaChanged, []), Dropped(key, guid))
  {
    FirstIds();
    TabLookup(HalfListed(key, guid, OneId()));
    OneUpdates(Linked(key, guid, 1, 1, 1), Handle(key, guid, Link(guid, 1, 1, 1).(connected := false)));
  }

  /** A connect during whose enumeration a properties reply carries another command succeeds and connects, on a device that is
      not valid; the first send is refused and ends the connection. */
  lemma OddPropertiesReply(key: Bdf, guid: Guid)
    requires key != UNINITIALIZED && guid != ZERO_GUID
    ensures var r := Futile(key, guid, OddProperties(key, guid), HalfConnected(key, guid), MediaChanged, Dropped(key, guid));
      && IsRun(r) && r.worlds[0] == START
      && Connects(r.worlds[1], r.ops[1], r.worlds[2]) && r.ops[1].status == Success && WrongProperties(r.ops[1].rec.enumSeg)
      && !r.worlds[2].table[0].isValid && r.worlds[2].handles[0].bdf == r.worlds[2].table[0].key
  {
    OddPropertiesIsStep(key, guid);
    RefusedAsInvalid(key, guid);
    OddSegIs(guid);
    FutileIsRun(key, guid, OddProperties(key, guid), HalfConnected(key, guid), MediaChanged, Dropped(key, guid));
    OneUpdates(Bare(key, guid), Linked(key, guid, 1, 1, 1));
  }
}
