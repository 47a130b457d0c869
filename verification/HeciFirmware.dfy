/** A small firmware to make concrete runs with: it has one client, number 1, with a fixed address or without, and answers
    its enumeration (src/uefi/heci_efi.c:474-581) and every connect (src/uefi/heci_efi.c:680-727). */
module HeciFirmware {
  import opened HeciRegisters
  import opened HeciTable
  import opened Wrappers
  import opened HeciWire
  import opened HeciSession
  import opened HeciRuns

  const ADDRESS: Byte := 7

  /** The client: address 7, messages of up to 8 bytes. */
  function TheClient(guid: Guid, fixed: Byte): Properties {
    Properties(guid, 2, 3, ADDRESS, 0, 8, fixed)
  }

  function Reply(guid: Guid, fixed: Byte): seq<Byte> {
    PropertiesReply(TheClient(guid, fixed))
  }

  function Clients(guid: Guid, fixed: Byte): (r: seq<Client>)
    ensures |r| == MAX_FW_CLIENTS
  {
    NoClients()[1 := Client(TheClient(guid, fixed), true)]
  }

  function OneReply(guid: Guid, fixed: Byte): Replies {
    map[1 := Reply(guid, fixed)]
  }

  lemma ReplyIsClient(guid: Guid, fixed: Byte)
    ensures IsPropertiesReply(Reply(guid, fixed)) && Reply(guid, fixed)[2] == 0
    ensures ClientOf(Reply(guid, fixed)) == Client(TheClient(guid, fixed), true)
  {
    ReplyRoundTrip(TheClient(guid, fixed));
  }

  lemma RepliesAreClients(guid: Guid, fixed: Byte)
    ensures RepliesOk(OneReply(guid, fixed)) && TableOf(OneReply(guid, fixed)) == Clients(guid, fixed)
  {
    ReplyIsClient(guid, fixed);
  }

  lemma ScanFindsClient(guid: Guid, fixed: Byte)
    requires guid != ZERO_GUID
    ensures FirstMatch(Clients(guid, fixed), guid, 0) == Some(1)
  {
    var clients := Clients(guid, fixed);
    assert clients[0] == ZERO_CLIENT && clients[1].properties.protocolName == guid;
  }

  // ---- the bitmap ----

  function Zeros(n: nat): seq<Byte> {
    seq(n, i => 0)
  }

  /** The bits of `low` only. */
  function Bitmap(low: Byte): seq<Byte> {
    [low] + Zeros(31)
  }

  lemma {:induction false} ZeroBits(k: nat)
    ensures !Bit(0, k)
  {
    if k == 0 {
    } else {
      ZeroBits(k - 1);
    }
  }

  /** 2 has bit 1, and 6 has bits 1 and 2. */
  lemma SmallBits(k: nat)
    ensures (Bit(2, k) <==> k == 1) && (Bit(6, k) <==> k == 1 || k == 2)
  {
    if k >= 3 {
      assert Bit(2, k) == Bit(1, k - 1) == Bit(0, k - 2);
      assert Bit(6, k) == Bit(3, k - 1) == Bit(1, k - 2) == Bit(0, k - 3);
      ZeroBits(k - 2);
      ZeroBits(k - 3);
    } else {
      ZeroBits(0);
    }
  }

  lemma Eighth(k: nat)
    ensures (k < 8 ==> k / 8 == 0 && k % 8 == k) && (k >= 8 ==> k / 8 >= 1)
    ensures k < MAX_FW_CLIENTS ==> k / 8 < 32
  {}

  lemma BitmapByte(low: Byte, j: nat)
    requires j < 32
    ensures |Bitmap(low)| == 32 && Bitmap(low)[j] == if j == 0 then low else 0
  {}

  lemma BitmapSet(low: Byte, k: nat)
    requires k < MAX_FW_CLIENTS
    ensures |Bitmap(low)| == 32 && (BitSet(Bitmap(low), k) <==> k < 8 && Bit(low, k))
  {
    Eighth(k);
    BitmapByte(low, k / 8);
    ZeroBits(k % 8);
  }

  // ---- enumeration ----

  function PropertySeg(idx: Byte, reply: seq<Byte>): seq<Exchange> {
    [Sent(0, 0, [CLIENT_PROPERTIES_REQ, idx, 0, 0], Success), Received(28, 28, reply, [0], Success)]
  }

  function EnumHead(low: Byte): seq<Exchange> {
    [Reset(Success), Sent(0, 0, [HOST_ENUM_REQ, 0, 0, 0], Success),
     Received(36, 36, [HOST_ENUM_RES, 0, 0, 0] + Bitmap(low), [0], Success)]
  }

  function EnumSeg(guid: Guid, fixed: Byte): seq<Exchange> {
    EnumHead(2) + PropertySeg(1, Reply(guid, fixed))
  }

  lemma {:induction false} AnsweredOnce(guid: Guid, fixed: Byte, limit: nat)
    requires 2 <= limit <= MAX_FW_CLIENTS
    ensures PropertyExchanges(OneReply(guid, fixed), PropertySeg(1, Reply(guid, fixed)), limit)
  {
    var r, seg := OneReply(guid, fixed), PropertySeg(1, Reply(guid, fixed));
    if limit == 2 {
      assert seg[..0] == [] && seg[0..] == seg;
      assert PropertyExchanges(r, [], 0);
      assert PropertyExchanges(r, [], 1);
    } else {
      AnsweredOnce(guid, fixed, limit - 1);
    }
  }

  /** The device after it has been enumerated in generation `g`, with some ids marked. */
  function Listed(key: Bdf, guid: Guid, fixed: Byte, g: nat, ids: seq<bool>): Slot {
    Slot(key, true, g, ids, Clients(guid, fixed))
  }

  lemma AllCovered(guid: Guid, fixed: Byte)
    ensures |Bitmap(2)| == 32 && Covers(OneReply(guid, fixed), Bitmap(2), MAX_FW_CLIENTS)
  {
    forall k | 1 <= k < MAX_FW_CLIENTS
      ensures BitSet(Bitmap(2), k) <==> k == 1
    {
      BitmapSet(2, k);
      SmallBits(k);
    }
  }

  lemma AllFetched(guid: Guid, fixed: Byte)
    ensures Fetched(Bitmap(2), OneReply(guid, fixed), EnumSeg(guid, fixed)) && OneEnumerationRequest(EnumSeg(guid, fixed))
  {
    AnsweredOnce(guid, fixed, MAX_FW_CLIENTS);
    assert EnumSeg(guid, fixed)[3..] == PropertySeg(1, Reply(guid, fixed));
    assert EnumSeg(guid, fixed)[2].content[4..] == Bitmap(2);
  }

  lemma EnumerationSucceeds(s: Slot, guid: Guid, fixed: Byte)
    requires !s.isValid
    ensures EnumPost(s, Listed(s.key, guid, fixed, s.generation + 1, NoIds()), Success, Bitmap(2), OneReply(guid, fixed),
                     EnumSeg(guid, fixed))
  {
    RepliesAreClients(guid, fixed);
    AllCovered(guid, fixed);
    AllFetched(guid, fixed);
  }

  // ---- a table with one device ----

  function Tab(s: Slot): Table {
    InitialTable()[0 := s]
  }

  lemma TabLookup(s: Slot)
    requires s.key != UNINITIALIZED && SlotOk(s)
    ensures TableOk(Tab(s)) && Tab(s)[0] == s && Lookup(Tab(s), s.key) == (Tab(s), Some(0))
    ensures IndexFrom(Keys(Tab(s)), s.key, 0) == 0
  {
    assert Keys(Tab(s))[0] == s.key;
  }

  lemma FreshLookup(key: Bdf)
    requires key != UNINITIALIZED
    ensures TableOk(InitialTable()) && Lookup(InitialTable(), key) == (Tab(NewSlot(key)), Some(0))
  {
    var t := InitialTable();
    assert forall k :: 0 <= k < |t| ==> Keys(t)[k] == UNINITIALIZED;
    assert IndexFrom(Keys(t), UNINITIALIZED, 0) == 0;
  }

  lemma FirstIds()
    ensures |NoIds()| == MAX_FW_CLIENTS
    ensures FirstFree(NoIds(), 1) == Some(1) && FirstFree(NoIds()[1 := true], 1) == Some(2)
  {
    assert !NoIds()[1] && !NoIds()[1 := true][2];
  }

  function OneId(): seq<bool> {
    NoIds()[1 := true]
  }

  function TwoIds(): seq<bool> {
    NoIds()[1 := true][2 := true]
  }

  // ---- connecting ----

  function Link(guid: Guid, fixed: Byte, g: nat, id: Byte): Connection {
    Connection(TheClient(guid, fixed), g, true, id)
  }

  /** Request, answer and first credit; nothing for a fixed address. */
  function Greeting(fixed: Byte, id: Byte): seq<Exchange> {
    if fixed != 0 then [] else
    [Sent(0, 0, ConnectRequest(ADDRESS, id), Success), Received(4, 4, [CONNECT_RES, ADDRESS, id, 0], [0], Success),
     Received(8, 8, FlowControlMessage(ADDRESS, id), [0], Success)]
  }

  lemma GreetingIsDone(id: Byte)
    ensures HandshakeDone(Greeting(0, id), ADDRESS, id)
  {}

  /** The part after enumeration takes the first free id. */
  lemma Selects(s: Slot, conn: Connection, guid: Guid, fixed: Byte, id: Byte)
    requires guid != ZERO_GUID && SlotOk(s) && s.key != UNINITIALIZED && s.clients == Clients(guid, fixed)
    requires FirstFree(s.hostIds, 1) == Some(id as nat)
    ensures TableOk(Tab(s))
    ensures SelectPost(Tab(s), 0, conn, guid, Tab(s.(hostIds := s.hostIds[id as nat := true])),
                       Link(guid, fixed, s.generation, id), Success, Greeting(fixed, id))
  {
    ScanFindsClient(guid, fixed);
    GreetingIsDone(id);
    TabLookup(s);
    assert Tab(s)[0 := s.(hostIds := s.hostIds[id as nat := true])] == Tab(s.(hostIds := s.hostIds[id as nat := true]));
  }

  /** One connect of handle `h`, under id `id`, on the device that enumeration has left as `mid`. */
  lemma ConnectStep(w: World, h: nat, s: Slot, guid: Guid, fixed: Byte, id: Byte, rec: ConnectRecord)
    requires guid != ZERO_GUID && h in w.handles && w.handles[h].guid == guid && !w.handles[h].conn.connected
    requires TableOk(w.table) && Lookup(w.table, w.handles[h].bdf) == (Tab(s), Some(0)) && s.key != UNINITIALIZED
    requires SlotOk(s) && SlotOk(rec.mid) && rec.mid.key == s.key && rec.mid.clients == Clients(guid, fixed)
    requires EnumPost(s, rec.mid, rec.enumStatus, rec.bitmap, rec.replies, rec.enumSeg) && rec.enumStatus == Success
    requires FirstFree(rec.mid.hostIds, 1) == Some(id as nat) && rec.seg == Greeting(fixed, id)
    ensures Next(w, Op.Connect(h, Success, rec),
                 World(Tab(rec.mid.(hostIds := rec.mid.hostIds[id as nat := true])),
                       w.handles[h := w.handles[h].(conn := Link(guid, fixed, rec.mid.generation, id))]))
  {
    Selects(rec.mid, w.handles[h].conn, guid, fixed, id);
    TabLookup(s);
    assert Tab(s)[0 := rec.mid] == Tab(rec.mid);
  }

  // ---- two handles on that device ----

  function Bare(key: Bdf, guid: Guid): Handle {
    Handle(key, guid, NO_CONNECTION)
  }

  function Linked(key: Bdf, guid: Guid, fixed: Byte, g: nat, id: Byte): Handle {
    Handle(key, guid, Link(guid, fixed, g, id))
  }

  function Two(a: Handle, b: Handle): map<nat, Handle> {
    map[0 := a, 1 := b]
  }

  lemma TwoUpdates(a: Handle, b: Handle, c: Handle)
    ensures 0 in Two(a, b) && 1 in Two(a, b) && Two(a, b)[0] == a && Two(a, b)[1] == b
    ensures Two(a, b)[0 := c] == Two(c, b) && Two(a, b)[1 := c] == Two(a, c) && Two(a, b) - {0} == map[1 := b]
  {}

  lemma OneOpens(key: Bdf, guid: Guid)
    requires key != UNINITIALIZED
    ensures Next(START, Op.Open(0, key, guid), World(InitialTable(), map[0 := Bare(key, guid)]))
  {
    assert map[][0 := Bare(key, guid)] == map[0 := Bare(key, guid)];
  }

  lemma AnotherOpens(key: Bdf, guid: Guid)
    requires key != UNINITIALIZED
    ensures Next(World(InitialTable(), map[0 := Bare(key, guid)]), Op.Open(1, key, guid),
                 World(InitialTable(), Two(Bare(key, guid), Bare(key, guid))))
  {
    var a := Bare(key, guid);
    assert map[0 := a][1 := a] == Two(a, a);
  }

  /** What a connect records that enumerates the device into generation `g`, or finds it valid. */
  function Afresh(key: Bdf, guid: Guid, fixed: Byte, g: nat): ConnectRecord {
    ConnectRecord(Success, Listed(key, guid, fixed, g, NoIds()), Bitmap(2), OneReply(guid, fixed), EnumSeg(guid, fixed), Greeting(fixed, 1))
  }

  function Joining(key: Bdf, guid: Guid, fixed: Byte): ConnectRecord {
    ConnectRecord(Success, Listed(key, guid, fixed, 1, OneId()), Bitmap(2), OneReply(guid, fixed), [], Greeting(fixed, 2))
  }

  /** Handle `h` connects to a device that is not valid, and is given id 1. */
  lemma ConnectsAfresh(w: World, h: nat, s: Slot, guid: Guid, fixed: Byte)
    requires guid != ZERO_GUID && h in w.handles && w.handles[h].guid == guid && !w.handles[h].conn.connected
    requires TableOk(w.table) && Lookup(w.table, w.handles[h].bdf) == (Tab(s), Some(0)) && s.key != UNINITIALIZED
    requires SlotOk(s) && !s.isValid
    ensures Next(w, Op.Connect(h, Success, Afresh(s.key, guid, fixed, s.generation + 1)),
                 World(Tab(Listed(s.key, guid, fixed, s.generation + 1, OneId())),
                       w.handles[h := w.handles[h].(conn := Link(guid, fixed, s.generation + 1, 1))]))
  {
    FirstIds();
    EnumerationSucceeds(s, guid, fixed);
    ConnectStep(w, h, s, guid, fixed, 1, Afresh(s.key, guid, fixed, s.generation + 1));
  }

  lemma FirstConnects(key: Bdf, guid: Guid, fixed: Byte)
    requires key != UNINITIALIZED && guid != ZERO_GUID
    ensures Next(World(InitialTable(), Two(Bare(key, guid), Bare(key, guid))), Op.Connect(0, Success, Afresh(key, guid, fixed, 1)),
                 World(Tab(Listed(key, guid, fixed, 1, OneId())), Two(Linked(key, guid, fixed, 1, 1), Bare(key, guid))))
  {
    var a := Bare(key, guid);
    TwoUpdates(a, a, Linked(key, guid, fixed, 1, 1));
    FreshLookup(key);
    ConnectsAfresh(World(InitialTable(), Two(a, a)), 0, NewSlot(key), guid, fixed);
  }

  lemma SecondConnects(key: Bdf, guid: Guid, fixed: Byte)
    requires key != UNINITIALIZED && guid != ZERO_GUID
    ensures Next(World(Tab(Listed(key, guid, fixed, 1, OneId())), Two(Linked(key, guid, fixed, 1, 1), Bare(key, guid))),
                 Op.Connect(1, Success, Joining(key, guid, fixed)),
                 World(Tab(Listed(key, guid, fixed, 1, TwoIds())), Two(Linked(key, guid, fixed, 1, 1), Linked(key, guid, fixed, 1, 2))))
  {
    var slot, a, b := Listed(key, guid, fixed, 1, OneId()), Linked(key, guid, fixed, 1, 1), Bare(key, guid);
    TwoUpdates(a, b, Linked(key, guid, fixed, 1, 2));
    FirstIds();
    TabLookup(slot);
    ConnectStep(World(Tab(slot), Two(a, b)), 1, slot, guid, fixed, 2, Joining(key, guid, fixed));
  }
}
