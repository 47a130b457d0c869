/** The values the session layer works on: the 4-slot device table, the client table of a device, and a handle's
    connection record (src/uefi/heci_efi.c:31-116, src/uefi/metee_efi.h:80-165). */
module HeciTable {
  import opened HeciRegisters
  import opened HeciPackets
  import opened Wrappers

  const MAX_DEVICES: nat := 4
  const MAX_FW_CLIENTS: nat := 256

  datatype Bdf = Bdf(segment: Word, bus: Word, device: Word, func: Word)

  const UNINITIALIZED: Bdf := Bdf(0xFFFF_FFFF, 0xFFFF_FFFF, 0xFFFF_FFFF, 0xFFFF_FFFF)

  type Guid = g: seq<Byte> | |g| == 16 witness [0, 0, 0, 0, 0, 0, 0, 0, 0, 0, 0, 0, 0, 0, 0, 0]

  const ZERO_GUID: Guid := [0, 0, 0, 0, 0, 0, 0, 0, 0, 0, 0, 0, 0, 0, 0, 0]

  datatype Properties = Properties(
    protocolName: Guid, protocolVersion: Byte, maxConnections: Byte, address: Byte,
    singleReceiveBuffer: Byte, maxMessageLength: Word, fixedAddress: Byte)

  const ZERO_PROPERTIES: Properties := Properties(ZERO_GUID, 0, 0, 0, 0, 0, 0)

  datatype Client = Client(properties: Properties, isValid: bool)

  const ZERO_CLIENT: Client := Client(ZERO_PROPERTIES, false)

  /** One device. `generation` counts link resets; the source's UINT32 counter is taken as unbounded. */
  datatype Slot = Slot(key: Bdf, isValid: bool, generation: nat, hostIds: seq<bool>, clients: seq<Client>)

  function NoIds(): seq<bool> {
    seq(MAX_FW_CLIENTS, i => false)
  }

  function NoClients(): seq<Client> {
    seq(MAX_FW_CLIENTS, i => ZERO_CLIENT)
  }

  function NewSlot(key: Bdf): Slot {
    Slot(key, false, 0, NoIds(), NoClients())
  }

  type Table = seq<Slot>

  function InitialTable(): Table {
    seq(MAX_DEVICES, i => NewSlot(UNINITIALIZED))
  }

  predicate SlotOk(s: Slot) {
    |s.hostIds| == MAX_FW_CLIENTS && |s.clients| == MAX_FW_CLIENTS
  }

  predicate TableOk(t: Table) {
    |t| == MAX_DEVICES && forall i :: 0 <= i < |t| ==> SlotOk(t[i])
  }

  datatype Connection = Connection(properties: Properties, generation: nat, connected: bool, hostClientId: Byte)

  const NO_CONNECTION: Connection := Connection(ZERO_PROPERTIES, 0, false, 0)

  // ---------- finding a device ----------

  function Keys(t: Table): seq<Bdf> {
    seq(|t|, i requires 0 <= i < |t| => t[i].key)
  }

  /** The first index at or after `from` that holds `key`, or the length. */
  function IndexFrom(keys: seq<Bdf>, key: Bdf, from: nat): (r: nat)
    requires from <= |keys|
    ensures from <= r <= |keys|
    ensures r < |keys| ==> keys[r] == key
    ensures forall k :: from <= k < r ==> keys[k] != key
    decreases |keys| - from
  {
    if from == |keys| || keys[from] == key then from else IndexFrom(keys, key, from + 1)
  }

  /** GetHeciLibrary: the slot of this device, taking a free one if it has none yet. */
  function Lookup(t: Table, key: Bdf): (r: (Table, Option<nat>))
    ensures r.1.Some? ==> r.1.value < |r.0|
    ensures |r.0| == |t| && (TableOk(t) ==> TableOk(r.0))
  {
    var i := IndexFrom(Keys(t), key, 0);
    if i < |t| then (t, Some(i)) else
    var j := IndexFrom(Keys(t), UNINITIALIZED, 0);
    if j < |t| then (t[j := NewSlot(key)], Some(j)) else (t, None)
  }

  /** Slot `i` is the one a lookup of `key` finds. */
  predicate At(t: Table, key: Bdf, i: nat) {
    TableOk(t) && i < MAX_DEVICES && IndexFrom(Keys(t), key, 0) == i
  }

  lemma AtMeansLookup(t: Table, key: Bdf, i: nat)
    requires At(t, key, i)
    ensures Lookup(t, key) == (t, Some(i)) && t[i].key == key
  {}

  lemma FoundIsAt(t: Table, key: Bdf)
    requires TableOk(t) && Lookup(t, key).1.Some?
    ensures At(Lookup(t, key).0, key, Lookup(t, key).1.value)
  {
    var (u, r) := Lookup(t, key);
    if IndexFrom(Keys(t), key, 0) == |t| {
      forall k | 0 <= k < r.value
        ensures Keys(u)[k] != key
      {
        assert Keys(u)[k] == Keys(t)[k];
      }
      assert Keys(u)[r.value] == key;
    }
  }

  /** Rewriting a slot without touching its key moves no device. */
  lemma UpdateKeepsKeys(t: Table, i: nat, s: Slot)
    requires i < |t| && s.key == t[i].key
    ensures Keys(t[i := s]) == Keys(t)
  {}

  // ---------- scans of one device ----------

  function FirstMatch(clients: seq<Client>, guid: Guid, from: nat): (r: Option<nat>)
    requires from <= |clients|
    ensures r.Some? ==> from <= r.value < |clients| && clients[r.value].properties.protocolName == guid
    ensures r.Some? ==> forall k :: from <= k < r.value ==> clients[k].properties.protocolName != guid
    ensures r.None? ==> forall k :: from <= k < |clients| ==> clients[k].properties.protocolName != guid
    decreases |clients| - from
  {
    if from == |clients| then None
    else if clients[from].properties.protocolName == guid then Some(from)
    else FirstMatch(clients, guid, from + 1)
  }

  function FirstFree(ids: seq<bool>, from: nat): (r: Option<nat>)
    requires from <= |ids|
    ensures r.Some? ==> from <= r.value < |ids| && !ids[r.value] && forall k :: from <= k < r.value ==> ids[k]
    ensures r.None? ==> forall k :: from <= k < |ids| ==> ids[k]
    decreases |ids| - from
  {
    if from == |ids| then None else if !ids[from] then Some(from) else FirstFree(ids, from + 1)
  }

  // ---------- host bus messages ----------

  const HOST_ENUM_REQ: Byte := 0x04
  const HOST_ENUM_RES: Byte := 0x84
  const CLIENT_PROPERTIES_REQ: Byte := 0x05
  const CLIENT_PROPERTIES_RES: Byte := 0x85
  const CONNECT_REQ: Byte := 0x06
  const CONNECT_RES: Byte := 0x86
  const DISCONNECT_REQ: Byte := 0x07
  const DISCONNECT_RES: Byte := 0x87
  const FLOW_CONTROL: Byte := 0x08

  /** Bit `k` of a number. */
  predicate Bit(b: nat, k: nat) {
    if k == 0 then b % 2 == 1 else Bit(b / 2, k - 1)
  }

  /** Bit `idx` of the enumeration response. */
  predicate BitSet(bitmap: seq<Byte>, idx: nat)
    requires |bitmap| == 32 && idx < MAX_FW_CLIENTS
  {
    Bit(bitmap[idx / 8], idx % 8)
  }

  /** A properties response is 28 bytes: command, address, status, reserved, then the properties. */
  predicate IsPropertiesReply(reply: seq<Byte>) {
    |reply| == 28 && reply[0] == CLIENT_PROPERTIES_RES
  }

  function ClientOf(reply: seq<Byte>): Client
    requires IsPropertiesReply(reply)
  {
    Client(Properties(reply[4..20], reply[20], reply[21], reply[1], reply[23], LoadWord(reply, 24), reply[22]), true)
  }

  /** The reply of a client with these properties, field by field as the firmware lays it out. */
  function PropertiesReply(p: Properties): seq<Byte> {
    [CLIENT_PROPERTIES_RES, p.address, 0, 0]
    + p.protocolName
    + [p.protocolVersion, p.maxConnections, p.fixedAddress, p.singleReceiveBuffer]
    + WordBytes(p.maxMessageLength)
  }

  /** Whatever the properties of a client, the host reads all of them back out of its reply. */
  lemma ReplyRoundTrip(p: Properties)
    ensures IsPropertiesReply(PropertiesReply(p)) && PropertiesReply(p)[2] == 0
    ensures ClientOf(PropertiesReply(p)) == Client(p, true)
  {
    var reply := PropertiesReply(p);
    assert reply[4..20] == p.protocolName;
    BytesLoad(p.maxMessageLength);
    LoadElsewhere(reply, 24, WordBytes(p.maxMessageLength));
  }

  lemma LoadElsewhere(mem: seq<Byte>, off: nat, bytes: seq<Byte>)
    requires off + 4 <= |mem| && |bytes| == 4 && forall k :: 0 <= k < 4 ==> mem[off + k] == bytes[k]
    ensures LoadWord(mem, off) == LoadWord(bytes, 0)
  {}

  type Replies = map<nat, seq<Byte>>

  predicate RepliesOk(replies: Replies) {
    forall k :: k in replies ==> IsPropertiesReply(replies[k])
  }

  /** The client table that a set of property replies stands for. */
  function TableOf(replies: Replies): seq<Client>
    requires RepliesOk(replies)
  {
    seq(MAX_FW_CLIENTS, k => if k in replies && replies[k][2] == 0 then ClientOf(replies[k]) else ZERO_CLIENT)
  }

  /** For every GUID but zero, the scan that ignores isValid finds the lowest valid entry, or nothing when no valid
      entry has it; for the zero GUID it always stops at the unused entry 0. */
  lemma ScanFindsValidEntries(replies: Replies, guid: Guid)
    requires RepliesOk(replies) && 0 !in replies
    ensures var clients, r := TableOf(replies), FirstMatch(TableOf(replies), guid, 0);
      && (r.Some? && !clients[r.value].isValid <==> guid == ZERO_GUID)
      && (guid != ZERO_GUID ==>
            && (r.None? ==> forall k :: 0 <= k < |clients| && clients[k].isValid ==> clients[k].properties.protocolName != guid)
            && (r.Some? ==>
                  && clients[r.value].isValid && r.value in replies && replies[r.value][4..20] == guid
                  && forall k :: 0 <= k < r.value && clients[k].isValid ==> clients[k].properties.protocolName != guid))
  {
    var clients := TableOf(replies);
    assert clients[0] == ZERO_CLIENT;
    var r := FirstMatch(clients, guid, 0);
    if r.Some? && !clients[r.value].isValid {
      assert clients[r.value] == ZERO_CLIENT;
    }
  }

  // ---------- the device table over any sequence of lookups ----------

  predicate Used(s: Slot) {
    s.key != UNINITIALIZED
  }

  /** Used slots come first and hold different devices. */
  predicate Tidy(t: Table) {
    && TableOk(t)
    && (forall i, j :: 0 <= i < j < |t| && Used(t[j]) ==> Used(t[i]))
    && (forall i, j :: 0 <= i < j < |t| && Used(t[i]) && Used(t[j]) ==> t[i].key != t[j].key)
  }

  lemma LookupKeepsTidy(t: Table, key: Bdf)
    requires Tidy(t) && key != UNINITIALIZED
    ensures var (u, r) := Lookup(t, key);
      && Tidy(u)
      && (r.None? <==> (forall i :: 0 <= i < |t| ==> Used(t[i]) && t[i].key != key))
      && (forall i :: 0 <= i < |t| && Used(t[i]) ==> u[i] == t[i])
      && (r.Some? ==> u[r.value].key == key)
      && (r.Some? && !Used(t[r.value]) ==> u[r.value] == NewSlot(key))
  {
    var i, j := IndexFrom(Keys(t), key, 0), IndexFrom(Keys(t), UNINITIALIZED, 0);
    var (u, r) := Lookup(t, key);
    assert forall k :: 0 <= k < |t| ==> Keys(t)[k] == t[k].key;
    if i == |t| && j < |t| {
      assert forall k :: 0 <= k < |t| && k != j ==> u[k] == t[k];
      assert !Used(t[j]);
    }
  }

  function LookupAll(t: Table, keys: seq<Bdf>): Table
    decreases |keys|
  {
    if keys == [] then t else LookupAll(Lookup(t, keys[0]).0, keys[1..])
  }

  /** Over any sequence of lookups of real devices the table stays tidy, no slot changes hands, and a device that has
      been found is found again in the same slot. */
  lemma {:induction false} LookupsKeepSlots(t: Table, keys: seq<Bdf>)
    requires Tidy(t) && UNINITIALIZED !in keys
    ensures Tidy(LookupAll(t, keys))
    ensures forall i :: 0 <= i < |t| && Used(t[i]) ==> LookupAll(t, keys)[i] == t[i]
    decreases |keys|
  {
    if keys == [] {
    } else {
      LookupKeepsTidy(t, keys[0]);
      LookupsKeepSlots(Lookup(t, keys[0]).0, keys[1..]);
    }
  }

  lemma SameKeySameSlot(t: Table, key: Bdf, keys: seq<Bdf>)
    requires Tidy(t) && key != UNINITIALIZED && UNINITIALIZED !in keys
    requires Lookup(t, key).1.Some?
    ensures var (u, r) := Lookup(t, key);
      Lookup(LookupAll(u, keys), key) == (LookupAll(u, keys), r)
  {
    var (u, r) := Lookup(t, key);
    var v := LookupAll(u, keys);
    LookupKeepsTidy(t, key);
    LookupsKeepSlots(u, keys);
    assert v[r.value].key == key && Keys(v)[r.value] == key;
    var i := IndexFrom(Keys(v), key, 0);
    assert Keys(v)[i] == v[i].key == key;
  }
}
