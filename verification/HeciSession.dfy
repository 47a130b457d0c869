/** The session layer of src/uefi/heci_efi.c: the global device table, and the calls a handle makes on it. */
module HeciSession {
  import opened HeciRegisters
  import opened HeciPackets
  import opened HeciDevice
  import opened HeciCore
  import opened HeciHandshake
  import opened HeciTable
  import opened Wrappers
  import opened HeciWire

  /** What the transport's outcome does to the table and the connection: EFI_ABORTED ends the link. */
  function Settle(t: Table, conn: Connection, bdf: Bdf, outcome: EfiStatus): (Table, Connection, EfiStatus) {
    if outcome != Aborted then (t, conn, outcome) else
    var (u, r) := Lookup(t, bdf);
    if r.None? then (u, conn, OutOfResources) else
    (u[r.value := u[r.value].(isValid := false)], conn.(connected := false), MediaChanged)
  }

  lemma SettleAt(t: Table, conn: Connection, bdf: Bdf, i: nat, outcome: EfiStatus)
    requires At(t, bdf, i)
    ensures At(Settle(t, conn, bdf, outcome).0, bdf, i)
    ensures Settle(t, conn, bdf, outcome) ==
            if outcome == Aborted
            then (t[i := t[i].(isValid := false)], conn.(connected := false), MediaChanged)
            else (t, conn, outcome)
  {
    AtMeansLookup(t, bdf, i);
    UpdateKeepsKeys(t, i, t[i].(isValid := false));
  }

  const MAX_CONNECT_RETRIES: nat := 3

  function FlowControlMessage(fwAddress: Byte, hostId: Byte): seq<Byte> {
    [FLOW_CONTROL, fwAddress, hostId, 0, 0, 0, 0, 0]
  }

  predicate TransportOutcome(s: EfiStatus) {
    s == Success || s == DeviceError || s == Aborted
  }

  function WithClients(t: Table, i: nat, clients: seq<Client>): Table
    requires i < |t|
  {
    t[i := t[i].(clients := clients)]
  }

  lemma WithClientsAt(t: Table, bdf: Bdf, i: nat, clients: seq<Client>)
    requires At(t, bdf, i) && |clients| == MAX_FW_CLIENTS
    ensures At(WithClients(t, i, clients), bdf, i)
  {
    UpdateKeepsKeys(t, i, t[i].(clients := clients));
  }

  lemma WithClientsTwice(t: Table, i: nat, a: seq<Client>, b: seq<Client>)
    requires i < |t|
    ensures WithClients(WithClients(t, i, a), i, b) == WithClients(t, i, b)
  {}

  lemma TableGrows(replies: Replies, idx: nat, reply: seq<Byte>)
    requires RepliesOk(replies) && IsPropertiesReply(reply) && idx !in replies && idx < MAX_FW_CLIENTS
    ensures RepliesOk(replies[idx := reply])
    ensures TableOf(replies[idx := reply]) ==
            if reply[2] == 0 then TableOf(replies)[idx := ClientOf(reply)] else TableOf(replies)
  {}

  /** Answers exist only for clients 1..limit-1 with their bit set. */
  ghost predicate Within(replies: Replies, bitmap: seq<Byte>, limit: nat)
    requires |bitmap| == 32 && limit <= MAX_FW_CLIENTS
  {
    forall k :: k in replies ==> 1 <= k < limit && BitSet(bitmap, k)
  }

  /** And for all of those. */
  ghost predicate Covers(replies: Replies, bitmap: seq<Byte>, limit: nat)
    requires |bitmap| == 32 && limit <= MAX_FW_CLIENTS
  {
    Within(replies, bitmap, limit) && forall k :: 1 <= k < limit && BitSet(bitmap, k) ==> k in replies
  }

  /** The two exchanges that fetched one reply. */
  predicate FetchedBy(idx: Byte, reply: seq<Byte>, seg: seq<Exchange>) {
    && |seg| == 2
    && seg[0] == Sent(0, 0, [CLIENT_PROPERTIES_REQ, idx, 0, 0], Success)
    && seg[1].Received? && seg[1].outcome == Success && seg[1].content == reply
  }

  /** The exchanges that fetched `replies`: a request and its answer for each client below `limit`, in order. */
  ghost predicate PropertyExchanges(replies: Replies, seg: seq<Exchange>, limit: nat)
    requires limit <= MAX_FW_CLIENTS
  {
    if limit == 0 then seg == [] else
    if limit - 1 !in replies then PropertyExchanges(replies, seg, limit - 1) else
    && |seg| >= 2
    && FetchedBy(limit - 1, replies[limit - 1], seg[|seg| - 2..])
    && PropertyExchanges(replies, seg[..|seg| - 2], limit - 1)
  }

  lemma {:induction false} ExchangesIgnoreLater(replies: Replies, idx: nat, reply: seq<Byte>, seg: seq<Exchange>, limit: nat)
    requires limit <= idx < MAX_FW_CLIENTS && PropertyExchanges(replies, seg, limit)
    ensures PropertyExchanges(replies[idx := reply], seg, limit)
  {
    if limit == 0 {
    } else {
      ExchangesIgnoreLater(replies, idx, reply, if limit - 1 in replies then seg[..|seg| - 2] else seg, limit - 1);
    }
  }

  /** How far the enumeration loop has got. */
  ghost predicate Enumerated(t: Table, start: Table, i: nat, bitmap: seq<Byte>, replies: Replies, seg: seq<Exchange>, idx: nat) {
    && i < |start| && |bitmap| == 32 && idx <= MAX_FW_CLIENTS
    && RequestsOnly(seg) && RepliesOk(replies)
    && t == WithClients(start, i, TableOf(replies))
    && Covers(replies, bitmap, idx)
    && PropertyExchanges(replies, seg, idx)
  }

  lemma CoversOneMore(replies: Replies, bitmap: seq<Byte>, idx: nat, reply: seq<Byte>)
    requires |bitmap| == 32 && 1 <= idx < MAX_FW_CLIENTS && BitSet(bitmap, idx) && Covers(replies, bitmap, idx)
    ensures Covers(replies[idx := reply], bitmap, idx + 1)
  {}

  lemma ExchangesOneMore(replies: Replies, idx: nat, reply: seq<Byte>, seg: seq<Exchange>, s: seq<Exchange>)
    requires idx < MAX_FW_CLIENTS && PropertyExchanges(replies, seg, idx) && FetchedBy(idx, reply, s)
    ensures PropertyExchanges(replies[idx := reply], seg + s, idx + 1)
  {
    ExchangesIgnoreLater(replies, idx, reply, seg, idx);
    assert (seg + s)[..|seg + s| - 2] == seg && (seg + s)[|seg + s| - 2..] == s;
  }

  lemma EnumerationStarts(start: Table, i: nat, bitmap: seq<Byte>)
    requires i < |start| && |bitmap| == 32 && start[i].clients == NoClients()
    ensures Enumerated(start, start, i, bitmap, map[], [], 1)
  {
    EmptyReplies();
    assert start == WithClients(start, i, TableOf(map[]));
  }

  lemma RequestsOnlyAppend(a: seq<Exchange>, b: seq<Exchange>)
    requires RequestsOnly(a) && RequestsOnly(b)
    ensures RequestsOnly(a + b)
  {}

  lemma EnumerationSkips(t: Table, start: Table, i: nat, bitmap: seq<Byte>, replies: Replies, seg: seq<Exchange>, idx: nat)
    requires Enumerated(t, start, i, bitmap, replies, seg, idx)
    requires 1 <= idx < MAX_FW_CLIENTS && !BitSet(bitmap, idx)
    ensures Enumerated(t, start, i, bitmap, replies, seg, idx + 1)
  {}

  lemma EnumerationSteps(t: Table, start: Table, i: nat, bitmap: seq<Byte>, replies: Replies, seg: seq<Exchange>, idx: nat,
                         reply: seq<Byte>, s: seq<Exchange>)
    requires Enumerated(t, start, i, bitmap, replies, seg, idx)
    requires 1 <= idx < MAX_FW_CLIENTS && BitSet(bitmap, idx)
    requires IsPropertiesReply(reply) && FetchedBy(idx, reply, s)
    ensures RepliesOk(replies[idx := reply])
    ensures Enumerated(WithClients(t, i, TableOf(replies[idx := reply])), start, i, bitmap, replies[idx := reply], seg + s, idx + 1)
  {
    TableGrows(replies, idx, reply);
    WithClientsTwice(start, i, TableOf(replies), TableOf(replies[idx := reply]));
    CoversOneMore(replies, bitmap, idx, reply);
    ExchangesOneMore(replies, idx, reply, seg, s);
    FetchedIsRequest(idx, reply, s);
    RequestsOnlyAppend(seg, s);
  }

  lemma FetchedIsRequest(idx: Byte, reply: seq<Byte>, s: seq<Exchange>)
    requires FetchedBy(idx, reply, s)
    ensures RequestsOnly(s)
  {}

  /** How a failure of the transport is reported during enumeration. */
  function LinkFailure(outcome: EfiStatus): EfiStatus {
    if outcome == Aborted then MediaChanged else DeviceError
  }

  /** The turn for client `idx` that ends an enumeration early: an exchange fails, or the answer carries another command,
      which is reported as success. */
  predicate FailedTurn(idx: Byte, s: seq<Exchange>, status: EfiStatus) {
    && 1 <= |s| <= 2
    && s[0] == Sent(0, 0, [CLIENT_PROPERTIES_REQ, idx, 0, 0], s[0].outcome)
    && (|s| == 2 <==> s[0].outcome == Success) && (|s| == 2 ==> s[1].Received?)
    && TransportOutcome(s[|s| - 1].outcome)
    && if s[|s| - 1].outcome != Success then status == LinkFailure(s[|s| - 1].outcome)
       else status == Success && |s| == 2 && WrongReply(s, CLIENT_PROPERTIES_RES)
  }

  /** All clients announced before `idx` have been asked for and have answered, in the first `k` exchanges; `idx` is
      announced too, and its turn failed. */
  ghost predicate StoppedAt(bitmap: seq<Byte>, replies: Replies, seg: seq<Exchange>, status: EfiStatus, idx: nat, k: nat) {
    && |bitmap| == 32 && 1 <= idx < MAX_FW_CLIENTS && k <= |seg| && BitSet(bitmap, idx)
    && Covers(replies, bitmap, idx) && PropertyExchanges(replies, seg[..k], idx) && FailedTurn(idx, seg[k..], status)
  }

  ghost predicate Stopped(bitmap: seq<Byte>, replies: Replies, seg: seq<Exchange>, status: EfiStatus) {
    exists idx: nat, k: nat :: StoppedAt(bitmap, replies, seg, status, idx, k)
  }

  lemma StoppedStatus(bitmap: seq<Byte>, replies: Replies, seg: seq<Exchange>, status: EfiStatus)
    requires Stopped(bitmap, replies, seg, status)
    ensures status == Success || status == DeviceError || status == MediaChanged
    ensures status == Success ==> WrongReply(seg, CLIENT_PROPERTIES_RES)
  {
    var idx: nat, k: nat :| StoppedAt(bitmap, replies, seg, status, idx, k);
    assert seg[k..][|seg[k..]| - 1] == seg[|seg| - 1];
  }

  /** It was given up: the table holds what had been answered. */
  ghost predicate Broken(t: Table, start: Table, i: nat, bitmap: seq<Byte>, replies: Replies, seg: seq<Exchange>, status: EfiStatus) {
    && i < |start| && |bitmap| == 32
    && RequestsOnly(seg) && RepliesOk(replies)
    && t == WithClients(start, i, TableOf(replies))
    && Within(replies, bitmap, MAX_FW_CLIENTS)
    && Stopped(bitmap, replies, seg, status)
  }

  lemma EnumerationBreaks(t: Table, start: Table, i: nat, bitmap: seq<Byte>, replies: Replies, seg: seq<Exchange>, idx: nat,
                          s: seq<Exchange>, status: EfiStatus)
    requires Enumerated(t, start, i, bitmap, replies, seg, idx) && 1 <= idx < MAX_FW_CLIENTS && BitSet(bitmap, idx)
    requires FailedTurn(idx, s, status)
    ensures Broken(t, start, i, bitmap, replies, seg + s, status)
    ensures status == Success || status == DeviceError || status == MediaChanged
  {
    assert (seg + s)[..|seg|] == seg && (seg + s)[|seg|..] == s;
    assert StoppedAt(bitmap, replies, seg + s, status, idx, |seg|);
  }

  /** Property requests are all that is sent. */
  predicate RequestsOnly(seg: seq<Exchange>) {
    forall k :: 0 <= k < |seg| && seg[k].Sent? ==> |seg[k].payload| == 4 && seg[k].payload[0] == CLIENT_PROPERTIES_REQ
  }

  lemma EmptyReplies()
    ensures TableOf(map[]) == NoClients()
    ensures PropertyExchanges(map[], [], 1)
  {}

  /** The last message received carried another command than the expected one. */
  predicate WrongReply(seg: seq<Exchange>, command: Byte) {
    |seg| > 0 && seg[|seg| - 1].Received? && seg[|seg| - 1].outcome == Success
    && |seg[|seg| - 1].content| > 0 && seg[|seg| - 1].content[0] != command
  }

  /** A properties request, which come after the reset and the first exchange, was answered with another command. */
  predicate WrongProperties(seg: seq<Exchange>) {
    |seg| > 3 && WrongReply(seg, CLIENT_PROPERTIES_RES)
  }

  /** The request for the bitmap failed, or was answered with another command, which is a protocol error. */
  predicate NoBitmap(seg: seq<Exchange>, status: EfiStatus) {
    && 2 <= |seg| <= 3 && (|seg| == 3 <==> seg[1].outcome == Success)
    && TransportOutcome(seg[|seg| - 1].outcome)
    && if seg[|seg| - 1].outcome != Success then status == LinkFailure(seg[|seg| - 1].outcome)
       else status == ProtocolError && WrongReply(seg, HOST_ENUM_RES)
  }

  predicate Announces(seg: seq<Exchange>, bitmap: seq<Byte>) {
    && |seg| >= 3 && seg[2].Received? && seg[2].outcome == Success
    && |seg[2].content| == 36 && seg[2].content[0] == HOST_ENUM_RES && seg[2].content[4..] == bitmap
  }

  /** Why a device is not valid after an enumeration whose reset went well. */
  ghost predicate GivenUp(bitmap: seq<Byte>, replies: Replies, seg: seq<Exchange>, status: EfiStatus) {
    NoBitmap(seg, status) || (Announces(seg, bitmap) && Stopped(bitmap, replies, seg[3..], status))
  }

  lemma GivenUpStatus(bitmap: seq<Byte>, replies: Replies, seg: seq<Exchange>, status: EfiStatus)
    requires GivenUp(bitmap, replies, seg, status)
    ensures status == Success || status == DeviceError || status == MediaChanged || status == ProtocolError
    ensures status == Success ==> WrongProperties(seg)
  {
    if !NoBitmap(seg, status) {
      StoppedStatus(bitmap, replies, seg[3..], status);
    }
  }

  /** What enumeration makes of a device: nothing if its table is valid; otherwise a new generation, and after a
      successful reset an empty id table and the clients that answered. The table becomes valid only when all did. */
  ghost predicate EnumPost(s: Slot, s': Slot, status: EfiStatus, bitmap: seq<Byte>, replies: Replies, seg: seq<Exchange>) {
    if s.isValid then s' == s && status == Success && seg == [] else
    && |seg| >= 1 && seg[0].Reset?
    && (seg[0].outcome != Success ==> |seg| == 1 && status == DeviceError && s' == s.(generation := s.generation + 1))
    && (seg[0].outcome == Success ==>
          && RepliesOk(replies) && |bitmap| == 32 && Within(replies, bitmap, MAX_FW_CLIENTS)
          && s' == Slot(s.key, s'.isValid, s.generation + 1, NoIds(), TableOf(replies))
          && OneEnumerationRequest(seg)
          && (s'.isValid ==> status == Success && Covers(replies, bitmap, MAX_FW_CLIENTS) && Fetched(bitmap, replies, seg))
          && (!s'.isValid ==> GivenUp(bitmap, replies, seg, status)))
  }

  lemma {:induction false} LastIsReply(replies: Replies, seg: seq<Exchange>, limit: nat)
    requires RepliesOk(replies) && limit <= MAX_FW_CLIENTS && PropertyExchanges(replies, seg, limit) && seg != []
    ensures seg[|seg| - 1].Received? && IsPropertiesReply(seg[|seg| - 1].content)
  {
    if limit == 0 {
    } else if limit - 1 in replies {
      assert seg[|seg| - 2..][1] == seg[|seg| - 1];
    } else {
      LastIsReply(replies, seg, limit - 1);
    }
  }

  /** An enumeration that reports success leaves the device valid exactly when no properties request was answered with another
      command. */
  lemma ValidUnlessWrongReply(s: Slot, s': Slot, status: EfiStatus, bitmap: seq<Byte>, replies: Replies, seg: seq<Exchange>)
    requires EnumPost(s, s', status, bitmap, replies, seg) && status == Success
    ensures s'.isValid <==> !WrongProperties(seg)
  {
    if !s'.isValid {
      GivenUpStatus(bitmap, replies, seg, status);
    }
    if !s.isValid && s'.isValid && |seg| > 3 {
      LastIsReply(replies, seg[3..], MAX_FW_CLIENTS);
      assert seg[3..][|seg[3..]| - 1] == seg[|seg| - 1];
    }
  }

  /** Client `k` was announced and answered well. */
  predicate Announced(bitmap: seq<Byte>, replies: Replies, k: nat)
    requires |bitmap| == 32 && RepliesOk(replies) && k < MAX_FW_CLIENTS
  {
    1 <= k && BitSet(bitmap, k) && k in replies && replies[k][2] == 0
  }

  /** When enumeration makes a device valid, its client table agrees with the bitmap the firmware sent: the valid entries
      are those announced with status 0, with the properties of their replies, and all others are zero. */
  lemma TableAgreesWithBitmap(s: Slot, s': Slot, status: EfiStatus, bitmap: seq<Byte>, replies: Replies, seg: seq<Exchange>, k: nat)
    requires EnumPost(s, s', status, bitmap, replies, seg) && !s.isValid && s'.isValid && k < MAX_FW_CLIENTS
    ensures |bitmap| == 32 && RepliesOk(replies) && |s'.clients| == MAX_FW_CLIENTS
    ensures |seg| >= 3 && seg[2].Received? && |seg[2].content| == 36 && seg[2].content[4..] == bitmap
    ensures 1 <= k && BitSet(bitmap, k) ==> k in replies
    ensures s'.clients[k] == if Announced(bitmap, replies, k) then ClientOf(replies[k]) else ZERO_CLIENT
    ensures s'.clients[k].isValid <==> Announced(bitmap, replies, k)
  {}

  /** Then the scan for a GUID, which ignores IsValid, finds the lowest announced client that has it, and nothing exactly
      when none has. */
  lemma ScanAgreesWithBitmap(s: Slot, s': Slot, status: EfiStatus, bitmap: seq<Byte>, replies: Replies, seg: seq<Exchange>, guid: Guid)
    requires EnumPost(s, s', status, bitmap, replies, seg) && !s.isValid && s'.isValid && guid != ZERO_GUID
    ensures |bitmap| == 32 && RepliesOk(replies) && |s'.clients| == MAX_FW_CLIENTS
    ensures var r := FirstMatch(s'.clients, guid, 0);
      && (r.Some? ==> Announced(bitmap, replies, r.value) && replies[r.value][4..20] == guid)
      && (forall k :: 0 <= k < (if r.Some? then r.value else MAX_FW_CLIENTS) && Announced(bitmap, replies, k) ==> replies[k][4..20] != guid)
  {
    TableAgreesWithBitmap(s, s', status, bitmap, replies, seg, 0);
    ScanFindsValidEntries(replies, guid);
    var r := FirstMatch(s'.clients, guid, 0);
    forall k | 0 <= k < (if r.Some? then r.value else MAX_FW_CLIENTS) && Announced(bitmap, replies, k)
      ensures replies[k][4..20] != guid
    {
      TableAgreesWithBitmap(s, s', status, bitmap, replies, seg, k);
    }
    if r.Some? {
      TableAgreesWithBitmap(s, s', status, bitmap, replies, seg, r.value);
    }
  }

  /** The same for the part after the reset. */
  ghost predicate FillPost(s: Slot, s': Slot, status: EfiStatus, bitmap: seq<Byte>, replies: Replies, seg: seq<Exchange>) {
    && RepliesOk(replies) && |bitmap| == 32 && Within(replies, bitmap, MAX_FW_CLIENTS)
    && s' == s.(isValid := s'.isValid, clients := TableOf(replies))
    && OneEnumerationRequest(seg)
    && (s'.isValid ==> status == Success && Covers(replies, bitmap, MAX_FW_CLIENTS) && Fetched(bitmap, replies, seg))
    && (!s'.isValid ==> GivenUp(bitmap, replies, seg, status))
  }

  /** And that part, on the slot as the reset leaves it, is an enumeration. */
  lemma FillIsEnumeration(s: Slot, cleared: Slot, s': Slot, status: EfiStatus, bitmap: seq<Byte>, replies: Replies, seg: seq<Exchange>)
    requires !s.isValid && cleared == Slot(s.key, false, s.generation + 1, NoIds(), NoClients())
    requires |seg| >= 1 && seg[0] == Reset(Success) && FillPost(cleared, s', status, bitmap, replies, seg)
    ensures EnumPost(s, s', status, bitmap, replies, seg)
  {}

  /** Exchanges entered in two goes, the second behind the first. */
  lemma LogInParts(log: seq<Exchange>, first: seq<Exchange>, s: seq<Exchange>, all: seq<Exchange>)
    requires first + s <= all
    ensures log + s + all[|first + s|..] == log + all[|first|..]
    ensures all == first + s ==> all[|first|..] == s
  {
    var rest := all[|first + s|..];
    assert all == first + s + rest;
    assert all[|first|..] == s + rest;
    Associates(log, s, rest);
  }

  lemma SameSlot(t: Table, i: nat)
    requires i < |t|
    ensures t == t[i := t[i]]
  {}

  lemma FillWithoutBitmap(s: Slot, status: EfiStatus, seg: seq<Exchange>)
    requires !s.isValid && s.clients == NoClients() && OneEnumerationRequest(seg)
    requires NoBitmap(seg, status)
    ensures FillPost(s, s, status, seq(32, k => 0), map[], seg)
  {
    EmptyReplies();
  }

  lemma FillBreaks(start: Table, t: Table, i: nat, bitmap: seq<Byte>, replies: Replies, seg: seq<Exchange>, rest: seq<Exchange>, status: EfiStatus)
    requires Broken(t, start, i, bitmap, replies, rest, status) && !start[i].isValid
    requires OneEnumerationRequest(seg) && |seg| == 3 && Announces(seg, bitmap)
    ensures FillPost(start[i], t[i], status, bitmap, replies, seg + rest)
    ensures t == start[i := t[i]] && t[i].key == start[i].key
  {
    assert (seg + rest)[3..] == rest;
  }

  lemma FillSucceeds(start: Table, t: Table, i: nat, bitmap: seq<Byte>, replies: Replies, seg: seq<Exchange>, rest: seq<Exchange>)
    requires Enumerated(t, start, i, bitmap, replies, rest, MAX_FW_CLIENTS)
    requires OneEnumerationRequest(seg) && |seg| == 3 && Announces(seg, bitmap)
    ensures FillPost(start[i], t[i].(isValid := true), Success, bitmap, replies, seg + rest)
    ensures t[i := t[i].(isValid := true)] == start[i := t[i].(isValid := true)] && t[i].key == start[i].key
  {
    assert (seg + rest)[3..] == rest;
  }

  /** After the reset one enumeration request goes out, and then only property requests. */
  predicate OneEnumerationRequest(seg: seq<Exchange>) {
    && |seg| >= 2
    && seg[1] == Sent(0, 0, [HOST_ENUM_REQ, 0, 0, 0], seg[1].outcome)
    && (|seg| >= 3 ==> seg[2].Received? && RequestsOnly(seg[3..]))
  }

  /** `bitmap` and `replies` are what the device answered. */
  ghost predicate Fetched(bitmap: seq<Byte>, replies: Replies, seg: seq<Exchange>) {
    Announces(seg, bitmap) && PropertyExchanges(replies, seg[3..], MAX_FW_CLIENTS)
  }

  // ---------- connecting ----------

  function ConnectRequest(address: Byte, id: Byte): seq<Byte> {
    [CONNECT_REQ, address, id, 0]
  }

  /** Request, positive answer, flow control. */
  predicate HandshakeDone(seg: seq<Exchange>, address: Byte, id: Byte) {
    && |seg| == 3
    && seg[0] == Sent(0, 0, ConnectRequest(address, id), Success)
    && seg[1].Received? && seg[1].outcome == Success && seg[1].size == 4 && |seg[1].content| == 4
    && seg[1].content[0] == CONNECT_RES && (seg[1].content[3] == 0 || seg[1].content[3] == 2)
    && seg[2].Received? && seg[2].outcome == Success && seg[2].size == 8
  }

  predicate Answered(seg: seq<Exchange>, address: Byte, id: Byte) {
    && |seg| == 2
    && seg[0] == Sent(0, 0, ConnectRequest(address, id), Success)
    && seg[1].Received? && seg[1].outcome == Success && seg[1].size == 4 && |seg[1].content| == 4
  }

  /** How a handshake that stopped short is reported. A reply with another command is reported as success. */
  predicate HandshakeStopped(seg: seq<Exchange>, address: Byte, id: Byte, status: EfiStatus) {
    && 1 <= |seg| <= 3
    && seg[0] == Sent(0, 0, ConnectRequest(address, id), seg[0].outcome)
    && (|seg| >= 2 ==> seg[0].outcome == Success && seg[1].Received? && seg[1].size == 4 && |seg[1].content| == 4)
    && (|seg| == 3 ==> seg[1].outcome == Success && seg[1].content[0] == CONNECT_RES && (seg[1].content[3] == 0 || seg[1].content[3] == 2))
    && (|seg| == 3 ==> seg[2].Received? && seg[2].outcome != Success)
    && (|seg| == 1 ==> seg[0].outcome != Success)
    && TransportOutcome(seg[|seg| - 1].outcome)
    && status == (if seg[|seg| - 1].outcome == Aborted then MediaChanged
                  else if seg[|seg| - 1].outcome == DeviceError then DeviceError
                  else if seg[1].content[0] != CONNECT_RES then Success
                  else ProtocolError)
    && (status == ProtocolError ==> |seg| == 2 && seg[1].content[3] != 0 && seg[1].content[3] != 2)
  }

  lemma StoppedIsNotDone(seg: seq<Exchange>, address: Byte, id: Byte, status: EfiStatus)
    requires HandshakeStopped(seg, address, id, status)
    ensures !HandshakeDone(seg, address, id)
  {}

  /** Connecting through slot `i` of a table that enumeration has left in state `t`. */
  predicate SelectPost(t: Table, i: nat, conn: Connection, guid: Guid,
                       t': Table, conn': Connection, status: EfiStatus, seg: seq<Exchange>)
    requires TableOk(t) && i < |t|
  {
    var s, blank := t[i], conn.(properties := ZERO_PROPERTIES);
    var ind, id := FirstMatch(s.clients, guid, 0), FirstFree(s.hostIds, 1);
    if ind.None? then status == NotFound && t' == t && conn' == blank && seg == [] else
    if id.None? then status == DeviceError && t' == t && conn' == blank && seg == [] else
    var p := s.clients[ind.value].properties;
    if p.fixedAddress != 0 || HandshakeDone(seg, p.address, id.value)
    then
      && status == Success && (p.fixedAddress != 0 ==> seg == [])
      && t' == t[i := s.(hostIds := s.hostIds[id.value := true])]
      && conn' == Connection(p, s.generation, true, id.value)
    else
      && HandshakeStopped(seg, p.address, id.value, status)
      && conn' == blank
      && t' == if status == MediaChanged then t[i := s.(isValid := false)] else t
  }

  /** What happened inside one connect: the slot as enumeration left it, and the exchanges of both parts. */
  datatype ConnectRecord = ConnectRecord(
    enumStatus: EfiStatus, mid: Slot, bitmap: seq<Byte>, replies: Replies, enumSeg: seq<Exchange>, seg: seq<Exchange>)

  const NO_RECORD: ConnectRecord := ConnectRecord(Success, NewSlot(UNINITIALIZED), [], map[], [], [])

  ghost predicate ConnectPost(t: Table, conn: Connection, bdf: Bdf, guid: Guid,
                              t': Table, conn': Connection, status: EfiStatus, rec: ConnectRecord)
    requires TableOk(t)
  {
    var (u, r) := Lookup(t, bdf);
    if conn.connected then t' == t && conn' == conn && status == Unsupported && rec == NO_RECORD else
    if r.None? then t' == u && conn' == conn && status == OutOfResources && rec == NO_RECORD else
    && EnumPost(u[r.value], rec.mid, rec.enumStatus, rec.bitmap, rec.replies, rec.enumSeg)
    && SlotOk(rec.mid)
    && (if IsError(rec.enumStatus)
        then status == DeviceError && t' == u[r.value := rec.mid] && conn' == conn && rec.seg == []
        else SelectPost(u[r.value := rec.mid], r.value, conn, guid, t', conn', status, rec.seg))
  }

  // ---------- messages of a connected handle ----------

  /** A flow-control message to the firmware, unless the client has a fixed address; then the payload. */
  predicate SendExchanges(conn: Connection, bytes: seq<Byte>, seg: seq<Exchange>) {
    var p := conn.properties;
    && |seg| >= 1 && TransportOutcome(seg[|seg| - 1].outcome)
    && (p.fixedAddress != 0 ==> |seg| == 1 && seg[0] == Sent(0, p.address, bytes, seg[0].outcome))
    && (p.fixedAddress == 0 ==>
          && seg[0] == Sent(0, 0, FlowControlMessage(p.address, conn.hostClientId), seg[0].outcome)
          && (seg[0].outcome != Success ==> |seg| == 1)
          && (seg[0].outcome == Success ==> |seg| == 2 && seg[1] == Sent(conn.hostClientId, p.address, bytes, seg[1].outcome)))
  }

  predicate SendPost(t: Table, conn: Connection, bdf: Bdf, valid: bool, bytes: seq<Byte>,
                     t': Table, conn': Connection, status: EfiStatus, seg: seq<Exchange>)
    requires TableOk(t)
  {
    var (u, r) := Lookup(t, bdf);
    if !valid then t' == t && conn' == conn && status == InvalidParameter && seg == [] else
    if |bytes| > conn.properties.maxMessageLength then t' == t && conn' == conn && status == BufferTooSmall && seg == [] else
    if !conn.connected then t' == t && conn' == conn && status == MediaChanged && seg == [] else
    if r.None? then t' == u && conn' == conn && status == OutOfResources && seg == [] else
    if !u[r.value].isValid || conn.generation != u[r.value].generation
    then t' == u && conn' == conn.(connected := false) && status == MediaChanged && seg == []
    else SendExchanges(conn, bytes, seg) && (t', conn', status) == Settle(u, conn, bdf, seg[|seg| - 1].outcome)
  }

  predicate IsFlowControl(e: Exchange)
    requires e.Received? && |e.content| > 0
  {
    e.length == 8 && e.content[0] == FLOW_CONTROL
  }

  /** What was received and what the caller gets. A flow-control message that comes first is dropped; one that comes
      second is taken off the link only by function 0 and for clients without a fixed address. */
  predicate ReceiveExchanges(conn: Connection, bdf: Bdf, size: Word, seg: seq<Exchange>, bytesRead: Word, content: seq<Byte>) {
    && |seg| >= 1 && (forall k :: 0 <= k < |seg| ==> seg[k].Received? && TransportOutcome(seg[k].outcome))
    && seg[0].size == size && |seg[0].content| > 0
    && (if seg[0].outcome != Success then |seg| == 1 else
        if IsFlowControl(seg[0]) then
          |seg| == 2 && seg[1].size == size && (seg[1].outcome == Success ==> bytesRead == seg[1].length && content == seg[1].content)
        else
          && bytesRead == seg[0].length && content == seg[0].content
          && |seg| == (if bdf.func == 0 && conn.properties.fixedAddress == 0 then 2 else 1)
          && (|seg| == 2 ==> seg[1].size == 8))
  }

  /** How a receive may go: it fails, or takes one message, or drops one and takes another, or takes one and a credit. */
  lemma ReceiveFails(conn: Connection, bdf: Bdf, size: Word, e: Exchange, bytesRead: Word, content: seq<Byte>)
    requires e.Received? && e.size == size && |e.content| > 0 && (e.outcome == DeviceError || e.outcome == Aborted)
    ensures ReceiveExchanges(conn, bdf, size, [e], bytesRead, content)
  {}

  lemma ReceiveTakesOne(conn: Connection, bdf: Bdf, size: Word, e: Exchange)
    requires e.Received? && e.size == size && |e.content| > 0 && e.outcome == Success && !IsFlowControl(e)
    requires bdf.func != 0 || conn.properties.fixedAddress != 0
    ensures ReceiveExchanges(conn, bdf, size, [e], e.length, e.content)
  {}

  lemma ReceiveDropsOne(conn: Connection, bdf: Bdf, size: Word, e: Exchange, f: Exchange, bytesRead: Word, content: seq<Byte>)
    requires e.Received? && e.size == size && |e.content| > 0 && e.outcome == Success && IsFlowControl(e)
    requires f.Received? && f.size == size && TransportOutcome(f.outcome)
    requires f.outcome == Success ==> bytesRead == f.length && content == f.content
    ensures ReceiveExchanges(conn, bdf, size, [e, f], bytesRead, content)
  {}

  lemma ReceiveTakesCredit(conn: Connection, bdf: Bdf, size: Word, e: Exchange, f: Exchange)
    requires e.Received? && e.size == size && |e.content| > 0 && e.outcome == Success && !IsFlowControl(e)
    requires bdf.func == 0 && conn.properties.fixedAddress == 0
    requires f.Received? && f.size == 8 && TransportOutcome(f.outcome)
    ensures ReceiveExchanges(conn, bdf, size, [e, f], e.length, e.content)
  {}

  predicate ReceivePost(t: Table, conn: Connection, bdf: Bdf, valid: bool, size: Word,
                        t': Table, conn': Connection, status: EfiStatus, bytesRead: Word, content: seq<Byte>, seg: seq<Exchange>)
  {
    if !valid || size > conn.properties.maxMessageLength then t' == t && conn' == conn && status == InvalidParameter && seg == [] else
    if !conn.connected then t' == t && conn' == conn && status == MediaChanged && seg == []
    else ReceiveExchanges(conn, bdf, size, seg, bytesRead, content) && (t', conn', status) == Settle(t, conn, bdf, seg[|seg| - 1].outcome)
  }

  /** A buffer as EfiTeeHeciReceiveMessage clears it before each read. */
  function Cleared(buf: seq<Byte>, size: nat): seq<Byte>
    requires size <= |buf|
  {
    seq(size, i => 0) + buf[size..]
  }

  /** `content` is `start` with the bytes of those packets put into its first `size`, and `length` counts them. */
  predicate PutTogether(start: seq<Byte>, size: Word, content: seq<Byte>, length: Word, packets: seq<Packet>) {
    size <= |start| && IsMessage(packets) && Rx(content, length) == Reassemble(Rx(start, 0), size, packets)
  }

  ghost predicate ReadInto(start: seq<Byte>, size: Word, content: seq<Byte>, length: Word) {
    exists packets :: PutTogether(start, size, content, length, packets)
  }

  lemma LengthIsSum(start: seq<Byte>, size: Word, content: seq<Byte>, length: Word, packets: seq<Packet>)
    requires PutTogether(start, size, content, length, packets) && TotalLength(packets) < TWO_32
    ensures length == TotalLength(packets)
  {
    TotalIsSum(Rx(start, 0), size, packets);
    WrapSmall(TotalLength(packets));
  }

  lemma BehindMessage(start: seq<Byte>, size: Word, content: seq<Byte>, length: Word, packets: seq<Packet>, j: nat)
    requires PutTogether(start, size, content, length, packets)
    requires TotalLength(packets) < TWO_32 && PadTo4(length) <= j < |start|
    ensures |content| == |start| && content[j] == start[j]
  {
    LengthIsSum(start, size, content, length, packets);
    ReassembleStopsAtEnd(Rx(start, 0), size, packets, j);
  }

  /** So behind the last dword of the message a caller finds zeros up to `size`, and no byte of an earlier one. */
  lemma ZerosBehindMessage(buf: seq<Byte>, size: Word, content: seq<Byte>, length: Word, packets: seq<Packet>, j: nat)
    requires size <= |buf| && PutTogether(Cleared(buf, size), size, content, length, packets)
    requires TotalLength(packets) < TWO_32 && PadTo4(length) <= j < size
    ensures |content| == |buf| && content[j] == 0
  {
    BehindMessage(Cleared(buf, size), size, content, length, packets, j);
  }

  // ---------- closing a handle ----------

  /** The id is given back whatever generation it was taken in. */
  function Release(t: Table, bdf: Bdf, id: Byte): Table
    requires TableOk(t)
  {
    var (u, r) := Lookup(t, bdf);
    if r.None? then u else u[r.value := u[r.value].(hostIds := u[r.value].hostIds[id := false])]
  }

  predicate DisconnectExchanges(conn: Connection, seg: seq<Exchange>, status: EfiStatus) {
    && 1 <= |seg| <= 2
    && seg[0] == Sent(0, 0, [DISCONNECT_REQ, conn.properties.address, conn.hostClientId, 0], seg[0].outcome)
    && (seg[0].outcome == Success <==> |seg| == 2)
    && (|seg| == 2 ==> seg[1].Received? && |seg[1].content| == 8)
    && TransportOutcome(seg[|seg| - 1].outcome)
    && (seg[|seg| - 1].outcome == Success ==>
          status == if seg[1].content[0] == DISCONNECT_RES && seg[1].content[3] == 0 then Success else ProtocolError)
  }

  predicate UninitializePost(t: Table, conn: Connection, bdf: Bdf, t': Table, conn': Connection, status: EfiStatus, seg: seq<Exchange>)
    requires TableOk(t)
  {
    var v := Release(t, bdf, conn.hostClientId);
    && conn' == conn.(connected := false, hostClientId := 0)
    && (if conn.properties.fixedAddress != 0 || !conn.connected
        then t' == v && status == Success && seg == []
        else
          && DisconnectExchanges(conn, seg, status)
          && t' == Settle(v, conn, bdf, seg[|seg| - 1].outcome).0
          && (seg[|seg| - 1].outcome != Success ==> status == Settle(v, conn, bdf, seg[|seg| - 1].outcome).2))
  }

  const NO_EXCHANGE: Exchange := Reset(Success)

  /** gHeciDeviceLibrary. */
  class Registry {
    var slots: Table

    constructor ()
      ensures slots == InitialTable()
    {
      slots := InitialTable();
    }

    method GetHeciLibrary(key: Bdf) returns (r: Option<nat>)
      requires TableOk(slots)
      modifies this
      ensures (slots, r) == Lookup(old(slots), key)
    {
      var i := 0;
      while i < |slots|
        invariant i <= |slots| && slots == old(slots)
        invariant IndexFrom(Keys(slots), key, 0) == IndexFrom(Keys(slots), key, i)
      {
        if slots[i].key == key {
          return Some(i);
        }
        i := i + 1;
      }
      i := 0;
      while i < |slots|
        invariant i <= |slots| && slots == old(slots)
        invariant IndexFrom(Keys(slots), key, 0) == |slots|
        invariant IndexFrom(Keys(slots), UNINITIALIZED, 0) == IndexFrom(Keys(slots), UNINITIALIZED, i)
      {
        if slots[i].key == UNINITIALIZED {
          slots := slots[i := NewSlot(key)];
          return Some(i);
        }
        i := i + 1;
      }
      return None;
    }
  }

  datatype ClientState = NotConnected | Connected | Failed

  /** struct METEE_EFI_IMPL: one handle. */
  class Impl {
    const guid: Guid
    const bdf: Bdf
    const dev: Device
    var state: ClientState
    var conn: Connection

    constructor (guid: Guid, bdf: Bdf, dev: Device)
      ensures this.guid == guid && this.bdf == bdf && this.dev == dev
      ensures state == NotConnected && conn == NO_CONNECTION
    {
      this.guid, this.bdf, this.dev := guid, bdf, dev;
      state, conn := NotConnected, NO_CONNECTION;
    }

    /** The ring is none on which the send loop makes no progress, and the log accounts for all that was done. */
    ghost predicate Ready(reg: Registry)
      reads this, reg, dev
    {
      MakesProgress(dev.hostDepth) && dev.InStep() && TableOk(reg.slots)
    }

    /** One transport call, `e`, was made, and its outcome was settled. */
    twostate predicate Exchanged(reg: Registry, e: Exchange, status: EfiStatus)
      reads this, reg, dev
    {
      && dev.log == old(dev.log) + [e]
      && (e.outcome == Success || e.outcome == DeviceError || e.outcome == Aborted)
      && (reg.slots, conn, status) == Settle(old(reg.slots), old(conn), bdf, e.outcome)
    }

    /** Nothing was sent or received and nothing changed. */
    twostate predicate Untouched(reg: Registry)
      reads this, reg, dev
    {
      dev.log == old(dev.log) && conn == old(conn) && reg.slots == old(reg.slots)
    }

    /** The call of the transport and its entry in the log, with the outcome that the accesses bring about. */
    method EnterReceive(buf: array<Byte>, size: Word) returns (outcome: EfiStatus, bytesRead: Word, ghost e: Exchange)
      requires MakesProgress(dev.hostDepth) && dev.InStep() && size <= buf.Length
      modifies dev, buf
      ensures dev.InStep() && dev.log == old(dev.log) + [e] && dev.marks == old(dev.marks) + [dev.trace]
      ensures e.Received? && e.outcome == outcome && e.content == buf[..] && e.length == bytesRead && e.size == size
      ensures outcome == Success || outcome == DeviceError || outcome == Aborted
      ensures Explained(dev.hostDepth, e, old(dev.trace), dev.trace)
      ensures IsError(outcome) ==> bytesRead == 0
      ensures outcome == Success ==> ReadInto(old(buf[..]), size, buf[..], bytesRead)
      ensures buf[size..] == old(buf[size..])
    {
      ghost var packets, receipt;
      var length;
      outcome, length, packets, receipt := HeciReceive(dev, true, buf, size);
      bytesRead := if IsError(outcome) then 0 else length;
      e := Received(size, bytesRead, buf[..], Hosts(packets), outcome);
      assert outcome == Success ==> CameIn(old(dev.trace), dev.trace, old(buf[..]), packets, e);
      assert TookIn(outcome, old(dev.trace), dev.trace, receipt);
      assert outcome == Success ==> PutTogether(old(buf[..]), size, buf[..], length, packets);
      dev.Enter(e, old(dev.trace));
    }

    method EnterSend(message: array<Byte>, length: Word, hostAddress: Byte, fwAddress: Byte)
      returns (outcome: EfiStatus, ghost e: Exchange)
      requires MakesProgress(dev.hostDepth) && dev.InStep() && 0 < length <= message.Length
      modifies dev
      ensures dev.InStep() && dev.log == old(dev.log) + [e] && dev.marks == old(dev.marks) + [dev.trace]
      ensures e == Sent(hostAddress, fwAddress, message[..length], outcome)
      ensures outcome == Success || outcome == DeviceError || outcome == Aborted
      ensures Explained(dev.hostDepth, e, old(dev.trace), dev.trace)
    {
      ghost var packets, seen, dispatch;
      outcome, packets, seen, dispatch := HeciSend(dev, message, length, hostAddress, fwAddress);
      e := Sent(hostAddress, fwAddress, message[..length], outcome);
      assert Dispatched(dev.hostDepth, hostAddress, fwAddress, message[..length], outcome, old(dev.trace), dev.trace, seen, dispatch);
      assert outcome == Success ==> WentOut(dev.hostDepth, old(dev.trace), dev.trace, seen, e);
      dev.Enter(e, old(dev.trace));
    }

    method ReadMsg(reg: Registry, buf: array<Byte>, size: Word)
      returns (status: EfiStatus, bytesRead: Word, ghost e: Exchange)
      requires Ready(reg) && size <= buf.Length
      modifies this`conn, reg, dev, buf
      ensures Ready(reg) && e.Received? && Exchanged(reg, e, status)
      ensures e.content == buf[..] && e.length == bytesRead && e.size == size
      ensures dev.marks == old(dev.marks) + [dev.trace]
      ensures IsError(status) ==> bytesRead == 0
      ensures status == Success ==> ReadInto(old(buf[..]), size, buf[..], bytesRead)
      ensures buf[size..] == old(buf[size..])
    {
      status, bytesRead, e := EnterReceive(buf, size);
      status := NoteAbort(reg, status);
    }

    method SendMsg(reg: Registry, message: array<Byte>, length: Word, hostAddress: Byte, fwAddress: Byte)
      returns (status: EfiStatus, ghost e: Exchange)
      requires Ready(reg) && 0 < length <= message.Length
      modifies this`conn, reg, dev
      ensures Ready(reg) && Exchanged(reg, e, status)
      ensures e == Sent(hostAddress, fwAddress, message[..length], e.outcome)
      ensures dev.marks == old(dev.marks) + [dev.trace]
    {
      status, e := EnterSend(message, length, hostAddress, fwAddress);
      status := NoteAbort(reg, status);
    }

    method ResetLink(reg: Registry) returns (status: EfiStatus)
      requires Ready(reg)
      modifies dev
      ensures Ready(reg) && dev.log == old(dev.log) + [Reset(status)] && conn == old(conn)
      ensures status == Success || status == DeviceError || status == Timeout
      ensures ResetLeaves(old(dev.trace), dev.trace, status)
      ensures dev.Sent() == old(dev.Sent()) && dev.Got() == old(dev.Got())
    {
      status := ResetHeciInterface(dev);
      dev.Enter(Reset(status), old(dev.trace));
    }

    // ReadMsg, SendMsg and ResetLink alone make entries in the log, and say what each entry means on the wire.

    /** The common tail of heciReadMsg and heciSendMsg. */
    method NoteAbort(reg: Registry, outcome: EfiStatus) returns (status: EfiStatus)
      requires TableOk(reg.slots)
      modifies this`conn, reg
      ensures TableOk(reg.slots)
      ensures (reg.slots, conn, status) == Settle(old(reg.slots), old(conn), bdf, outcome)
    {
      status := outcome;
      if status == Aborted {
        var lib := reg.GetHeciLibrary(bdf);
        if lib.None? {
          status := OutOfResources;
        } else {
          reg.slots := reg.slots[lib.value := reg.slots[lib.value].(isValid := false)];
          conn := conn.(connected := false);
          status := MediaChanged;
        }
      }
    }

    // ---------- flow control ----------

    method FwToHostFlowControl(reg: Registry) returns (status: EfiStatus, ghost seg: seq<Exchange>)
      requires Ready(reg)
      modifies this`conn, reg, dev
      ensures Ready(reg) && dev.log == old(dev.log) + seg
      ensures old(conn).properties.fixedAddress != 0 ==> status == Success && Untouched(reg) && seg == []
      ensures old(conn).properties.fixedAddress == 0 ==>
        |seg| == 1 && seg[0].Received? && seg[0].size == 8 && Exchanged(reg, seg[0], status)
    {
      if conn.properties.fixedAddress != 0 {
        return Success, [];
      }
      var buf := new Byte[8];
      var length;
      ghost var e;
      status, length, e := ReadMsg(reg, buf, 8);
      seg := [e];
    }

    method HostToFwFlowControl(reg: Registry, fwAddress: Byte) returns (status: EfiStatus, ghost seg: seq<Exchange>)
      requires Ready(reg)
      modifies this`conn, reg, dev
      ensures Ready(reg) && dev.log == old(dev.log) + seg
      ensures old(conn).properties.fixedAddress != 0 ==> status == Success && Untouched(reg) && seg == []
      ensures old(conn).properties.fixedAddress == 0 ==>
        && |seg| == 1 && Exchanged(reg, seg[0], status)
        && seg[0] == Sent(0, 0, FlowControlMessage(fwAddress, old(conn).hostClientId), seg[0].outcome)
    {
      if conn.properties.fixedAddress != 0 {
        return Success, [];
      }
      var message := FlowControlMessage(fwAddress, conn.hostClientId);
      var buf := new Byte[8](k requires 0 <= k < 8 => message[k]);
      assert buf[..8] == message;
      ghost var e;
      status, e := SendMsg(reg, buf, 8, 0, 0);
      seg := [e];
    }

    // ---------- enumeration ----------

    /** Asks the firmware which clients it has. The loop over MAX_CONNECT_RETRIES never comes round: it repeats only on
        EFI_TIMEOUT, which the transport does not return. */
    method RequestBitmap(reg: Registry) returns (status: EfiStatus, reply: seq<Byte>, ghost seg: seq<Exchange>)
      requires Ready(reg)
      modifies this`conn, reg, dev
      ensures Ready(reg) && dev.log == old(dev.log) + seg
      ensures |seg| >= 1 && seg[0] == Sent(0, 0, [HOST_ENUM_REQ, 0, 0, 0], seg[0].outcome)
      ensures seg[0].outcome != Success ==> |seg| == 1 && IsError(status)
      ensures seg[0].outcome == Success ==> |seg| == 2 && seg[1].Received?
      ensures (reg.slots, conn, status) == Settle(old(reg.slots), old(conn), bdf, seg[|seg| - 1].outcome)
      ensures TransportOutcome(seg[|seg| - 1].outcome)
      ensures status == Success ==> |seg| == 2 && |reply| == 36 && seg[1].content == reply
    {
      var request := new Byte[] [HOST_ENUM_REQ, 0, 0, 0];
      var buf := new Byte[36](_ => 0);
      reply, seg := [], [];
      for attempt := 0 to MAX_CONNECT_RETRIES
        invariant Ready(reg) && Untouched(reg) && attempt == 0 && request[..] == [HOST_ENUM_REQ, 0, 0, 0]
      {
        ghost var e;
        status, e := SendMsg(reg, request, 4, 0, 0);
        seg := [e];
        assert request[..4] == request[..];
        if IsError(status) {
          return;
        }
        var length;
        status, length, e := ReadMsg(reg, buf, 36);
        Associates(old(dev.log), seg, [e]);
        seg := seg + [e];
        if IsError(status) {
          if status == Timeout {
            assert false;
          }
          return;
        }
        break;
      }
      reply := buf[..];
    }

    /** Asks for the properties of one client. */
    method RequestProperties(reg: Registry, idx: Byte) returns (status: EfiStatus, reply: seq<Byte>, ghost seg: seq<Exchange>)
      requires Ready(reg)
      modifies this`conn, reg, dev
      ensures Ready(reg) && dev.log == old(dev.log) + seg
      ensures |seg| >= 1 && seg[0] == Sent(0, 0, [CLIENT_PROPERTIES_REQ, idx, 0, 0], seg[0].outcome)
      ensures seg[0].outcome != Success ==> |seg| == 1 && IsError(status)
      ensures seg[0].outcome == Success ==> |seg| == 2 && seg[1].Received?
      ensures (reg.slots, conn, status) == Settle(old(reg.slots), old(conn), bdf, seg[|seg| - 1].outcome)
      ensures TransportOutcome(seg[|seg| - 1].outcome)
      ensures status == Success ==> |seg| == 2 && |reply| == 28 && seg[1].content == reply
    {
      var request := new Byte[] [CLIENT_PROPERTIES_REQ, idx, 0, 0];
      var buf := new Byte[28](_ => 0);
      reply := [];
      ghost var e;
      status, e := SendMsg(reg, request, 4, 0, 0);
      seg := [e];
      assert request[..4] == [CLIENT_PROPERTIES_REQ, idx, 0, 0];
      if IsError(status) {
        return;
      }
      var length;
      status, length, e := ReadMsg(reg, buf, 28);
      Associates(old(dev.log), seg, [e]);
      seg := seg + [e];
      reply := buf[..];
    }

    /** One turn of the enumeration loop: fetch the properties of client `idx` and enter them into the table. */
    method EnumerateOne(reg: Registry, i: nat, idx: Byte, ghost replies: Replies)
      returns (status: EfiStatus, done: bool, ghost reply: seq<Byte>, ghost seg: seq<Exchange>)
      requires Ready(reg) && At(reg.slots, bdf, i) && !reg.slots[i].isValid
      requires RepliesOk(replies) && idx !in replies && reg.slots[i].clients == TableOf(replies)
      modifies this`conn, reg, dev
      ensures Ready(reg) && dev.log == old(dev.log) + seg
      ensures conn == if status == MediaChanged then old(conn).(connected := false) else old(conn)
      ensures done ==> status == Success && IsPropertiesReply(reply) && FetchedBy(idx, reply, seg)
      ensures !done ==> FailedTurn(idx, seg, status)
      ensures reg.slots == if done
                           then WithClients(old(reg.slots), i, TableOf(replies[idx as nat := reply]))
                           else old(reg.slots)
    {
      var answer;
      status, answer, seg := RequestProperties(reg, idx);
      reply := answer;
      SettleAt(old(reg.slots), old(conn), bdf, i, seg[|seg| - 1].outcome);
      assert old(reg.slots)[i].(isValid := false) == old(reg.slots)[i];
      assert reg.slots == old(reg.slots);
      if IsError(status) || answer[0] != CLIENT_PROPERTIES_RES {
        return status, false, reply, seg;
      }
      TableGrows(replies, idx, answer);
      if answer[2] == 0 {
        var clients := reg.slots[i].clients[idx as nat := ClientOf(answer)];
        reg.slots := WithClients(reg.slots, i, clients);
      } else {
        assert reg.slots == WithClients(reg.slots, i, reg.slots[i].clients);
      }
      done := true;
    }

    /** The turn for `idx`, if its bit is set. */
    method EnumerateNext(reg: Registry, bitmap: seq<Byte>, i: nat, idx: nat, ghost start: Table,
                         ghost replies: Replies, ghost seg: seq<Exchange>)
      returns (status: EfiStatus, ok: bool, ghost replies': Replies, ghost seg': seq<Exchange>)
      requires Ready(reg) && At(start, bdf, i) && !start[i].isValid && 1 <= idx < MAX_FW_CLIENTS
      requires Enumerated(reg.slots, start, i, bitmap, replies, seg, idx)
      modifies this`conn, reg, dev
      ensures Ready(reg) && seg <= seg' && dev.log == old(dev.log) + seg'[|seg|..]
      ensures ok ==> status == Success && conn == old(conn)
      ensures ok ==> Enumerated(reg.slots, start, i, bitmap, replies', seg', idx + 1)
      ensures !ok ==> Broken(reg.slots, start, i, bitmap, replies', seg', status)
      ensures !ok ==> conn == if status == MediaChanged then old(conn).(connected := false) else old(conn)
    {
      status, ok, replies', seg' := Success, true, replies, seg;
      if BitSet(bitmap, idx) {
        ghost var reply, s;
        WithClientsAt(start, bdf, i, TableOf(replies));
        status, ok, reply, s := EnumerateOne(reg, i, idx, replies);
        if ok {
          EnumerationSteps(WithClients(start, i, TableOf(replies)), start, i, bitmap, replies, seg, idx, reply, s);
          replies' := replies[idx as nat := reply];
        } else {
          EnumerationBreaks(reg.slots, start, i, bitmap, replies, seg, idx, s, status);
        }
        seg' := seg + s;
      } else {
        EnumerationSkips(reg.slots, start, i, bitmap, replies, seg, idx);
      }
    }

    /** The property requests for all clients in the bitmap, in order, up to the first one that fails. `replies` holds the
        answers received before that. */
    method EnumerateAll(reg: Registry, bitmap: seq<Byte>, i: nat)
      returns (status: EfiStatus, done: bool, ghost replies: Replies, ghost seg: seq<Exchange>)
      requires Ready(reg) && |bitmap| == 32 && At(reg.slots, bdf, i)
      requires reg.slots[i].clients == NoClients() && !reg.slots[i].isValid
      modifies this`conn, reg, dev
      ensures Ready(reg) && dev.log == old(dev.log) + seg
      ensures done ==> status == Success && conn == old(conn)
      ensures done ==> Enumerated(reg.slots, old(reg.slots), i, bitmap, replies, seg, MAX_FW_CLIENTS)
      ensures !done ==> Broken(reg.slots, old(reg.slots), i, bitmap, replies, seg, status)
      ensures !done ==> conn == if status == MediaChanged then old(conn).(connected := false) else old(conn)
    {
      replies, seg := map[], [];
      status, done := Success, true;
      ghost var start, c := reg.slots, conn;
      EnumerationStarts(start, i, bitmap);
      var idx := 1;
      while idx < MAX_FW_CLIENTS && done
        invariant 1 <= idx <= MAX_FW_CLIENTS && Ready(reg) && dev.log == old(dev.log) + seg
        invariant done ==> status == Success && conn == c
        invariant done ==> Enumerated(reg.slots, start, i, bitmap, replies, seg, idx)
        invariant !done ==> Broken(reg.slots, start, i, bitmap, replies, seg, status)
        invariant !done ==> conn == if status == MediaChanged then c.(connected := false) else c
        decreases MAX_FW_CLIENTS - idx, done
      {
        ghost var before := seg;
        status, done, replies, seg := EnumerateNext(reg, bitmap, i, idx, start, replies, seg);
        idx := idx + 1;
      }
    }

    /** HeciDeviceEnumerateClients. */
    method EnumerateClients(reg: Registry, i: nat)
      returns (status: EfiStatus, ghost bitmap: seq<Byte>, ghost replies: Replies, ghost seg: seq<Exchange>)
      requires Ready(reg) && At(reg.slots, bdf, i)
      modifies this`conn, reg, dev
      ensures Ready(reg) && dev.log == old(dev.log) + seg && At(reg.slots, bdf, i)
      ensures reg.slots == old(reg.slots)[i := reg.slots[i]]
      ensures EnumPost(old(reg.slots[i]), reg.slots[i], status, bitmap, replies, seg)
      ensures conn == if status == MediaChanged then old(conn).(connected := false) else old(conn)
    {
      bitmap, replies, seg := [], map[], [];
      if reg.slots[i].isValid {
        return Success, bitmap, replies, seg;
      }
      ghost var start := reg.slots;
      UpdateSlot(reg, i, reg.slots[i].(generation := reg.slots[i].generation + 1));
      status := ResetLink(reg);
      seg := [Reset(status)];
      if IsError(status) {
        return DeviceError, bitmap, replies, seg;
      }
      ghost var reset := seg;
      status, bitmap, replies, seg := EnumerateAfresh(reg, i, start[i]);
      LogInParts(old(dev.log), [], reset, seg);
    }

    /** The rest of it, once the link has been reset: `s` is the slot as it was before. */
    method EnumerateAfresh(reg: Registry, i: nat, ghost s: Slot)
      returns (status: EfiStatus, ghost bitmap: seq<Byte>, ghost replies: Replies, ghost seg: seq<Exchange>)
      requires Ready(reg) && At(reg.slots, bdf, i) && !s.isValid && reg.slots[i] == s.(generation := s.generation + 1)
      modifies this`conn, reg, dev
      ensures Ready(reg) && At(reg.slots, bdf, i) && [Reset(Success)] <= seg && dev.log == old(dev.log) + seg[1..]
      ensures reg.slots == old(reg.slots)[i := reg.slots[i]]
      ensures EnumPost(s, reg.slots[i], status, bitmap, replies, seg)
      ensures conn == if status == MediaChanged then old(conn).(connected := false) else old(conn)
    {
      UpdateSlot(reg, i, reg.slots[i].(hostIds := NoIds(), clients := NoClients()));
      ghost var cleared := reg.slots[i];
      status, bitmap, replies, seg := FillTable(reg, i, [Reset(Success)]);
      FillIsEnumeration(s, cleared, reg.slots[i], status, bitmap, replies, seg);
    }

    method UpdateSlot(reg: Registry, i: nat, s: Slot)
      requires At(reg.slots, bdf, i) && s.key == reg.slots[i].key && SlotOk(s)
      modifies reg
      ensures At(reg.slots, bdf, i) && reg.slots == old(reg.slots)[i := s]
    {
      UpdateKeepsKeys(reg.slots, i, s);
      reg.slots := reg.slots[i := s];
    }

    /** The part of the enumeration that talks to the firmware, after the reset recorded in `reset`. */
    method FillTable(reg: Registry, i: nat, ghost reset: seq<Exchange>)
      returns (status: EfiStatus, ghost bitmap: seq<Byte>, ghost replies: Replies, ghost seg: seq<Exchange>)
      requires Ready(reg) && At(reg.slots, bdf, i)
      requires !reg.slots[i].isValid && reg.slots[i].clients == NoClients() && reset == [Reset(Success)]
      modifies this`conn, reg, dev
      ensures Ready(reg) && At(reg.slots, bdf, i) && reset <= seg && dev.log == old(dev.log) + seg[1..]
      ensures reg.slots == old(reg.slots)[i := reg.slots[i]]
      ensures FillPost(old(reg.slots[i]), reg.slots[i], status, bitmap, replies, seg)
      ensures conn == if status == MediaChanged then old(conn).(connected := false) else old(conn)
    {
      ghost var s;
      var ok, reply;
      status, ok, reply, s := FetchBitmap(reg, i);
      seg := reset + s;
      LogInParts(old(dev.log), reset, s, seg);
      SameSlot(reg.slots, i);
      replies, bitmap := map[], seq(32, k => 0);
      if !ok {
        FillWithoutBitmap(reg.slots[i], status, seg);
      } else {
        bitmap := reply[4..];
        ghost var all;
        status, replies, all := FillClients(reg, i, reply[4..], seg);
        LogInParts(old(dev.log), reset, s, all);
        seg := all;
      }
    }

    /** The enumeration request, for a device whose table is already invalid: a failure has nothing left to invalidate. */
    method FetchBitmap(reg: Registry, i: nat)
      returns (status: EfiStatus, ok: bool, reply: seq<Byte>, ghost seg: seq<Exchange>)
      requires Ready(reg) && At(reg.slots, bdf, i) && !reg.slots[i].isValid
      modifies this`conn, reg, dev
      ensures Ready(reg) && dev.log == old(dev.log) + seg && reg.slots == old(reg.slots)
      ensures OneEnumerationRequest([Reset(Success)] + seg)
      ensures ok ==> status == Success && conn == old(conn)
      ensures ok ==> |seg| == 2 && seg[1].outcome == Success && seg[1].content == reply && |reply| == 36 && reply[0] == HOST_ENUM_RES
      ensures !ok ==> NoBitmap([Reset(Success)] + seg, status)
      ensures !ok ==> conn == if status == MediaChanged then old(conn).(connected := false) else old(conn)
    {
      status, reply, seg := RequestBitmap(reg);
      SettleAt(old(reg.slots), old(conn), bdf, i, seg[|seg| - 1].outcome);
      assert old(reg.slots[i]).(isValid := false) == old(reg.slots[i]);
      ok := false;
      if !IsError(status) {
        if reply[0] == HOST_ENUM_RES {
          ok := true;
        } else {
          status := ProtocolError;
        }
      }
    }

    method FillClients(reg: Registry, i: nat, bitmap: seq<Byte>, ghost before: seq<Exchange>)
      returns (status: EfiStatus, ghost replies: Replies, ghost seg: seq<Exchange>)
      requires Ready(reg) && At(reg.slots, bdf, i)
      requires !reg.slots[i].isValid && reg.slots[i].clients == NoClients()
      requires OneEnumerationRequest(before) && |before| == 3 && Announces(before, bitmap)
      modifies this`conn, reg, dev
      ensures Ready(reg) && At(reg.slots, bdf, i) && before <= seg && dev.log == old(dev.log) + seg[3..]
      ensures reg.slots == old(reg.slots)[i := reg.slots[i]]
      ensures FillPost(old(reg.slots[i]), reg.slots[i], status, bitmap, replies, seg)
      ensures conn == if status == MediaChanged then old(conn).(connected := false) else old(conn)
    {
      ghost var start := reg.slots;
      var done;
      ghost var rest;
      status, done, replies, rest := EnumerateAll(reg, bitmap, i);
      seg := before + rest;
      WithClientsAt(start, bdf, i, TableOf(replies));
      if done {
        FillSucceeds(start, reg.slots, i, bitmap, replies, before, rest);
        UpdateKeepsKeys(reg.slots, i, reg.slots[i].(isValid := true));
        reg.slots := reg.slots[i := reg.slots[i].(isValid := true)];
        status := Success;
      } else {
        FillBreaks(start, reg.slots, i, bitmap, replies, before, rest, status);
      }
    }

    // ---------- connecting ----------

    method Handshake(reg: Registry, i: nat, address: Byte, id: Byte)
      returns (status: EfiStatus, done: bool, ghost seg: seq<Exchange>)
      requires Ready(reg) && At(reg.slots, bdf, i) && !conn.connected && conn.properties.fixedAddress == 0
      modifies this`conn, reg, dev
      ensures Ready(reg) && At(reg.slots, bdf, i) && dev.log == old(dev.log) + seg && conn == old(conn)
      ensures done ==> HandshakeDone(seg, address, id) && status == Success
      ensures !done ==> HandshakeStopped(seg, address, id, status)
      ensures reg.slots == if !done && status == MediaChanged
                           then old(reg.slots)[i := old(reg.slots[i]).(isValid := false)] else old(reg.slots)
    {
      ghost var start := reg.slots;
      assert conn.(connected := false) == conn;
      done := false;
      var reply;
      status, reply, seg := ExchangeConnect(reg, ConnectRequest(address, id));
      SettleAt(start, conn, bdf, i, seg[|seg| - 1].outcome);
      if IsError(status) {
        return;
      }
      ghost var asked := seg;
      status, done, seg := FinishHandshake(reg, i, reply, address, id, asked);
      LogInParts(old(dev.log), [], asked, seg);
    }

    /** The rest of it, once the request has been answered. */
    method FinishHandshake(reg: Registry, i: nat, reply: seq<Byte>, ghost address: Byte, ghost id: Byte, ghost asked: seq<Exchange>)
      returns (status: EfiStatus, done: bool, ghost seg: seq<Exchange>)
      requires Ready(reg) && At(reg.slots, bdf, i) && !conn.connected && conn.properties.fixedAddress == 0
      requires Answered(asked, address, id) && reply == asked[1].content
      modifies this`conn, reg, dev
      ensures Ready(reg) && At(reg.slots, bdf, i) && asked <= seg && dev.log == old(dev.log) + seg[2..] && conn == old(conn)
      ensures done ==> HandshakeDone(seg, address, id) && status == Success
      ensures !done ==> HandshakeStopped(seg, address, id, status)
      ensures reg.slots == if !done && status == MediaChanged
                           then old(reg.slots)[i := old(reg.slots[i]).(isValid := false)] else old(reg.slots)
    {
      status, done, seg := Success, false, asked;
      if reply[0] != CONNECT_RES {
        return;
      }
      if reply[3] != 0 && reply[3] != 2 {
        status := ProtocolError;
        return;
      }
      assert conn.(connected := false) == conn;
      ghost var s;
      status, s := FwToHostFlowControl(reg);
      SettleAt(old(reg.slots), old(conn), bdf, i, s[0].outcome);
      seg := asked + s;
      LogInParts(old(dev.log), [], asked, seg);
      done := !IsError(status);
    }

    /** A request of four bytes and its four-byte answer. */
    method ExchangeConnect(reg: Registry, message: seq<Byte>) returns (status: EfiStatus, reply: seq<Byte>, ghost seg: seq<Exchange>)
      requires Ready(reg) && |message| == 4
      modifies this`conn, reg, dev
      ensures Ready(reg) && dev.log == old(dev.log) + seg
      ensures |seg| >= 1 && seg[0] == Sent(0, 0, message, seg[0].outcome)
      ensures seg[0].outcome != Success ==> |seg| == 1 && IsError(status)
      ensures seg[0].outcome == Success ==> |seg| == 2 && seg[1].Received? && seg[1].size == 4 && |seg[1].content| == 4
      ensures (reg.slots, conn, status) == Settle(old(reg.slots), old(conn), bdf, seg[|seg| - 1].outcome)
      ensures TransportOutcome(seg[|seg| - 1].outcome)
      ensures status == Success ==> |seg| == 2 && |reply| == 4 && seg[1].content == reply
    {
      var request := new Byte[4](k requires 0 <= k < 4 => message[k]);
      var buf := new Byte[4](_ => 0);
      assert request[..4] == message;
      reply := [];
      ghost var e;
      status, e := SendMsg(reg, request, 4, 0, 0);
      seg := [e];
      if IsError(status) {
        return;
      }
      var length;
      status, length, e := ReadMsg(reg, buf, 4);
      Associates(old(dev.log), seg, [e]);
      seg := seg + [e];
      reply := buf[..];
    }

    method SelectClient(reg: Registry, i: nat) returns (status: EfiStatus, ghost seg: seq<Exchange>)
      requires Ready(reg) && At(reg.slots, bdf, i) && !conn.connected
      modifies this`conn, reg, dev
      ensures Ready(reg) && dev.log == old(dev.log) + seg
      ensures SelectPost(old(reg.slots), i, old(conn), guid, reg.slots, conn, status, seg)
    {
      seg := [];
      conn := conn.(properties := ZERO_PROPERTIES);
      var ind := FindClient(reg.slots[i].clients, guid);
      if ind == MAX_FW_CLIENTS {
        return NotFound, seg;
      }
      var id := FindFreeId(reg.slots[i].hostIds);
      if id == MAX_FW_CLIENTS {
        return DeviceError, seg;
      }
      var p := reg.slots[i].clients[ind].properties;
      status := Success;
      var done := true;
      if p.fixedAddress == 0 {
        status, done, seg := Handshake(reg, i, p.address, id);
        if !done {
          StoppedIsNotDone(seg, p.address, id, status);
        }
      }
      if done {
        conn := Connection(reg.slots[i].clients[ind].properties, reg.slots[i].generation, true, id);
        reg.slots := reg.slots[i := reg.slots[i].(hostIds := reg.slots[i].hostIds[id := true])];
      }
    }

    /** EfiTeeHeciConnectClient. */
    method ConnectClient(reg: Registry) returns (status: EfiStatus, ghost rec: ConnectRecord)
      requires Ready(reg)
      modifies this`conn, reg, dev
      ensures Ready(reg) && dev.log == old(dev.log) + rec.enumSeg + rec.seg
      ensures ConnectPost(old(reg.slots), old(conn), bdf, guid, reg.slots, conn, status, rec)
      ensures old(conn.connected) ==> dev.trace == old(dev.trace)
    {
      rec := NO_RECORD;
      if conn.connected {
        return Unsupported, rec;
      }
      var lib := reg.GetHeciLibrary(bdf);
      if lib.None? {
        return OutOfResources, rec;
      }
      var i := lib.value;
      FoundIsAt(old(reg.slots), bdf);
      assert conn.(connected := false) == conn;
      ghost var bitmap, replies, enumSeg, seg;
      status, bitmap, replies, enumSeg := EnumerateClients(reg, i);
      rec := ConnectRecord(status, reg.slots[i], bitmap, replies, enumSeg, []);
      if IsError(status) {
        return DeviceError, rec;
      }
      status, seg := SelectClient(reg, i);
      rec := rec.(seg := seg);
    }

    // ---------- messages of a connected handle ----------

    /** EfiTeeHeciSendMessage. */
    method SendMessage(reg: Registry, buffer: array?<Byte>, length: Word)
      returns (status: EfiStatus, written: Word, ghost seg: seq<Exchange>)
      requires Ready(reg) && (buffer != null ==> length <= buffer.Length)
      modifies this`conn, reg, dev
      ensures Ready(reg) && dev.log == old(dev.log) + seg
      ensures var valid := buffer != null && length > 0;
        SendPost(old(reg.slots), old(conn), bdf, valid, if valid then buffer[..length] else [], reg.slots, conn, status, seg)
      ensures written == if status == Success then length else 0
      ensures seg == [] ==> dev.trace == old(dev.trace)
    {
      written, seg := 0, [];
      if buffer == null || length == 0 {
        return InvalidParameter, written, seg;
      }
      if length > conn.properties.maxMessageLength {
        return BufferTooSmall, written, seg;
      }
      if !conn.connected {
        return MediaChanged, written, seg;
      }
      var lib := reg.GetHeciLibrary(bdf);
      if lib.None? {
        return OutOfResources, written, seg;
      }
      if !reg.slots[lib.value].isValid || conn.generation != reg.slots[lib.value].generation {
        conn := conn.(connected := false);
        return MediaChanged, written, seg;
      }
      status, seg := SendChecked(reg, buffer, length);
      written := if status == Success then length else 0;
    }

    /** The part after the checks. */
    method SendChecked(reg: Registry, buffer: array<Byte>, length: Word) returns (status: EfiStatus, ghost seg: seq<Exchange>)
      requires Ready(reg) && 0 < length && length <= buffer.Length
      modifies this`conn, reg, dev
      ensures Ready(reg) && dev.log == old(dev.log) + seg
      ensures SendExchanges(old(conn), buffer[..length], seg)
      ensures (reg.slots, conn, status) == Settle(old(reg.slots), old(conn), bdf, seg[|seg| - 1].outcome)
    {
      var fwAddress := conn.properties.address;
      status, seg := HostToFwFlowControl(reg, fwAddress);
      if IsError(status) {
        return;
      }
      var hostAddress := if conn.properties.fixedAddress != 0 then 0 else conn.hostClientId;
      ghost var e;
      status, e := SendMsg(reg, buffer, length, hostAddress, fwAddress);
      seg := seg + [e];
    }

    method ZeroFill(buf: array<Byte>, size: nat)
      requires size <= buf.Length
      modifies buf
      ensures forall k :: 0 <= k < buf.Length ==> buf[k] == if k < size then 0 else old(buf[k])
    {
      var i := 0;
      while i < size
        invariant i <= size
        invariant forall k :: 0 <= k < buf.Length ==> buf[k] == if k < i then 0 else old(buf[k])
      {
        buf[i] := 0;
        i := i + 1;
      }
    }

    /** EfiTeeHeciReceiveMessage. The generation of the handle is not looked at. */
    method ReceiveMessage(reg: Registry, buf: array?<Byte>, size: Word)
      returns (status: EfiStatus, bytesRead: Word, ghost content: seq<Byte>, ghost seg: seq<Exchange>)
      requires Ready(reg) && (buf != null ==> size <= buf.Length)
      modifies this`conn, reg, dev, if buf == null then {} else {buf}
      ensures Ready(reg) && dev.log == old(dev.log) + seg
      ensures ReceivePost(old(reg.slots), old(conn), bdf, buf != null && size > 0, size, reg.slots, conn, status, bytesRead, content, seg)
      ensures buf != null && status == Success ==> buf[..] == content && ReadInto(Cleared(old(buf[..]), size), size, content, bytesRead)
      ensures seg == [] ==> dev.trace == old(dev.trace)
    {
      bytesRead, content, seg := 0, [], [];
      if buf == null || size == 0 {
        return InvalidParameter, bytesRead, content, seg;
      }
      if size > conn.properties.maxMessageLength {
        return InvalidParameter, bytesRead, content, seg;
      }
      if !conn.connected {
        return MediaChanged, bytesRead, content, seg;
      }
      status, bytesRead, content, seg := ReceiveChecked(reg, buf, size);
    }

    /** The buffer is cleared before each read. */
    method ReadAfresh(reg: Registry, buf: array<Byte>, size: Word)
      returns (status: EfiStatus, bytesRead: Word, ghost e: Exchange)
      requires Ready(reg) && size <= buf.Length
      modifies this`conn, reg, dev, buf
      ensures Ready(reg) && e.Received? && Exchanged(reg, e, status)
      ensures e.content == buf[..] && e.length == bytesRead && e.size == size
      ensures status == Success ==> ReadInto(Cleared(old(buf[..]), size), size, buf[..], bytesRead)
      ensures buf[size..] == old(buf[size..])
    {
      ZeroFill(buf, size);
      assert buf[..] == Cleared(old(buf[..]), size);
      status, bytesRead, e := ReadMsg(reg, buf, size);
    }

    method ReceiveChecked(reg: Registry, buf: array<Byte>, size: Word)
      returns (status: EfiStatus, bytesRead: Word, ghost content: seq<Byte>, ghost seg: seq<Exchange>)
      requires Ready(reg) && 0 < size <= buf.Length
      modifies this`conn, reg, dev, buf
      ensures Ready(reg) && dev.log == old(dev.log) + seg
      ensures ReceiveExchanges(old(conn), bdf, size, seg, bytesRead, content)
      ensures (reg.slots, conn, status) == Settle(old(reg.slots), old(conn), bdf, seg[|seg| - 1].outcome)
      ensures status == Success ==> buf[..] == content && ReadInto(Cleared(old(buf[..]), size), size, content, bytesRead)
    {
      ghost var e, c, all := NO_EXCHANGE, conn, [];
      status, bytesRead, e := ReadAfresh(reg, buf, size);
      content, seg := buf[..], [e];
      if IsError(status) {
        ReceiveFails(c, bdf, size, e, bytesRead, content);
        return;
      }
      status, bytesRead, content, all := ReceiveRest(reg, buf, size, bytesRead, e, old(buf[..]));
      LogInParts(old(dev.log), [], seg, all);
      seg := all;
    }

    /** The rest of it, once the first message `e` has been read. */
    method ReceiveRest(reg: Registry, buf: array<Byte>, size: Word, length: Word, ghost e: Exchange, ghost before: seq<Byte>)
      returns (status: EfiStatus, bytesRead: Word, ghost content: seq<Byte>, ghost seg: seq<Exchange>)
      requires Ready(reg) && 0 < size <= buf.Length
      requires e.Received? && e.outcome == Success && e.size == size && e.content == buf[..] && e.length == length
      requires |before| == buf.Length && buf[size..] == before[size..] && ReadInto(Cleared(before, size), size, buf[..], length)
      modifies this`conn, reg, dev, buf
      ensures Ready(reg) && [e] <= seg && dev.log == old(dev.log) + seg[1..]
      ensures ReceiveExchanges(old(conn), bdf, size, seg, bytesRead, content)
      ensures |seg| == 1 ==> status == Success && reg.slots == old(reg.slots) && conn == old(conn)
      ensures |seg| > 1 ==> (reg.slots, conn, status) == Settle(old(reg.slots), old(conn), bdf, seg[|seg| - 1].outcome)
      ensures status == Success ==> buf[..] == content && ReadInto(Cleared(before, size), size, content, bytesRead)
    {
      status, bytesRead, content, seg := Success, length, buf[..], [e];
      ghost var c := conn;
      assert Cleared(before, size) == Cleared(buf[..], size);
      if length == 8 && buf[0] == FLOW_CONTROL {
        ghost var f;
        status, bytesRead, f := ReadAfresh(reg, buf, size);
        content, seg := buf[..], [e, f];
        ReceiveDropsOne(c, bdf, size, e, f, bytesRead, content);
        if IsError(status) && status == Timeout {
          // The retry after a stall of 40 seconds: the transport never reports a timeout.
          assert false;
        }
      } else if bdf.func == 0 {
        ghost var s;
        status, s := FwToHostFlowControl(reg);
        seg := [e] + s;
        if c.properties.fixedAddress == 0 {
          ReceiveTakesCredit(c, bdf, size, e, s[0]);
        } else {
          ReceiveTakesOne(c, bdf, size, e);
        }
      } else {
        ReceiveTakesOne(c, bdf, size, e);
      }
    }

    // ---------- closing ----------

    /** EfiTeeHeciUninitialize. */
    method Uninitialize(reg: Registry) returns (status: EfiStatus, ghost seg: seq<Exchange>)
      requires Ready(reg)
      modifies this`conn, reg, dev
      ensures Ready(reg) && dev.log == old(dev.log) + seg
      ensures UninitializePost(old(reg.slots), old(conn), bdf, reg.slots, conn, status, seg)
    {
      seg := [];
      var lib := reg.GetHeciLibrary(bdf);
      if lib.Some? {
        var s := reg.slots[lib.value];
        reg.slots := reg.slots[lib.value := s.(hostIds := s.hostIds[conn.hostClientId as nat := false])];
      }
      status := Success;
      if conn.properties.fixedAddress == 0 && conn.connected {
        status, seg := Disconnect(reg);
      }
      conn := conn.(connected := false, hostClientId := 0);
    }

    method Disconnect(reg: Registry) returns (status: EfiStatus, ghost seg: seq<Exchange>)
      requires Ready(reg)
      modifies this`conn, reg, dev
      ensures Ready(reg) && dev.log == old(dev.log) + seg
      ensures DisconnectExchanges(old(conn), seg, status)
      ensures var settled := Settle(old(reg.slots), old(conn), bdf, seg[|seg| - 1].outcome);
        && reg.slots == settled.0 && conn == settled.1
        && (seg[|seg| - 1].outcome != Success ==> status == settled.2)
    {
      var request := new Byte[] [DISCONNECT_REQ, conn.properties.address, conn.hostClientId, 0];
      var reply := new Byte[8](_ => 0);
      assert request[..4] == [DISCONNECT_REQ, conn.properties.address, conn.hostClientId, 0];
      ghost var e;
      status, e := SendMsg(reg, request, 4, 0, 0);
      seg := [e];
      if IsError(status) {
        return;
      }
      var length;
      status, length, e := ReadMsg(reg, reply, 8);
      Associates(old(dev.log), seg, [e]);
      seg := seg + [e];
      if !IsError(status) && (reply[0] != DISCONNECT_RES || reply[3] != 0) {
        status := ProtocolError;
      }
    }
  }

  method FindClient(clients: seq<Client>, guid: Guid) returns (ind: nat)
    ensures ind <= |clients|
    ensures FirstMatch(clients, guid, 0) == if ind == |clients| then None else Some(ind)
  {
    ind := 0;
    while ind < |clients|
      invariant ind <= |clients|
      invariant FirstMatch(clients, guid, 0) == FirstMatch(clients, guid, ind)
    {
      if clients[ind].properties.protocolName == guid {
        return;
      }
      ind := ind + 1;
    }
  }

  method FindFreeId(ids: seq<bool>) returns (id: nat)
    requires |ids| >= 1
    ensures 1 <= id <= |ids|
    ensures FirstFree(ids, 1) == if id == |ids| then None else Some(id)
  {
    id := 1;
    while id < |ids|
      invariant 1 <= id <= |ids|
      invariant FirstFree(ids, 1) == FirstFree(ids, id)
    {
      if !ids[id] {
        return;
      }
      id := id + 1;
    }
  }
}
