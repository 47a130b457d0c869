/** The EFI back end (src/uefi/metee_efi.c) on top of the HECI session layer. */
module TeeEfi {
  import opened HeciRegisters
  import opened HeciTable
  import opened HeciSession
  import opened HeciWire
  import opened TeeSession

  /** How TeeConnect reports a failed connect. */
  function ConnectFailure(s: EfiStatus): TeeStatus {
    match s
    case NoResponse => TeeDeviceNotReady
    case ProtocolError => TeeUnableToComplete
    case NotFound => TeeClientNotFound
    case _ => TeeInternalError
  }

  function TransferFailure(s: EfiStatus): TeeStatus {
    if s == MediaChanged then TeeDisconnected else TeeInternalError
  }

  /** A connect whose answer carried another command: the source returns success for it. */
  predicate WrongConnectReply(rec: ConnectRecord) {
    |rec.seg| == 2 && WrongReply(rec.seg, CONNECT_RES)
  }

  /** The connection is the table entry for its GUID, in the current generation, with its id marked. */
  ghost predicate IsConnectedTo(t: Table, i: nat, guid: Guid, conn: Connection) {
    && i < |t| && SlotOk(t[i])
    && conn.connected && conn.generation == t[i].generation && conn.hostClientId != 0 && t[i].hostIds[conn.hostClientId]
    && var ind := FirstMatch(t[i].clients, guid, 0);
       ind.Some? && conn.properties == t[i].clients[ind.value].properties
  }

  /** No id is marked in `t'` that was not marked in `t`. */
  predicate NoNewIds(t: Table, t': Table)
    requires TableOk(t) && TableOk(t')
  {
    forall i :: 0 <= i < |t| ==> NoNewSlotIds(t[i], t'[i])
  }

  predicate NoNewSlotIds(s: Slot, s': Slot)
    requires SlotOk(s) && SlotOk(s')
  {
    forall id :: 0 <= id < MAX_FW_CLIENTS && s'.hostIds[id] ==> s.hostIds[id]
  }

  lemma SelectAllOrNothing(t: Table, i: nat, conn: Connection, guid: Guid, t': Table, conn': Connection, status: EfiStatus, seg: seq<Exchange>)
    requires TableOk(t) && i < |t| && !conn.connected && SelectPost(t, i, conn, guid, t', conn', status, seg)
    ensures (status == Success && !conn'.connected) <==> (!conn'.connected && |seg| == 2 && WrongReply(seg, CONNECT_RES))
    ensures |seg| == 2 ==> !conn'.connected
    ensures conn'.connected ==> status == Success && IsConnectedTo(t', i, guid, conn') && t'[i].key == t[i].key
    ensures conn'.connected ==> t'[i].isValid == t[i].isValid
    ensures !conn'.connected ==> TableOk(t') && NoNewIds(t, t')
    ensures status != NoResponse && status != Timeout
  {}

  lemma LookupAddsNoIds(t: Table, bdf: Bdf)
    requires TableOk(t)
    ensures NoNewIds(t, Lookup(t, bdf).0)
  {
    var (u, r) := Lookup(t, bdf);
    if r.Some? {
      assert u == t[r.value := u[r.value]];
    }
  }

  lemma EnumerationAddsNoIds(u: Table, i: nat, rec: ConnectRecord)
    requires TableOk(u) && i < |u| && SlotOk(rec.mid)
    requires EnumPost(u[i], rec.mid, rec.enumStatus, rec.bitmap, rec.replies, rec.enumSeg)
    ensures NoNewIds(u, u[i := rec.mid]) && rec.mid.key == u[i].key
  {}

  /** Connecting is all or nothing. Success is reported exactly when the handle ends connected to the entry for its GUID,
      unless the connect reply carried the wrong command; a failure leaves the handle unconnected and marks no id. The device
      of a connected handle can be used exactly when no properties reply of the enumeration carried the wrong command. */
  lemma ConnectAllOrNothing(t: Table, conn: Connection, bdf: Bdf, guid: Guid, t': Table, conn': Connection, status: EfiStatus, rec: ConnectRecord)
    requires TableOk(t) && ConnectPost(t, conn, bdf, guid, t', conn', status, rec) && !conn.connected
    ensures (status == Success <==> conn'.connected) <==> !WrongConnectReply(rec)
    ensures conn'.connected ==> status == Success
    ensures conn'.connected ==> exists i: nat ::
      && IsConnectedTo(t', i, guid, conn') && t'[i].key == bdf
      && (t'[i].isValid <==> rec.mid.isValid)
    ensures conn'.connected ==> (rec.mid.isValid <==> !WrongProperties(rec.enumSeg))
    ensures !conn'.connected ==> TableOk(t') && NoNewIds(t, t')
    ensures status != NoResponse && status != Timeout
  {
    var (u, r) := Lookup(t, bdf);
    LookupAddsNoIds(t, bdf);
    if r.Some? {
      FoundIsAt(t, bdf);
      AtMeansLookup(u, bdf, r.value);
      EnumerationAddsNoIds(u, r.value, rec);
      if !IsError(rec.enumStatus) {
        ValidUnlessWrongReply(u[r.value], rec.mid, rec.enumStatus, rec.bitmap, rec.replies, rec.enumSeg);
        SelectAllOrNothing(u[r.value := rec.mid], r.value, conn, guid, t', conn', status, rec.seg);
      }
    }
  }

  // ---------- what each report means ----------

  /** The enumeration went well, and the GUID is in no entry of the device's table. */
  predicate NoSuchClient(t: Table, bdf: Bdf, guid: Guid, rec: ConnectRecord) {
    && Lookup(t, bdf).1.Some? && !IsError(rec.enumStatus)
    && forall k :: 0 <= k < |rec.mid.clients| ==> rec.mid.clients[k].properties.protocolName != guid
  }

  /** The firmware answered the connect request with a refusal. */
  predicate Refused(rec: ConnectRecord) {
    && |rec.seg| == 2 && rec.seg[1].Received? && rec.seg[1].outcome == Success && |rec.seg[1].content| == 4
    && rec.seg[1].content[0] == CONNECT_RES && rec.seg[1].content[3] != 0 && rec.seg[1].content[3] != 2
  }

  /** Every status of TeeConnect has its cause: TEE_SUCCESS is a connected handle, or the wrong connect reply;
      TEE_CLIENT_NOT_FOUND is a GUID without an entry; TEE_UNABLE_TO_COMPLETE_OPERATION is a refusal; and all else is
      TEE_INTERNAL_ERROR. */
  ghost predicate ConnectReported(t: Table, bdf: Bdf, guid: Guid, conn': Connection, rec: ConnectRecord, status: TeeStatus) {
    && (status == TeeSuccess <==> conn'.connected || WrongConnectReply(rec))
    && (status == TeeClientNotFound <==> NoSuchClient(t, bdf, guid, rec))
    && (status == TeeUnableToComplete <==> Refused(rec))
    && (status == TeeSuccess || status == TeeClientNotFound || status == TeeUnableToComplete || status == TeeInternalError)
  }

  function ConnectReport(efi: EfiStatus): TeeStatus {
    if efi == Success then TeeSuccess else ConnectFailure(efi)
  }

  lemma SelectReported(t: Table, i: nat, conn: Connection, guid: Guid, t': Table, conn': Connection, efi: EfiStatus, seg: seq<Exchange>,
                       rec: ConnectRecord)
    requires TableOk(t) && i < |t| && !conn.connected && SelectPost(t, i, conn, guid, t', conn', efi, seg)
    requires rec.seg == seg && rec.mid == t[i]
    ensures var status := ConnectReport(efi);
      && (status == TeeSuccess <==> conn'.connected || WrongConnectReply(rec))
      && (status == TeeClientNotFound <==> FirstMatch(rec.mid.clients, guid, 0).None?)
      && (status == TeeUnableToComplete <==> Refused(rec))
      && (status == TeeSuccess || status == TeeClientNotFound || status == TeeUnableToComplete || status == TeeInternalError)
  {}

  lemma ConnectIsReported(t: Table, conn: Connection, bdf: Bdf, guid: Guid, t': Table, conn': Connection, efi: EfiStatus, rec: ConnectRecord)
    requires TableOk(t) && ConnectPost(t, conn, bdf, guid, t', conn', efi, rec) && !conn.connected
    ensures ConnectReported(t, bdf, guid, conn', rec, ConnectReport(efi))
  {
    var (u, r) := Lookup(t, bdf);
    if r.Some? && !IsError(rec.enumStatus) {
      SelectReported(u[r.value := rec.mid], r.value, conn, guid, t', conn', efi, rec.seg, rec);
    }
  }

  /** Every status of a transfer on a connected handle has its cause: TEE_SUCCESS is a last exchange that went well;
      TEE_DISCONNECTED is a lost link, found when the length was in range; and all else is TEE_INTERNAL_ERROR. */
  predicate TransferReported(size: nat, conn: Connection, lost: bool, seg: seq<Exchange>, status: TeeStatus) {
    && (status == TeeSuccess <==> seg != [] && seg[|seg| - 1].outcome == Success)
    && (status == TeeDisconnected <==> size <= conn.properties.maxMessageLength && lost)
    && (status == TeeSuccess || status == TeeDisconnected || status == TeeInternalError)
  }

  function TransferReport(efi: EfiStatus): TeeStatus {
    if efi == Success then TeeSuccess else TransferFailure(efi)
  }

  lemma ReceiveIsReported(t: Table, conn: Connection, bdf: Bdf, size: Word, t': Table, conn': Connection, efi: EfiStatus, n: Word,
                          content: seq<Byte>, seg: seq<Exchange>)
    requires ReceivePost(t, conn, bdf, true, size, t', conn', efi, n, content, seg)
    ensures TransferReported(size, conn, !conn'.connected, seg, TransferReport(efi))
  {}

  lemma SendIsReported(t: Table, conn: Connection, bdf: Bdf, bytes: seq<Byte>, t': Table, conn': Connection, efi: EfiStatus, seg: seq<Exchange>)
    requires TableOk(t) && SendPost(t, conn, bdf, true, bytes, t', conn', efi, seg)
    ensures TransferReported(|bytes|, conn, !conn'.connected, seg, TransferReport(efi))
  {}

  lemma NeverSilent(t: Table, conn: Connection, bdf: Bdf, guid: Guid, t': Table, conn': Connection, efi: EfiStatus, rec: ConnectRecord)
    requires TableOk(t) && ConnectPost(t, conn, bdf, guid, t', conn', efi, rec)
    ensures efi != NoResponse
  {}

  class TeeHandle {
    const reg: Registry
    var impl: Impl?
    var maxMsgLen: Word
    var protocolVer: Byte
    ghost var run: Run // every call on this handle so far

    constructor (reg: Registry, impl: Impl?)
      requires impl != null ==> impl.state == NotConnected
      ensures this.reg == reg && this.impl == impl && View() == Session(false, 0, 0)
      ensures run == Run([View()], []) && History()
    {
      this.reg, this.impl := reg, impl;
      maxMsgLen, protocolVer := 0, 0;
      run := Run([Session(false, 0, 0)], []);
    }

    /** The calls so far are a run of the two-state session, in which a lost session stays lost. */
    ghost predicate History()
      reads this, impl
    {
      IsHistory(run, View()) && Absorbed(run) && (HasLoss(run) ==> Lost())
    }

    ghost method Record(e: Step, before: Session, wasLost: bool)
      requires IsHistory(run, before) && Absorbed(run) && (HasLoss(run) ==> wasLost)
      requires Allowed(before, e, View())
      requires wasLost ==> Lost() && e.status != TeeSuccess && !e.touched
      requires before.connected && IsTransfer(e) && e.status == TeeDisconnected ==> Lost()
      modifies `run
      ensures History() && run == Extended(old(run), e, View())
    {
      ExtendHistory(run, before, e, View());
      run := Extended(run, e, View());
    }

    ghost predicate Ready()
      reads this, impl, reg, if impl == null then null else impl.dev
    {
      impl != null ==> impl.Ready(reg)
    }

    ghost function View(): Session
      reads this, impl
    {
      Session(impl != null && impl.state == ClientState.Connected, maxMsgLen, protocolVer)
    }

    /** The library still says connected, but the link is gone. */
    ghost predicate Lost()
      reads this, impl
    {
      impl != null && impl.state == ClientState.Connected && !impl.conn.connected
    }

    twostate predicate DeviceUntouched()
      reads this, impl, if impl == null then null else impl.dev
    {
      old(impl) == impl && (impl != null ==> impl.dev.log == old(impl.dev.log) && impl.dev.trace == old(impl.dev.trace))
    }

    // Each call comes in two parts: what it does, and the entry it makes in `run`.

    method ConnectUnrecorded() returns (status: TeeStatus, ghost rec: ConnectRecord)
      requires Ready()
      modifies `maxMsgLen, `protocolVer, impl, reg, if impl == null then null else impl.dev
      ensures Ready() && impl == old(impl)
      ensures Allowed(old(View()), Step(Call.Connect, impl != null, status, !DeviceUntouched()), View())
      ensures status != TeeDeviceNotReady
      ensures old(Lost()) ==> Lost() && DeviceUntouched() && status == TeeInternalError
      ensures impl != null && !old(View()).connected ==> exists efi ::
        && ConnectPost(old(reg.slots), old(impl.conn), impl.bdf, impl.guid, reg.slots, impl.conn, efi, rec)
        && status == ConnectReport(efi)
      ensures status == TeeSuccess ==>
        maxMsgLen == impl.conn.properties.maxMessageLength && protocolVer == impl.conn.properties.protocolVersion
    {
      rec := NO_RECORD;
      if impl == null {
        return TeeInvalidParameter, rec;
      }
      if impl.state == ClientState.Connected {
        return TeeInternalError, rec;
      }
      var efi;
      ghost var t, c := reg.slots, impl.conn;
      efi, rec := impl.ConnectClient(reg);
      NeverSilent(t, c, impl.bdf, impl.guid, reg.slots, impl.conn, efi, rec);
      if IsError(efi) {
        return ConnectFailure(efi), rec;
      }
      impl.state := ClientState.Connected;
      maxMsgLen := impl.conn.properties.maxMessageLength;
      protocolVer := impl.conn.properties.protocolVersion;
      status := TeeSuccess;
    }

    method ReadUnrecorded(buffer: array?<Byte>, size: nat) returns (status: TeeStatus, bytesRead: Word, ghost seg: seq<Exchange>)
      requires Ready() && (buffer != null ==> size <= buffer.Length)
      modifies impl, reg, if impl == null then null else impl.dev, buffer
      ensures Ready() && impl == old(impl)
      ensures var valid := impl != null && buffer != null && 0 < size < TWO_32;
        Allowed(old(View()), Step(Call.Read, valid, status, !DeviceUntouched()), View())
      ensures status == TeeDisconnected && old(View()).connected ==> Lost()
      ensures old(Lost()) ==> Lost() && DeviceUntouched() && status != TeeSuccess
      ensures impl != null && buffer != null && 0 < size < TWO_32 && old(View()).connected ==> exists efi, n, content ::
        && ReceivePost(old(reg.slots), old(impl.conn), impl.bdf, true, size, reg.slots, impl.conn, efi, n, content, seg)
        && status == TransferReport(efi)
        && (efi == Success ==> bytesRead == n && buffer[..] == content)
      ensures status == TeeSuccess ==> buffer != null && size < TWO_32 && ReadInto(Cleared(old(buffer[..]), size), size, buffer[..], bytesRead)
      ensures impl != null && buffer != null && 0 < size < TWO_32 && old(View()).connected ==>
        TransferReported(size, old(impl.conn), Lost(), seg, status)
    {
      bytesRead, seg := 0, [];
      if impl == null || buffer == null || size == 0 || size >= TWO_32 {
        return TeeInvalidParameter, bytesRead, seg;
      }
      if impl.state != ClientState.Connected {
        return TeeDisconnected, bytesRead, seg;
      }
      var efi, n;
      ghost var content;
      ghost var t, c := reg.slots, impl.conn;
      efi, n, content, seg := impl.ReceiveMessage(reg, buffer, size);
      ReceiveIsReported(t, c, impl.bdf, size, reg.slots, impl.conn, efi, n, content, seg);
      if IsError(efi) {
        return TransferFailure(efi), bytesRead, seg;
      }
      bytesRead := n;
      status := TeeSuccess;
    }

    method WriteUnrecorded(buffer: array?<Byte>, size: nat) returns (status: TeeStatus, bytesWritten: Word, ghost seg: seq<Exchange>)
      requires Ready() && (buffer != null ==> size <= buffer.Length)
      modifies impl, reg, if impl == null then null else impl.dev
      ensures Ready() && impl == old(impl)
      ensures var valid := impl != null && buffer != null && 0 < size < TWO_32;
        Allowed(old(View()), Step(Call.Write, valid, status, !DeviceUntouched()), View())
      ensures status == TeeDisconnected && old(View()).connected ==> Lost()
      ensures old(Lost()) ==> Lost() && DeviceUntouched() && status != TeeSuccess
      ensures status == TeeSuccess ==> bytesWritten == size
      ensures impl != null && buffer != null && 0 < size < TWO_32 && old(View()).connected ==> exists efi ::
        && SendPost(old(reg.slots), old(impl.conn), impl.bdf, true, buffer[..size], reg.slots, impl.conn, efi, seg)
        && status == TransferReport(efi)
      ensures impl != null && buffer != null && 0 < size < TWO_32 && old(View()).connected ==>
        TransferReported(size, old(impl.conn), Lost(), seg, status)
    {
      bytesWritten, seg := 0, [];
      if impl == null || buffer == null || size == 0 || size >= TWO_32 {
        return TeeInvalidParameter, bytesWritten, seg;
      }
      if impl.state != ClientState.Connected {
        return TeeDisconnected, bytesWritten, seg;
      }
      var efi, n;
      ghost var t, c := reg.slots, impl.conn;
      efi, n, seg := impl.SendMessage(reg, buffer, size);
      SendIsReported(t, c, impl.bdf, buffer[..size], reg.slots, impl.conn, efi, seg);
      if IsError(efi) {
        return TransferFailure(efi), bytesWritten, seg;
      }
      bytesWritten := n;
      status := TeeSuccess;
    }

    method TeeConnect() returns (status: TeeStatus, ghost rec: ConnectRecord)
      requires Ready() && History()
      modifies this, impl, reg, if impl == null then null else impl.dev
      ensures Ready() && History() && impl == old(impl)
      ensures run == Extended(old(run), Step(Call.Connect, impl != null, status, !DeviceUntouched()), View())
      ensures status != TeeDeviceNotReady
      ensures impl != null && !old(View()).connected ==> exists efi ::
        && ConnectPost(old(reg.slots), old(impl.conn), impl.bdf, impl.guid, reg.slots, impl.conn, efi, rec)
        && status == ConnectReport(efi)
      ensures impl != null && !old(View()).connected && !old(impl.conn).connected ==>
        ConnectReported(old(reg.slots), impl.bdf, impl.guid, impl.conn, rec, status)
      ensures status == TeeSuccess ==> (
        && impl != null
        && maxMsgLen == impl.conn.properties.maxMessageLength && protocolVer == impl.conn.properties.protocolVersion)
    {
      ghost var before, wasLost := View(), Lost();
      ghost var t, c := reg.slots, if impl == null then NO_CONNECTION else impl.conn;
      status, rec := ConnectUnrecorded();
      if impl != null && !before.connected && !c.connected {
        ghost var efi :| ConnectPost(t, c, impl.bdf, impl.guid, reg.slots, impl.conn, efi, rec) && status == ConnectReport(efi);
        ConnectIsReported(t, c, impl.bdf, impl.guid, reg.slots, impl.conn, efi, rec);
      }
      Record(Step(Call.Connect, impl != null, status, !DeviceUntouched()), before, wasLost);
    }

    method TeeRead(buffer: array?<Byte>, size: nat) returns (status: TeeStatus, bytesRead: Word, ghost seg: seq<Exchange>)
      requires Ready() && History() && (buffer != null ==> size <= buffer.Length)
      modifies `run, impl, reg, if impl == null then null else impl.dev, buffer
      ensures Ready() && History() && impl == old(impl)
      ensures var valid := impl != null && buffer != null && 0 < size < TWO_32;
        run == Extended(old(run), Step(Call.Read, valid, status, !DeviceUntouched()), View())
      ensures impl != null && buffer != null && 0 < size < TWO_32 && old(View()).connected ==> exists efi, n, content ::
        && ReceivePost(old(reg.slots), old(impl.conn), impl.bdf, true, size, reg.slots, impl.conn, efi, n, content, seg)
        && status == TransferReport(efi)
        && (efi == Success ==> bytesRead == n && buffer[..] == content)
      ensures status == TeeSuccess ==> buffer != null && size < TWO_32 && ReadInto(Cleared(old(buffer[..]), size), size, buffer[..], bytesRead)
      ensures impl != null && buffer != null && 0 < size < TWO_32 && old(View()).connected ==>
        TransferReported(size, old(impl.conn), Lost(), seg, status)
    {
      ghost var before, wasLost := View(), Lost();
      status, bytesRead, seg := ReadUnrecorded(buffer, size);
      ghost var valid := impl != null && buffer != null && 0 < size < TWO_32;
      Record(Step(Call.Read, valid, status, !DeviceUntouched()), before, wasLost);
    }

    method TeeWrite(buffer: array?<Byte>, size: nat) returns (status: TeeStatus, bytesWritten: Word, ghost seg: seq<Exchange>)
      requires Ready() && History() && (buffer != null ==> size <= buffer.Length)
      modifies `run, impl, reg, if impl == null then null else impl.dev
      ensures Ready() && History() && impl == old(impl)
      ensures var valid := impl != null && buffer != null && 0 < size < TWO_32;
        run == Extended(old(run), Step(Call.Write, valid, status, !DeviceUntouched()), View())
      ensures status == TeeSuccess ==> bytesWritten == size
      ensures impl != null && buffer != null && 0 < size < TWO_32 && old(View()).connected ==> exists efi ::
        && SendPost(old(reg.slots), old(impl.conn), impl.bdf, true, buffer[..size], reg.slots, impl.conn, efi, seg)
        && status == TransferReport(efi)
      ensures impl != null && buffer != null && 0 < size < TWO_32 && old(View()).connected ==>
        TransferReported(size, old(impl.conn), Lost(), seg, status)
    {
      ghost var before, wasLost := View(), Lost();
      status, bytesWritten, seg := WriteUnrecorded(buffer, size);
      ghost var valid := impl != null && buffer != null && 0 < size < TWO_32;
      Record(Step(Call.Write, valid, status, !DeviceUntouched()), before, wasLost);
    }

    /** Ends the session; the handle is not used again. */
    method TeeDisconnect()
      requires Ready()
      modifies this, impl, reg, if impl == null then null else impl.dev
      ensures impl == null
      ensures old(impl) != null ==> old(impl).conn == old(impl.conn).(connected := false, hostClientId := 0) && exists status, seg ::
        UninitializePost(old(reg.slots), old(impl.conn), old(impl).bdf, reg.slots, old(impl).conn, status, seg)
    {
      if impl != null {
        var status;
        ghost var seg;
        status, seg := impl.Uninitialize(reg);
        impl := null;
      }
    }
  }
}
