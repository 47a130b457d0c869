/** Whole runs: many handles, opened, connected, used and closed in any order on the devices of one table. The steps are
    the contracts of the session calls; their outcomes are arbitrary. */
module HeciRuns {
  import opened HeciRegisters
  import opened HeciTable
  import opened Wrappers
  import opened HeciSession
  import opened HeciWire

  datatype Handle = Handle(bdf: Bdf, guid: Guid, conn: Connection)

  datatype World = World(table: Table, handles: map<nat, Handle>)

  datatype Op =
    | Open(h: nat, bdf: Bdf, guid: Guid)
    | Connect(h: nat, status: EfiStatus, rec: ConnectRecord)
    | Send(h: nat, valid: bool, bytes: seq<Byte>, status: EfiStatus, seg: seq<Exchange>)
    | Receive(h: nat, valid: bool, size: Word, status: EfiStatus, bytesRead: Word, content: seq<Byte>, seg: seq<Exchange>)
    | Close(h: nat, status: EfiStatus, seg: seq<Exchange>)

  /** The handle's own record is the only one that changes. */
  predicate Only(w: World, h: nat, w': World) {
    h in w.handles && h in w'.handles
    && w'.handles == w.handles[h := w.handles[h].(conn := w'.handles[h].conn)]
  }

  ghost predicate Next(w: World, op: Op, w': World) {
    TableOk(w.table) &&
    match op
    case Open(h, bdf, guid) =>
      h !in w.handles && bdf != UNINITIALIZED && w' == World(w.table, w.handles[h := Handle(bdf, guid, NO_CONNECTION)])
    case Connect(h, status, rec) =>
      Only(w, h, w') && ConnectPost(w.table, w.handles[h].conn, w.handles[h].bdf, w.handles[h].guid, w'.table, w'.handles[h].conn, status, rec)
    case Send(h, valid, bytes, status, seg) =>
      Only(w, h, w') && SendPost(w.table, w.handles[h].conn, w.handles[h].bdf, valid, bytes, w'.table, w'.handles[h].conn, status, seg)
    case Receive(h, valid, size, status, bytesRead, content, seg) =>
      Only(w, h, w') && ReceivePost(w.table, w.handles[h].conn, w.handles[h].bdf, valid, size, w'.table, w'.handles[h].conn, status, bytesRead, content, seg)
    case Close(h, status, seg) =>
      h in w.handles && w'.handles == w.handles - {h}
      && exists conn' :: UninitializePost(w.table, w.handles[h].conn, w.handles[h].bdf, w'.table, conn', status, seg)
  }

  // ---------- the invariant ----------

  /** Handle `h` holds host id `id` of this device, in its current generation. */
  predicate HeldBy(s: Slot, handles: map<nat, Handle>, h: nat, id: nat) {
    && h in handles && handles[h].bdf == s.key && id != 0
    && handles[h].conn.hostClientId == id && handles[h].conn.generation == s.generation
  }

  /** The marked ids are exactly the ids held, and no two handles hold the same one. */
  ghost predicate IdsExact(s: Slot, handles: map<nat, Handle>)
    requires SlotOk(s)
  {
    && !s.hostIds[0]
    && (forall id :: 1 <= id < MAX_FW_CLIENTS && s.hostIds[id] ==> exists h: nat :: HeldBy(s, handles, h, id))
    && (forall h: nat, id: nat :: HeldBy(s, handles, h, id) ==> s.hostIds[id])
    && (forall h: nat, k: nat, id: nat :: HeldBy(s, handles, h, id) && HeldBy(s, handles, k, id) ==> h == k)
  }

  ghost predicate SlotInv(s: Slot, handles: map<nat, Handle>) {
    && SlotOk(s)
    && (forall h :: h in handles && handles[h].bdf == s.key && handles[h].conn.hostClientId != 0 ==>
          handles[h].conn.generation <= s.generation)
    && (s.isValid ==> IdsExact(s, handles))
    && (s.isValid ==> forall h: nat, id: nat :: HeldBy(s, handles, h, id) ==> handles[h].conn.connected)
  }

  predicate HandleOk(t: Table, h: Handle) {
    && h.bdf != UNINITIALIZED
    && (h.conn.connected ==> h.conn.hostClientId != 0)
    && (h.conn.hostClientId != 0 ==> h.bdf in Keys(t))
  }

  ghost predicate Inv(w: World) {
    && Tidy(w.table)
    && (forall h :: h in w.handles ==> HandleOk(w.table, w.handles[h]))
    && (forall i :: 0 <= i < |w.table| ==> if Used(w.table[i]) then SlotInv(w.table[i], w.handles) else !w.table[i].isValid)
  }

  // ---------- one device at a time ----------

  /** A device does not notice what happens to handles of other devices. */
  lemma OtherDevice(s: Slot, handles: map<nat, Handle>, handles': map<nat, Handle>)
    requires SlotInv(s, handles)
    requires forall h :: (h in handles && handles[h].bdf == s.key) <==> (h in handles' && handles'[h].bdf == s.key)
    requires forall h :: h in handles && handles[h].bdf == s.key ==> handles'[h] == handles[h]
    ensures SlotInv(s, handles')
  {
    forall h: nat, id: nat
      ensures HeldBy(s, handles', h, id) <==> HeldBy(s, handles, h, id)
    {}
    if s.isValid {
      forall id | 1 <= id < MAX_FW_CLIENTS && s.hostIds[id]
        ensures exists h: nat :: HeldBy(s, handles', h, id)
      {
        var h: nat :| HeldBy(s, handles, h, id);
        assert HeldBy(s, handles', h, id);
      }
    }
  }

  /** Replacing slot `i` and the handles of its device keeps the rest. */
  lemma DeviceStep(w: World, i: nat, s': Slot, handles': map<nat, Handle>)
    requires Inv(w) && i < |w.table| && Used(w.table[i]) && s'.key == w.table[i].key && SlotInv(s', handles')
    requires forall h :: h in handles' ==> h in w.handles && handles'[h].bdf == w.handles[h].bdf
    requires forall h :: h in w.handles && w.handles[h].bdf != s'.key ==> h in handles' && handles'[h] == w.handles[h]
    requires forall h :: h in handles' && handles'[h].bdf == s'.key ==> handles'[h].conn.connected ==> handles'[h].conn.hostClientId != 0
    ensures Inv(World(w.table[i := s'], handles'))
  {
    var t' := w.table[i := s'];
    assert Keys(t') == Keys(w.table);
    assert Keys(t')[i] == s'.key;
    forall k | 0 <= k < |t'| && k != i && Used(t'[k])
      ensures SlotInv(t'[k], handles')
    {
      assert w.table[k].key != s'.key;
      OtherDevice(w.table[k], w.handles, handles');
    }
  }

  /** A lookup, which may take a free slot, changes no device that is known. */
  lemma LookupStep(w: World, bdf: Bdf)
    requires Inv(w) && bdf != UNINITIALIZED
    ensures Inv(World(Lookup(w.table, bdf).0, w.handles))
    ensures Lookup(w.table, bdf).1.Some? ==> At(Lookup(w.table, bdf).0, bdf, Lookup(w.table, bdf).1.value)
    ensures bdf in Keys(w.table) ==> Lookup(w.table, bdf).0 == w.table && Lookup(w.table, bdf).1.Some?
  {
    var (u, r) := Lookup(w.table, bdf);
    LookupKeepsTidy(w.table, bdf);
    if r.Some? {
      FoundIsAt(w.table, bdf);
      assert forall k :: 0 <= k < |u| && k != r.value ==> u[k] == w.table[k];
      if u != w.table {
        assert bdf !in Keys(w.table);
        assert SlotInv(u[r.value], w.handles);
        forall h | h in w.handles
          ensures HandleOk(u, w.handles[h])
        {
          if w.handles[h].conn.hostClientId != 0 {
            var k :| 0 <= k < |w.table| && Keys(w.table)[k] == w.handles[h].bdf;
            assert Keys(u)[k] == w.handles[h].bdf;
          }
        }
      }
    }
  }

  lemma EnumerationKeeps(s: Slot, mid: Slot, handles: map<nat, Handle>, rec: ConnectRecord)
    requires SlotInv(s, handles) && SlotOk(mid)
    requires EnumPost(s, mid, rec.enumStatus, rec.bitmap, rec.replies, rec.enumSeg)
    ensures SlotInv(mid, handles) && mid.key == s.key
  {
    if !s.isValid && mid.isValid {
      forall h: nat, id: nat
        ensures !HeldBy(mid, handles, h, id)
      {}
    }
  }

  /** The connection of `h` keeps its id and generation, and at most loses its `connected` flag, which for a valid slot
      happens only to a handle of another generation. */
  predicate SameId(s: Slot, conn: Connection, conn': Connection) {
    && conn'.hostClientId == conn.hostClientId && conn'.generation == conn.generation
    && (conn'.connected ==> conn.connected)
    && (s.isValid && conn.connected && !conn'.connected ==> conn.generation != s.generation)
  }

  lemma SameIdKeeps(w: World, h: nat, i: nat, s': Slot, conn': Connection)
    requires Inv(w) && h in w.handles && At(w.table, w.handles[h].bdf, i)
    requires s' == w.table[i] || s' == w.table[i].(isValid := false)
    requires SameId(s', w.handles[h].conn, conn')
    ensures Inv(World(w.table[i := s'], w.handles[h := w.handles[h].(conn := conn')]))
  {
    var s, handles' := w.table[i], w.handles[h := w.handles[h].(conn := conn')];
    AtMeansLookup(w.table, w.handles[h].bdf, i);
    forall k: nat, id: nat
      ensures HeldBy(s', handles', k, id) <==> HeldBy(s, w.handles, k, id)
    {}
    if s'.isValid {
      forall id | 1 <= id < MAX_FW_CLIENTS && s'.hostIds[id]
        ensures exists k: nat :: HeldBy(s', handles', k, id)
      {
        var k: nat :| HeldBy(s, w.handles, k, id);
        assert HeldBy(s', handles', k, id);
      }
    }
    DeviceStep(w, i, s', handles');
  }

  /** A free id is marked and given to a handle that was not connected. */
  lemma GrantKeeps(w: World, h: nat, i: nat, id: Byte, conn': Connection)
    requires Inv(w) && h in w.handles && At(w.table, w.handles[h].bdf, i) && !w.handles[h].conn.connected
    requires id != 0 && !w.table[i].hostIds[id]
    requires conn'.connected && conn'.hostClientId == id && conn'.generation == w.table[i].generation
    ensures Inv(World(w.table[i := w.table[i].(hostIds := w.table[i].hostIds[id as nat := true])], w.handles[h := w.handles[h].(conn := conn')]))
  {
    var s := w.table[i];
    var s' := s.(hostIds := s.hostIds[id as nat := true]);
    var handles' := w.handles[h := w.handles[h].(conn := conn')];
    AtMeansLookup(w.table, w.handles[h].bdf, i);
    assert HeldBy(s', handles', h, id);
    if s.isValid {
      forall k: nat, x: nat | k != h
        ensures HeldBy(s', handles', k, x) <==> HeldBy(s, w.handles, k, x)
      {}
      forall x | 1 <= x < MAX_FW_CLIENTS && s'.hostIds[x]
        ensures exists k: nat :: HeldBy(s', handles', k, x)
      {
        if x != id {
          var k: nat :| HeldBy(s, w.handles, k, x);
          assert k != h;
          assert HeldBy(s', handles', k, x);
        }
      }
    }
    DeviceStep(w, i, s', handles');
  }

  // ---------- the steps ----------

  lemma OpenKeeps(w: World, h: nat, bdf: Bdf, guid: Guid)
    requires Inv(w) && h !in w.handles && bdf != UNINITIALIZED
    ensures Inv(World(w.table, w.handles[h := Handle(bdf, guid, NO_CONNECTION)]))
  {
    var handles' := w.handles[h := Handle(bdf, guid, NO_CONNECTION)];
    forall i | 0 <= i < |w.table| && Used(w.table[i])
      ensures SlotInv(w.table[i], handles')
    {
      var s := w.table[i];
      forall k: nat, id: nat
        ensures HeldBy(s, handles', k, id) <==> HeldBy(s, w.handles, k, id)
      {}
      if s.isValid {
        forall id | 1 <= id < MAX_FW_CLIENTS && s.hostIds[id]
          ensures exists k: nat :: HeldBy(s, handles', k, id)
        {
          var k: nat :| HeldBy(s, w.handles, k, id);
          assert HeldBy(s, handles', k, id);
        }
      }
    }
  }

  lemma SettleKeeps(w: World, h: nat, i: nat, outcome: EfiStatus)
    requires Inv(w) && h in w.handles && At(w.table, w.handles[h].bdf, i)
    ensures var (t', conn', _) := Settle(w.table, w.handles[h].conn, w.handles[h].bdf, outcome);
      Inv(World(t', w.handles[h := w.handles[h].(conn := conn')]))
  {
    SettleAt(w.table, w.handles[h].conn, w.handles[h].bdf, i, outcome);
    var s := w.table[i];
    assert w.table[i := s] == w.table;
    SameIdKeeps(w, h, i, if outcome == Aborted then s.(isValid := false) else s,
                if outcome == Aborted then w.handles[h].conn.(connected := false) else w.handles[h].conn);
  }

  lemma SendKeeps(w: World, op: Op, w': World)
    requires Inv(w) && Next(w, op, w') && op.Send?
    ensures Inv(w')
  {
    var h := op.h;
    var conn, bdf := w.handles[h].conn, w.handles[h].bdf;
    assert w.handles[h := w.handles[h].(conn := conn)] == w.handles;
    var (u, r) := Lookup(w.table, bdf);
    LookupStep(w, bdf);
    var v := World(u, w.handles);
    if op.valid && |op.bytes| <= conn.properties.maxMessageLength && conn.connected && r.Some? {
      var i := r.value;
      if !u[i].isValid || conn.generation != u[i].generation {
        assert u[i := u[i]] == u;
        SameIdKeeps(v, h, i, u[i], conn.(connected := false));
      } else {
        SettleKeeps(v, h, i, op.seg[|op.seg| - 1].outcome);
      }
    }
  }

  lemma ReceiveKeeps(w: World, op: Op, w': World)
    requires Inv(w) && Next(w, op, w') && op.Receive?
    ensures Inv(w')
  {
    var h := op.h;
    var conn, bdf := w.handles[h].conn, w.handles[h].bdf;
    assert w.handles[h := w.handles[h].(conn := conn)] == w.handles;
    if op.valid && op.size <= conn.properties.maxMessageLength && conn.connected {
      LookupStep(w, bdf);
      SettleKeeps(w, h, Lookup(w.table, bdf).1.value, op.seg[|op.seg| - 1].outcome);
    }
  }

  lemma ConnectKeeps(w: World, op: Op, w': World)
    requires Inv(w) && Next(w, op, w') && op.Connect?
    ensures Inv(w')
  {
    var h := op.h;
    var hd := w.handles[h];
    var conn, bdf := hd.conn, hd.bdf;
    assert w.handles[h := hd.(conn := conn)] == w.handles;
    var (u, r) := Lookup(w.table, bdf);
    LookupStep(w, bdf);
    if !conn.connected && r.Some? {
      var i := r.value;
      EnumerationKeeps(u[i], op.rec.mid, w.handles, op.rec);
      DeviceStep(World(u, w.handles), i, op.rec.mid, w.handles);
      var t := u[i := op.rec.mid];
      UpdateKeepsKeys(u, i, op.rec.mid);
      if !IsError(op.rec.enumStatus) {
        SelectKeeps(World(t, w.handles), h, i, w'.table, w'.handles[h].conn, op.status, op.rec.seg);
      }
    }
  }

  lemma SelectKeeps(w: World, h: nat, i: nat, t': Table, conn': Connection, status: EfiStatus, seg: seq<Exchange>)
    requires Inv(w) && h in w.handles && At(w.table, w.handles[h].bdf, i) && !w.handles[h].conn.connected
    requires SelectPost(w.table, i, w.handles[h].conn, w.handles[h].guid, t', conn', status, seg)
    ensures Inv(World(t', w.handles[h := w.handles[h].(conn := conn')]))
  {
    var s := w.table[i];
    assert w.table[i := s] == w.table;
    if conn'.connected {
      GrantKeeps(w, h, i, conn'.hostClientId, conn');
    } else {
      SameIdKeeps(w, h, i, if t' == w.table then s else s.(isValid := false), conn');
    }
  }

  // ---------- closing a handle ----------

  /** Closing `h` unmarks an id of the current generation that `h` does not hold. This is what the check the source
      leaves out, on the generation of the handle, would prevent. */
  predicate StealsId(w: World, h: nat)
    requires TableOk(w.table) && h in w.handles
  {
    var conn, r := w.handles[h].conn, IndexFrom(Keys(w.table), w.handles[h].bdf, 0);
    r < |w.table| && w.table[r].isValid && conn.hostClientId != 0
    && conn.generation != w.table[r].generation && w.table[r].hostIds[conn.hostClientId]
  }

  function AfterRelease(w: World, h: nat, i: nat): World
    requires TableOk(w.table) && h in w.handles && i < |w.table|
  {
    var s := w.table[i];
    World(w.table[i := s.(hostIds := s.hostIds[w.handles[h].conn.hostClientId as nat := false])], w.handles - {h})
  }

  lemma ReleaseKeeps(w: World, h: nat, i: nat)
    requires Inv(w) && h in w.handles && At(w.table, w.handles[h].bdf, i) && !StealsId(w, h)
    ensures Inv(AfterRelease(w, h, i))
  {
    var s, conn := w.table[i], w.handles[h].conn;
    var s', handles' := s.(hostIds := s.hostIds[conn.hostClientId as nat := false]), w.handles - {h};
    AtMeansLookup(w.table, w.handles[h].bdf, i);
    forall k: nat, x: nat
      ensures HeldBy(s', handles', k, x) <==> k != h && HeldBy(s, w.handles, k, x)
    {}
    if s.isValid {
      forall x | 1 <= x < MAX_FW_CLIENTS && s'.hostIds[x]
        ensures exists k: nat :: HeldBy(s', handles', k, x)
      {
        var k: nat :| HeldBy(s, w.handles, k, x);
        assert HeldBy(s', handles', k, x);
      }
      forall k: nat, x: nat | HeldBy(s', handles', k, x)
        ensures s'.hostIds[x]
      {
        assert HeldBy(s, w.handles, k, x);
        if x == conn.hostClientId && conn.generation == s.generation {
          assert HeldBy(s, w.handles, h, x);
        }
      }
    }
    DeviceStep(w, i, s', handles');
  }

  /** The exact condition: giving an id back keeps the invariant unless it steals the id. */
  lemma ReleaseExact(w: World, h: nat, i: nat)
    requires Inv(w) && h in w.handles && At(w.table, w.handles[h].bdf, i)
    ensures Inv(AfterRelease(w, h, i)) <==> !StealsId(w, h)
  {
    if !StealsId(w, h) {
      ReleaseKeeps(w, h, i);
    } else {
      var s, id := w.table[i], w.handles[h].conn.hostClientId;
      AtMeansLookup(w.table, w.handles[h].bdf, i);
      var k: nat :| HeldBy(s, w.handles, k, id);
      var w' := AfterRelease(w, h, i);
      assert HeldBy(w'.table[i], w'.handles, k, id) && !w'.table[i].hostIds[id];
    }
  }

  lemma InvalidateKeeps(w: World, i: nat)
    requires Inv(w) && i < |w.table| && Used(w.table[i])
    ensures Inv(World(w.table[i := w.table[i].(isValid := false)], w.handles))
  {
    DeviceStep(w, i, w.table[i].(isValid := false), w.handles);
  }

  lemma DropUnheld(w: World, h: nat)
    requires Inv(w) && h in w.handles && w.handles[h].conn.hostClientId == 0
    ensures Inv(World(w.table, w.handles - {h}))
  {
    forall i | 0 <= i < |w.table| && Used(w.table[i])
      ensures SlotInv(w.table[i], w.handles - {h})
    {
      var s := w.table[i];
      forall k: nat, id: nat
        ensures HeldBy(s, w.handles - {h}, k, id) <==> HeldBy(s, w.handles, k, id)
      {}
      if s.isValid {
        forall id | 1 <= id < MAX_FW_CLIENTS && s.hostIds[id]
          ensures exists k: nat :: HeldBy(s, w.handles - {h}, k, id)
        {
          var k: nat :| HeldBy(s, w.handles, k, id);
          assert HeldBy(s, w.handles - {h}, k, id);
        }
      }
    }
  }

  lemma CloseKeeps(w: World, op: Op, w': World)
    requires Inv(w) && Next(w, op, w') && op.Close? && !StealsId(w, op.h)
    ensures Inv(w')
  {
    var h := op.h;
    var conn, bdf := w.handles[h].conn, w.handles[h].bdf;
    var (u, r) := Lookup(w.table, bdf);
    LookupStep(w, bdf);
    var v := Release(w.table, bdf, conn.hostClientId);
    if r.None? {
      DropUnheld(w, h);
    } else {
      var i := r.value;
      AtMeansLookup(u, bdf, i);
      if u != w.table {
        assert u[i] == NewSlot(bdf);
      }
      ReleaseKeeps(World(u, w.handles), h, i);
      var x := AfterRelease(World(u, w.handles), h, i);
      UpdateKeepsKeys(u, i, x.table[i]);
      if w'.table != v {
        SettleAt(v, conn, bdf, i, op.seg[|op.seg| - 1].outcome);
        InvalidateKeeps(x, i);
      }
    }
  }

  // ---------- runs ----------

  datatype Run = Run(worlds: seq<World>, ops: seq<Op>)

  ghost predicate StepHolds(run: Run, j: int) {
    0 <= j < |run.ops| && j + 1 < |run.worlds| && Next(run.worlds[j], run.ops[j], run.worlds[j + 1])
  }

  ghost predicate IsRun(run: Run) {
    |run.worlds| == |run.ops| + 1 && forall j :: 0 <= j < |run.ops| ==> StepHolds(run, j)
  }

  /** Step `j` takes no id away from another handle. */
  ghost predicate StealsNothing(run: Run, j: int) {
    StepHolds(run, j) && (run.ops[j].Close? ==> !StealsId(run.worlds[j], run.ops[j].h))
  }

  ghost predicate NoTheft(run: Run) {
    forall j :: 0 <= j < |run.ops| ==> StealsNothing(run, j)
  }

  const START: World := World(InitialTable(), map[])

  lemma StepKeeps(w: World, op: Op, w': World)
    requires Inv(w) && Next(w, op, w')
    requires op.Close? ==> !StealsId(w, op.h)
    ensures Inv(w')
  {
    match op
    case Open(h, bdf, guid) => OpenKeeps(w, h, bdf, guid);
    case Connect(_, _, _) => ConnectKeeps(w, op, w');
    case Send(_, _, _, _, _) => SendKeeps(w, op, w');
    case Receive(_, _, _, _, _, _, _) => ReceiveKeeps(w, op, w');
    case Close(_, _, _) => CloseKeeps(w, op, w');
  }

  /** Host ids over whole runs: while a device's table is valid, its marked ids are exactly the ids held by handles of its
      current generation, and no two handles hold the same one. */
  lemma {:induction false} RunKeepsInv(run: Run, n: nat)
    requires IsRun(run) && run.worlds[0] == START && NoTheft(run) && n <= |run.ops|
    ensures Inv(run.worlds[n])
  {
    if n == 0 {
    } else {
      RunKeepsInv(run, n - 1);
      assert StealsNothing(run, n - 1);
      StepKeeps(run.worlds[n - 1], run.ops[n - 1], run.worlds[n]);
    }
  }

  /** Enough handles hold an id: one for each of 1..n. */
  lemma {:induction false} Holders(s: Slot, handles: map<nat, Handle>, n: nat) returns (hs: set<nat>)
    requires SlotInv(s, handles) && s.isValid && n < MAX_FW_CLIENTS
    requires forall id :: 1 <= id <= n ==> s.hostIds[id]
    ensures |hs| == n
    ensures forall h :: h in hs ==> exists id: nat :: id <= n && HeldBy(s, handles, h, id) && handles[h].conn.connected
  {
    if n == 0 {
      hs := {};
    } else {
      var before := Holders(s, handles, n - 1);
      assert s.hostIds[n];
      var h: nat :| HeldBy(s, handles, h, n);
      forall k | k in before
        ensures k != h
      {
        var id: nat :| id <= n - 1 && HeldBy(s, handles, k, id);
      }
      hs := before + {h};
    }
  }

  /** A connect that reports "max client count reached": it got past enumeration and sent no request. */
  predicate ReportsFull(op: Op) {
    op.Connect? && op.status == DeviceError && op.rec != NO_RECORD && !IsError(op.rec.enumStatus) && op.rec.seg == []
  }

  /** Such a connect met a device whose table was valid before, with all ids marked. */
  lemma ReportsFullMeans(w: World, op: Op, w': World)
    requires Inv(w) && Next(w, op, w') && ReportsFull(op)
    ensures var i := IndexFrom(Keys(w.table), w.handles[op.h].bdf, 0);
      i < |w.table| && w.table[i].isValid && FirstFree(w.table[i].hostIds, 1).None?
  {
    var bdf := w.handles[op.h].bdf;
    LookupStep(w, bdf);
    var (u, r) := Lookup(w.table, bdf);
    FoundIsAt(w.table, bdf);
    assert FirstFree(NoIds(), 1) == Some(1) by {
      assert !NoIds()[1];
    }
    assert op.rec.mid.hostIds != NoIds();
    assert u[r.value].isValid && op.rec.mid == u[r.value];
    assert Keys(w.table)[r.value] == w.table[r.value].key;
  }

  /** "Max client count reached" is reported only when 255 connected handles of the current generation hold an id each. */
  lemma FullOnlyWhenHeld(run: Run, n: nat) returns (hs: set<nat>)
    requires IsRun(run) && run.worlds[0] == START && NoTheft(run) && n < |run.ops| && ReportsFull(run.ops[n])
    requires run.ops[n].h in run.worlds[n].handles
    ensures |hs| == 255
    ensures var w := run.worlds[n];
      var i := IndexFrom(Keys(w.table), w.handles[run.ops[n].h].bdf, 0);
      i < |w.table| && forall h :: h in hs ==> exists id: nat :: HeldBy(w.table[i], w.handles, h, id) && w.handles[h].conn.connected
  {
    RunKeepsInv(run, n);
    var w, op := run.worlds[n], run.ops[n];
    assert StepHolds(run, n);
    ReportsFullMeans(w, op, run.worlds[n + 1]);
    var i := IndexFrom(Keys(w.table), w.handles[op.h].bdf, 0);
    hs := Holders(w.table[i], w.handles, 255);
  }

  // ---------- generations ----------

  /** Devices stay in their slots, generations do not go back, only the device `bdf` changes at all, and a device becomes
      valid only in a new generation. */
  predicate Later(t: Table, t': Table, bdf: Bdf) {
    && |t'| == |t|
    && (forall i :: 0 <= i < |t| && Used(t[i]) ==> t'[i].key == t[i].key && t[i].generation <= t'[i].generation)
    && (forall i :: 0 <= i < |t| && Used(t[i]) && t[i].key != bdf ==> t'[i] == t[i])
    && (forall i :: 0 <= i < |t| && Used(t[i]) && t'[i].isValid ==> t[i].isValid || t[i].generation < t'[i].generation)
  }

  ghost predicate Known(w: World) {
    Tidy(w.table) && forall h :: h in w.handles ==> w.handles[h].bdf != UNINITIALIZED
  }

  lemma UpdateLater(t: Table, u: Table, i: nat, s: Slot)
    requires Tidy(u) && Later(t, u, s.key) && i < |u| && Used(u[i])
    requires s.key == u[i].key && u[i].generation <= s.generation && SlotOk(s)
    requires s.isValid ==> u[i].isValid || u[i].generation < s.generation
    ensures Tidy(u[i := s]) && Later(t, u[i := s], s.key)
  {}

  lemma LookupLater(t: Table, key: Bdf)
    requires Tidy(t) && key != UNINITIALIZED
    ensures var (u, r) := Lookup(t, key);
      && Tidy(u) && Later(t, u, key)
      && (r.Some? ==> At(u, key, r.value) && u[r.value].key == key)
  {
    LookupKeepsTidy(t, key);
    if Lookup(t, key).1.Some? {
      FoundIsAt(t, key);
    }
  }

  lemma SettleLater(t: Table, u: Table, conn: Connection, bdf: Bdf, outcome: EfiStatus)
    requires Tidy(u) && Later(t, u, bdf) && bdf != UNINITIALIZED
    ensures Tidy(Settle(u, conn, bdf, outcome).0) && Later(t, Settle(u, conn, bdf, outcome).0, bdf)
  {
    if outcome == Aborted {
      LookupLater(u, bdf);
      var (v, r) := Lookup(u, bdf);
      assert Later(t, v, bdf);
      if r.Some? {
        UpdateLater(t, v, r.value, v[r.value].(isValid := false));
      }
    }
  }

  lemma ConnectIsLater(w: World, op: Op, w': World)
    requires Known(w) && Next(w, op, w') && op.Connect?
    ensures Tidy(w'.table) && Later(w.table, w'.table, w.handles[op.h].bdf)
  {
    var h := op.h;
    LookupLater(w.table, w.handles[h].bdf);
    var (u, r) := Lookup(w.table, w.handles[h].bdf);
    if !w.handles[h].conn.connected && r.Some? {
      UpdateLater(w.table, u, r.value, op.rec.mid);
      if !IsError(op.rec.enumStatus) {
        SelectIsLater(w.table, u[r.value := op.rec.mid], r.value, w.handles[h], w'.table, w'.handles[h].conn, op.status, op.rec.seg);
      }
    }
  }

  lemma SelectIsLater(start: Table, t: Table, i: nat, h: Handle, t': Table, conn': Connection, status: EfiStatus, seg: seq<Exchange>)
    requires Tidy(t) && Later(start, t, h.bdf) && i < |t| && Used(t[i]) && t[i].key == h.bdf
    requires SelectPost(t, i, h.conn, h.guid, t', conn', status, seg)
    ensures Tidy(t') && Later(start, t', h.bdf)
  {
    if t' != t {
      assert t' == t[i := t'[i]];
      UpdateLater(start, t, i, t'[i]);
    }
  }

  lemma SendIsLater(w: World, op: Op, w': World)
    requires Known(w) && Next(w, op, w') && op.Send?
    ensures Tidy(w'.table) && Later(w.table, w'.table, w.handles[op.h].bdf)
  {
    var h := w.handles[op.h];
    LookupLater(w.table, h.bdf);
    if op.seg != [] {
      SettleLater(w.table, Lookup(w.table, h.bdf).0, h.conn, h.bdf, op.seg[|op.seg| - 1].outcome);
    }
  }

  lemma ReceiveIsLater(w: World, op: Op, w': World)
    requires Known(w) && Next(w, op, w') && op.Receive?
    ensures Tidy(w'.table) && Later(w.table, w'.table, w.handles[op.h].bdf)
  {
    var h := w.handles[op.h];
    if op.seg != [] {
      SettleLater(w.table, w.table, h.conn, h.bdf, op.seg[|op.seg| - 1].outcome);
    }
  }

  lemma ReleaseIsLater(t: Table, bdf: Bdf, id: Byte)
    requires Tidy(t) && bdf != UNINITIALIZED
    ensures Tidy(Release(t, bdf, id)) && Later(t, Release(t, bdf, id), bdf)
  {
    LookupLater(t, bdf);
    var (u, r) := Lookup(t, bdf);
    if r.Some? {
      UpdateLater(t, u, r.value, u[r.value].(hostIds := u[r.value].hostIds[id := false]));
    }
  }

  lemma UninitializeIsLater(t: Table, conn: Connection, bdf: Bdf, t': Table, conn': Connection, status: EfiStatus, seg: seq<Exchange>)
    requires Tidy(t) && bdf != UNINITIALIZED && UninitializePost(t, conn, bdf, t', conn', status, seg)
    ensures Tidy(t') && Later(t, t', bdf)
  {
    var v := Release(t, bdf, conn.hostClientId);
    ReleaseIsLater(t, bdf, conn.hostClientId);
    if t' != v {
      SettleLater(t, v, conn, bdf, seg[|seg| - 1].outcome);
    }
  }

  lemma CloseIsLater(w: World, op: Op, w': World)
    requires Known(w) && Next(w, op, w') && op.Close?
    ensures Tidy(w'.table) && Later(w.table, w'.table, w.handles[op.h].bdf)
  {
    var h := w.handles[op.h];
    var conn' :| UninitializePost(w.table, h.conn, h.bdf, w'.table, conn', op.status, op.seg);
    UninitializeIsLater(w.table, h.conn, h.bdf, w'.table, conn', op.status, op.seg);
  }

  function DeviceOf(w: World, op: Op): Bdf {
    if op.Open? then op.bdf else if op.h in w.handles then w.handles[op.h].bdf else UNINITIALIZED
  }

  /** Every step keeps devices in their slots, lets generations only grow, and leaves all other devices alone. */
  lemma StepIsLater(w: World, op: Op, w': World)
    requires Known(w) && Next(w, op, w')
    ensures Known(w') && Later(w.table, w'.table, DeviceOf(w, op))
  {
    match op
    case Open(_, _, _) =>
    case Connect(_, _, _) => ConnectIsLater(w, op, w');
    case Send(_, _, _, _, _) => SendIsLater(w, op, w');
    case Receive(_, _, _, _, _, _, _) => ReceiveIsLater(w, op, w');
    case Close(_, _, _) => CloseIsLater(w, op, w');
  }

  /** When a send puts anything on the wire: exactly for a message that fits, on a connected handle of the current
      generation of a valid device. */
  lemma SendGate(w: World, op: Op, w': World)
    requires Known(w) && Next(w, op, w') && op.Send?
    ensures var conn, r := w.handles[op.h].conn, IndexFrom(Keys(w.table), w.handles[op.h].bdf, 0);
      op.seg != [] <==>
        && op.valid && |op.bytes| <= conn.properties.maxMessageLength && conn.connected
        && r < |w.table| && w.table[r].isValid && conn.generation == w.table[r].generation
  {
    LookupLater(w.table, w.handles[op.h].bdf);
  }

  /** When a receive takes anything off the wire: exactly into room that fits, on a connected handle. The device may be
      invalid and in another generation. */
  lemma ReceiveGate(w: World, op: Op, w': World)
    requires Next(w, op, w') && op.Receive?
    ensures var conn := w.handles[op.h].conn;
      op.seg != [] <==> op.valid && op.size <= conn.properties.maxMessageLength && conn.connected
  {}

  /** Handle `h` carries an older generation than its device, which is in slot `i`. */
  predicate Behind(w: World, h: nat, i: nat) {
    && h in w.handles && i < |w.table| && w.table[i].key == w.handles[h].bdf
    && w.handles[h].conn.generation < w.table[i].generation
  }

  /** It does, or its device is invalid in the generation it carries. */
  predicate Mute(w: World, h: nat, i: nat) {
    && h in w.handles && i < |w.table| && w.table[i].key == w.handles[h].bdf
    && w.handles[h].conn.generation <= w.table[i].generation
    && (w.handles[h].conn.generation == w.table[i].generation ==> !w.table[i].isValid)
  }

  predicate Touches(op: Op, h: nat) {
    op.h == h && (op.Connect? || op.Close? || op.Open?)
  }

  /** Between `n` and `m` of a run, a handle that is not reconnected keeps its generation, and its device its slot; so what
      mutes it lasts. */
  lemma {:induction false} StaysMute(run: Run, n: nat, m: nat, h: nat, i: nat)
    requires IsRun(run) && n <= m <= |run.ops| && Known(run.worlds[n])
    requires forall k :: n <= k < m ==> !Touches(run.ops[k], h)
    requires Mute(run.worlds[n], h, i)
    ensures Known(run.worlds[m]) && Mute(run.worlds[m], h, i)
    ensures Behind(run.worlds[n], h, i) ==> Behind(run.worlds[m], h, i)
    decreases m
  {
    if n == m {
    } else {
      StaysMute(run, n, m - 1, h, i);
      assert StepHolds(run, m - 1) && !Touches(run.ops[m - 1], h);
      MuteStep(run.worlds[m - 1], run.ops[m - 1], run.worlds[m], h, i);
    }
  }

  lemma MuteStep(w: World, op: Op, w': World, h: nat, i: nat)
    requires Known(w) && Next(w, op, w') && !Touches(op, h) && Mute(w, h, i)
    ensures Known(w') && Mute(w', h, i) && (Behind(w, h, i) ==> Behind(w', h, i))
  {
    StepIsLater(w, op, w');
    StaleStep(w, op, w', h);
  }

  lemma StaleStep(w: World, op: Op, w': World, h: nat)
    requires Known(w) && Next(w, op, w') && h in w.handles && !Touches(op, h)
    ensures h in w'.handles && w'.handles[h].bdf == w.handles[h].bdf
    ensures w'.handles[h].conn.generation == w.handles[h].conn.generation
  {}

  lemma {:induction false} AllKnown(run: Run, n: nat)
    requires IsRun(run) && run.worlds[0] == START && n <= |run.ops|
    ensures Known(run.worlds[n])
  {
    if n == 0 {
    } else {
      AllKnown(run, n - 1);
      assert StepHolds(run, n - 1);
      StepIsLater(run.worlds[n - 1], run.ops[n - 1], run.worlds[n]);
    }
  }

  lemma AtIndex(t: Table, i: nat)
    requires Tidy(t) && i < |t| && Used(t[i])
    ensures IndexFrom(Keys(t), t[i].key, 0) == i
  {
    var r := IndexFrom(Keys(t), t[i].key, 0);
    assert Keys(t)[i] == t[i].key && Keys(t)[r] == t[r].key;
  }

  lemma MuteSendsNothing(w: World, op: Op, w': World, i: nat)
    requires Known(w) && Next(w, op, w') && op.Send? && Mute(w, op.h, i)
    ensures op.seg == []
  {
    AtIndex(w.table, i);
    SendGate(w, op, w');
  }

  /** In every run, stale releases or not: a handle whose device is invalid, or has moved on to a new generation, puts nothing
      on the wire until it connects again. */
  lemma MuteHandleNeverSends(run: Run, n: nat, m: nat, h: nat, i: nat)
    requires IsRun(run) && run.worlds[0] == START && n <= m < |run.ops|
    requires forall k :: n <= k < m ==> !Touches(run.ops[k], h)
    requires Mute(run.worlds[n], h, i)
    requires run.ops[m].Send? && run.ops[m].h == h
    ensures run.ops[m].seg == []
  {
    AllKnown(run, n);
    StaysMute(run, n, m, h, i);
    assert StepHolds(run, m);
    MuteSendsNothing(run.worlds[m], run.ops[m], run.worlds[m + 1], i);
  }

  lemma StaleHandleNeverSends(run: Run, n: nat, m: nat, h: nat, i: nat)
    requires IsRun(run) && run.worlds[0] == START && n <= m < |run.ops|
    requires forall k :: n <= k < m ==> !Touches(run.ops[k], h)
    requires Behind(run.worlds[n], h, i)
    requires run.ops[m].Send? && run.ops[m].h == h
    ensures run.ops[m].seg == []
  {
    MuteHandleNeverSends(run, n, m, h, i);
  }

  /** Connect `op` makes a connection. */
  predicate Connects(w: World, op: Op, w': World) {
    && op.Connect? && op.h in w.handles && op.h in w'.handles
    && !w.handles[op.h].conn.connected && w'.handles[op.h].conn.connected
  }

  /** Where a successful connect leaves the handle: at its device, in the current generation, and the device is valid exactly
      when no properties request of its enumeration was answered with another command. */
  lemma ConnectionIsCurrent(w: World, op: Op, w': World) returns (i: nat)
    requires Known(w) && Next(w, op, w') && Connects(w, op, w')
    ensures i < |w'.table| && w'.table[i].key == w'.handles[op.h].bdf == w.handles[op.h].bdf
    ensures w'.handles[op.h].conn.generation == w'.table[i].generation
    ensures w'.table[i].isValid <==> !WrongProperties(op.rec.enumSeg)
  {
    var bdf := w.handles[op.h].bdf;
    LookupLater(w.table, bdf);
    var (u, r) := Lookup(w.table, bdf);
    i := r.value;
    ValidUnlessWrongReply(u[i], op.rec.mid, op.rec.enumStatus, op.rec.bitmap, op.rec.replies, op.rec.enumSeg);
    assert u[i := op.rec.mid][i] == op.rec.mid;
  }

  /** Whether a connection can be used: the first send after the connect, in range, puts something on the wire if and only if
      no properties request of the enumeration was answered with another command. Otherwise it ends the connection. */
  lemma FirstSendGate(w: World, c: Op, w': World, op: Op, w'': World)
    requires Known(w) && Next(w, c, w') && Connects(w, c, w')
    requires Next(w', op, w'') && op.Send? && op.h == c.h
    requires op.valid && |op.bytes| <= w'.handles[op.h].conn.properties.maxMessageLength
    ensures op.seg != [] <==> !WrongProperties(c.rec.enumSeg)
    ensures WrongProperties(c.rec.enumSeg) ==> op.status == MediaChanged && !w''.handles[op.h].conn.connected
  {
    var i := ConnectionIsCurrent(w, c, w');
    StepIsLater(w, c, w');
    AtIndex(w'.table, i);
    SendGate(w', op, w'');
  }

  lemma IncompleteIsMute(run: Run, n: nat) returns (i: nat)
    requires IsRun(run) && n < |run.ops| && Known(run.worlds[n])
    requires Connects(run.worlds[n], run.ops[n], run.worlds[n + 1]) && WrongProperties(run.ops[n].rec.enumSeg)
    ensures Mute(run.worlds[n + 1], run.ops[n].h, i)
  {
    assert StepHolds(run, n);
    i := ConnectionIsCurrent(run.worlds[n], run.ops[n], run.worlds[n + 1]);
  }

  /** And no later send does either, in any run, until the handle connects again. */
  lemma IncompleteConnectSilences(run: Run, n: nat, m: nat)
    requires IsRun(run) && run.worlds[0] == START && n < m < |run.ops|
    requires Connects(run.worlds[n], run.ops[n], run.worlds[n + 1]) && WrongProperties(run.ops[n].rec.enumSeg)
    requires forall k :: n < k < m ==> !Touches(run.ops[k], run.ops[n].h)
    requires run.ops[m].Send? && run.ops[m].h == run.ops[n].h
    ensures run.ops[m].seg == []
  {
    AllKnown(run, n);
    var i := IncompleteIsMute(run, n);
    MuteHandleNeverSends(run, n + 1, m, run.ops[n].h, i);
  }

  /** No handle is ahead of its device; one whose device has no slot yet has never connected. */
  predicate NotAhead(t: Table, h: Handle) {
    var r := IndexFrom(Keys(t), h.bdf, 0);
    h.conn.generation <= if r < |t| then t[r].generation else 0
  }

  ghost predicate NoneAhead(w: World) {
    Known(w) && forall h :: h in w.handles ==> NotAhead(w.table, w.handles[h])
  }

  lemma LaterKeepsNotAhead(t: Table, t': Table, bdf: Bdf, h: Handle)
    requires Tidy(t) && Tidy(t') && Later(t, t', bdf) && h.bdf != UNINITIALIZED && NotAhead(t, h)
    ensures NotAhead(t', h)
  {
    var r, r' := IndexFrom(Keys(t), h.bdf, 0), IndexFrom(Keys(t'), h.bdf, 0);
    if r < |t| {
      assert Keys(t)[r] == t[r].key;
      assert t'[r].key == h.bdf && Keys(t')[r] == h.bdf;
      assert Keys(t')[r'] == t'[r'].key;
      assert r' == r;
    }
  }

  /** What a connect leaves in the handle's own record is the generation it had, or that of its device. */
  lemma ConnectTakesCurrent(w: World, op: Op, w': World)
    requires Known(w) && Next(w, op, w') && op.Connect? && NotAhead(w.table, w.handles[op.h])
    ensures NotAhead(w'.table, w'.handles[op.h])
  {
    var h := op.h;
    StepIsLater(w, op, w');
    LaterKeepsNotAhead(w.table, w'.table, w.handles[h].bdf, w.handles[h]);
    if w'.handles[h].conn.generation != w.handles[h].conn.generation {
      var i := ConnectionIsCurrent(w, op, w');
      AtIndex(w'.table, i);
    }
  }

  /** Where the record of handle `k` comes from in one step. */
  lemma HandleAfter(w: World, op: Op, w': World, k: nat)
    requires Known(w) && Next(w, op, w') && k in w'.handles
    ensures || (op.Connect? && op.h == k)
            || w'.handles[k].conn.generation == 0
            || (k in w.handles && w'.handles[k].bdf == w.handles[k].bdf
                && w'.handles[k].conn.generation == w.handles[k].conn.generation)
  {
    if !Touches(op, k) && k in w.handles {
      StaleStep(w, op, w', k);
    }
  }

  lemma StepKeepsNotAhead(w: World, op: Op, w': World, k: nat)
    requires NoneAhead(w) && Next(w, op, w') && k in w'.handles
    requires Known(w') && Later(w.table, w'.table, DeviceOf(w, op))
    ensures NotAhead(w'.table, w'.handles[k])
  {
    HandleAfter(w, op, w', k);
    if op.Connect? && k == op.h {
      ConnectTakesCurrent(w, op, w');
    } else if w'.handles[k].conn.generation != 0 {
      LaterKeepsNotAhead(w.table, w'.table, DeviceOf(w, op), w.handles[k]);
    }
  }

  lemma StepKeepsNoneAhead(w: World, op: Op, w': World)
    requires NoneAhead(w) && Next(w, op, w')
    ensures NoneAhead(w')
  {
    StepIsLater(w, op, w');
    forall k | k in w'.handles
      ensures NotAhead(w'.table, w'.handles[k])
    {
      StepKeepsNotAhead(w, op, w', k);
    }
  }

  lemma StartNoneAhead()
    ensures NoneAhead(START)
  {}

  lemma {:induction false} RunKeepsNoneAhead(run: Run, n: nat)
    requires IsRun(run) && run.worlds[0] == START && n <= |run.ops|
    ensures NoneAhead(run.worlds[n])
  {
    if n == 0 {
      StartNoneAhead();
    } else {
      RunKeepsNoneAhead(run, n - 1);
      assert StepHolds(run, n - 1);
      StepKeepsNoneAhead(run.worlds[n - 1], run.ops[n - 1], run.worlds[n]);
    }
  }

  lemma RaisedMeansBehind(t: Table, t': Table, bdf: Bdf, h: Handle, i: nat)
    requires Tidy(t) && Later(t, t', bdf) && NotAhead(t, h)
    requires i < |t| && Used(t[i]) && t[i].key == h.bdf && t[i].generation < t'[i].generation
    ensures t'[i].key == h.bdf && h.conn.generation < t'[i].generation
  {
    var r := IndexFrom(Keys(t), h.bdf, 0);
    assert Keys(t)[i] == t[i].key && (r < |t| ==> Keys(t)[r] == t[r].key);
    assert r == i;
  }

  lemma EnumerationOutdates(w: World, op: Op, w': World, h: nat, i: nat)
    requires NoneAhead(w) && Next(w, op, w') && op.h != h && h in w.handles
    requires i < |w.table| && i < |w'.table| && Used(w.table[i]) && w.table[i].key == w.handles[h].bdf
    requires w.table[i].generation < w'.table[i].generation
    ensures h in w'.handles && w'.table[i].key == w'.handles[h].bdf
    ensures w'.handles[h].conn.generation < w'.table[i].generation
  {
    StepIsLater(w, op, w');
    RaisedMeansBehind(w.table, w'.table, DeviceOf(w, op), w.handles[h], i);
    StaleStep(w, op, w', h);
  }

  /** Step `n` of a run enumerates the device in slot `i` anew, on behalf of another handle than `h`. */
  ghost predicate Reenumerates(run: Run, n: nat, h: nat, i: nat)
    requires IsRun(run) && n < |run.ops|
  {
    var w, w' := run.worlds[n], run.worlds[n + 1];
    && run.ops[n].h != h && h in w.handles
    && i < |w.table| && i < |w'.table| && Used(w.table[i]) && w.table[i].key == w.handles[h].bdf
    && w.table[i].generation < w'.table[i].generation
  }

  lemma ReenumerationOutdates(run: Run, n: nat, h: nat, i: nat)
    requires IsRun(run) && run.worlds[0] == START && n < |run.ops| && Reenumerates(run, n, h, i)
    ensures Behind(run.worlds[n + 1], h, i)
  {
    RunKeepsNoneAhead(run, n);
    assert StepHolds(run, n);
    EnumerationOutdates(run.worlds[n], run.ops[n], run.worlds[n + 1], h, i);
  }

  /** Whenever a step `n` enumerates a device anew, every other handle of that device is silenced: it puts nothing on the
      wire at any later step until it connects again. This holds in every run. */
  lemma ReenumerationSilences(run: Run, n: nat, m: nat, h: nat, i: nat)
    requires IsRun(run) && run.worlds[0] == START && n < m < |run.ops| && Reenumerates(run, n, h, i)
    requires forall k :: n < k < m ==> !Touches(run.ops[k], h)
    requires run.ops[m].Send? && run.ops[m].h == h
    ensures run.ops[m].seg == []
  {
    ReenumerationOutdates(run, n, h, i);
    StaleHandleNeverSends(run, n + 1, m, h, i);
  }
}
