/** The table and all handles together, driven by an arbitrary caller: every run of the imperative session layer is a
    run of HeciRuns, and so keeps its invariant. */
module HeciSystem {
  import opened HeciRegisters
  import opened HeciPackets
  import opened HeciDevice
  import opened HeciTable
  import opened HeciSession
  import opened HeciWire
  import opened HeciRuns

  class System {
    const reg: Registry
    var impls: map<nat, Impl>

    constructor ()
      ensures Valid() && View() == START && fresh(reg)
    {
      reg := new Registry();
      impls := map[];
    }

    ghost predicate Valid()
      reads this, reg, impls.Values, set h | h in impls :: impls[h].dev
    {
      && TableOk(reg.slots)
      && (forall h :: h in impls ==> MakesProgress(impls[h].dev.hostDepth) && impls[h].dev.InStep())
      && (forall h, k :: h in impls && k in impls && h != k ==> impls[h] != impls[k])
    }

    ghost function View(): World
      reads this, reg, impls.Values
    {
      World(reg.slots, map h | h in impls :: Handle(impls[h].bdf, impls[h].guid, impls[h].conn))
    }

    /** When one handle's connection changes and nothing else of any handle, the view changes for that handle alone. */
    twostate lemma OnlyOne(h: nat)
      requires impls == old(impls) && h in impls
      requires forall k :: k in impls && k != h ==> impls[k].conn == old(impls[k].conn)
      ensures Only(old(View()), h, View())
      ensures old(View()).handles[h] == Handle(impls[h].bdf, impls[h].guid, old(impls[h].conn))
      ensures View().handles[h] == Handle(impls[h].bdf, impls[h].guid, impls[h].conn)
    {
      var w, w' := old(View()).handles, View().handles;
      assert w' == w[h := w[h].(conn := w'[h].conn)];
    }

    twostate lemma StillValid(h: nat)
      requires old(Valid()) && impls == old(impls) && h in impls && TableOk(reg.slots) && impls[h].dev.InStep()
      requires forall k :: k in impls && impls[k].dev != impls[h].dev ==> unchanged(impls[k].dev)
      ensures Valid()
    {}

    method Open(h: nat, guid: Guid, bdf: Bdf, dev: Device)
      requires Valid() && h !in impls && bdf != UNINITIALIZED && MakesProgress(dev.hostDepth) && dev.InStep()
      modifies this
      ensures Valid() && Next(old(View()), Op.Open(h, bdf, guid), View())
    {
      ghost var before := View();
      OpenIsNext(before, h, bdf, guid);
      var impl := new Impl(guid, bdf, dev);
      assert View() == before;
      Enrol(h, impl);
    }

    method Enrol(h: nat, impl: Impl)
      requires Valid() && h !in impls && (forall k :: k in impls ==> impls[k] != impl)
      requires MakesProgress(impl.dev.hostDepth) && impl.dev.InStep()
      modifies `impls
      ensures Valid() && impls == old(impls)[h := impl]
      ensures View() == World(old(View()).table, old(View()).handles[h := Handle(impl.bdf, impl.guid, impl.conn)])
    {
      ghost var before := View().handles;
      impls := impls[h := impl];
      OneMore(before, h, Handle(impl.bdf, impl.guid, impl.conn), View().handles);
    }

    method Connect(h: nat) returns (ghost op: Op)
      requires Valid() && h in impls
      modifies reg, impls[h], impls[h].dev
      ensures Valid() && impls == old(impls) && op.Connect? && op.h == h && Next(old(View()), op, View())
      ensures impls[h].dev.log == old(impls[h].dev.log) + op.rec.enumSeg + op.rec.seg
    {
      var status;
      ghost var rec;
      status, rec := impls[h].ConnectClient(reg);
      op := Op.Connect(h, status, rec);
      StillValid(h);
      OnlyOne(h);
      ConnectIsNext(old(View()), h, View(), status, rec);
    }

    method Send(h: nat, buffer: array?<Byte>, length: Word) returns (ghost op: Op)
      requires Valid() && h in impls && (buffer != null ==> length <= buffer.Length)
      modifies reg, impls[h], impls[h].dev
      ensures Valid() && impls == old(impls) && op.Send? && op.h == h && Next(old(View()), op, View())
      ensures impls[h].dev.log == old(impls[h].dev.log) + op.seg
    {
      var status, written;
      ghost var seg;
      status, written, seg := impls[h].SendMessage(reg, buffer, length);
      ghost var valid := buffer != null && length > 0;
      ghost var bytes := if valid then buffer[..length] else [];
      op := Op.Send(h, valid, bytes, status, seg);
      StillValid(h);
      OnlyOne(h);
      SendIsNext(old(View()), h, View(), valid, bytes, status, seg);
    }

    method Receive(h: nat, buffer: array?<Byte>, size: Word) returns (ghost op: Op)
      requires Valid() && h in impls && (buffer != null ==> size <= buffer.Length)
      modifies reg, impls[h], impls[h].dev, if buffer == null then {} else {buffer}
      ensures Valid() && impls == old(impls) && op.Receive? && op.h == h && Next(old(View()), op, View())
      ensures impls[h].dev.log == old(impls[h].dev.log) + op.seg
    {
      var status, bytesRead;
      ghost var content, seg;
      status, bytesRead, content, seg := impls[h].ReceiveMessage(reg, buffer, size);
      ghost var valid := buffer != null && size > 0;
      op := Op.Receive(h, valid, size, status, bytesRead, content, seg);
      StillValid(h);
      OnlyOne(h);
      ReceiveIsNext(old(View()), h, View(), valid, size, status, bytesRead, content, seg);
    }

    method Close(h: nat) returns (ghost op: Op)
      requires Valid() && h in impls
      modifies this, reg, impls[h], impls[h].dev
      ensures Valid() && op.Close? && op.h == h && Next(old(View()), op, View())
      ensures old(impls)[h].dev.log == old(impls[h].dev.log) + op.seg
    {
      var impl := impls[h];
      var status;
      ghost var seg;
      status, seg := impl.Uninitialize(reg);
      op := Op.Close(h, status, seg);
      StillValid(h);
      OnlyOne(h);
      ghost var mid, conn := View(), impl.conn;
      Forget(h);
      CloseIsNext(old(View()), h, mid, View(), conn, status, seg);
    }

    /** The end of a handle's life. */
    method Forget(h: nat)
      requires Valid() && h in impls
      modifies `impls
      ensures Valid() && impls == old(impls) - {h}
      ensures View() == World(old(View()).table, old(View()).handles - {h})
    {
      ghost var before := View().handles;
      impls := impls - {h};
      OneLess(before, h, View().handles);
    }
  }

  lemma OneMore(before: map<nat, Handle>, h: nat, added: Handle, after: map<nat, Handle>)
    requires forall k :: k in after <==> k in before || k == h
    requires h !in before && after[h] == added && forall k :: k in before ==> after[k] == before[k]
    ensures after == before[h := added]
  {}

  lemma OneLess(before: map<nat, Handle>, h: nat, after: map<nat, Handle>)
    requires forall k :: k in after <==> k in before && k != h
    requires forall k :: k in after ==> after[k] == before[k]
    ensures after == before - {h}
  {}

  // what the calls promise, as steps of a run

  lemma OpenIsNext(w: World, h: nat, bdf: Bdf, guid: Guid)
    requires TableOk(w.table) && h !in w.handles && bdf != UNINITIALIZED
    ensures Next(w, Op.Open(h, bdf, guid), World(w.table, w.handles[h := Handle(bdf, guid, NO_CONNECTION)]))
  {}

  lemma ConnectIsNext(w: World, h: nat, w': World, status: EfiStatus, rec: ConnectRecord)
    requires TableOk(w.table) && Only(w, h, w')
    requires ConnectPost(w.table, w.handles[h].conn, w.handles[h].bdf, w.handles[h].guid, w'.table, w'.handles[h].conn, status, rec)
    ensures Next(w, Op.Connect(h, status, rec), w')
  {}

  lemma SendIsNext(w: World, h: nat, w': World, valid: bool, bytes: seq<Byte>, status: EfiStatus, seg: seq<Exchange>)
    requires TableOk(w.table) && Only(w, h, w')
    requires SendPost(w.table, w.handles[h].conn, w.handles[h].bdf, valid, bytes, w'.table, w'.handles[h].conn, status, seg)
    ensures Next(w, Op.Send(h, valid, bytes, status, seg), w')
  {}

  lemma ReceiveIsNext(w: World, h: nat, w': World, valid: bool, size: Word, status: EfiStatus, bytesRead: Word, content: seq<Byte>, seg: seq<Exchange>)
    requires TableOk(w.table) && Only(w, h, w')
    requires ReceivePost(w.table, w.handles[h].conn, w.handles[h].bdf, valid, size, w'.table, w'.handles[h].conn, status, bytesRead, content, seg)
    ensures Next(w, Op.Receive(h, valid, size, status, bytesRead, content, seg), w')
  {}

  lemma CloseIsNext(w: World, h: nat, mid: World, w': World, conn': Connection, status: EfiStatus, seg: seq<Exchange>)
    requires TableOk(w.table) && Only(w, h, mid) && w' == World(mid.table, mid.handles - {h})
    requires UninitializePost(w.table, w.handles[h].conn, w.handles[h].bdf, mid.table, conn', status, seg)
    ensures Next(w, Op.Close(h, status, seg), w')
  {
    assert w'.handles == w.handles - {h};
  }
}
