/** A run in which a handle outlives the generation it connected in, and what it can still do: receive, and on closing take
    away the id of another handle (src/uefi/heci_efi.c:288-293, 852-857). */
module HeciStale {
  import opened HeciRegisters
  import opened HeciTable
  import opened HeciWire
  import opened HeciSession
  import opened HeciRuns
  import opened HeciFirmware

  // Handle 0 connects in generation 1 and takes no part in what follows. Handle 1 connects too, loses the link in a send
  // and connects again, which enumerates the device anew. In generation 2 it is given the id that handle 0 still carries.
  // The client has a fixed address.

  function Old(key: Bdf, guid: Guid): Handle {
    Linked(key, guid, 1, 1, 1)
  }

  function Renewed(key: Bdf, guid: Guid): Handle {
    Linked(key, guid, 1, 2, 1)
  }

  function Lost(key: Bdf, guid: Guid): Handle {
    Handle(key, guid, Link(guid, 1, 1, 2).(connected := false))
  }

  function StaleTable(key: Bdf, guid: Guid, i: nat): Table {
    if i <= 2 then InitialTable()
    else if i == 3 then Tab(Listed(key, guid, 1, 1, OneId()))
    else if i == 4 then Tab(Listed(key, guid, 1, 1, TwoIds()))
    else if i == 5 then Tab(Listed(key, guid, 1, 1, TwoIds()).(isValid := false))
    else if i <= 7 then Tab(Listed(key, guid, 1, 2, OneId()))
    else Tab(Listed(key, guid, 1, 2, NoIds()))
  }

  function StaleHandles(key: Bdf, guid: Guid, i: nat): map<nat, Handle> {
    if i == 0 then map[]
    else if i == 1 then map[0 := Bare(key, guid)]
    else if i == 2 then Two(Bare(key, guid), Bare(key, guid))
    else if i == 3 then Two(Old(key, guid), Bare(key, guid))
    else if i == 4 then Two(Old(key, guid), Linked(key, guid, 1, 1, 2))
    else if i == 5 then Two(Old(key, guid), Lost(key, guid))
    else if i <= 7 then Two(Old(key, guid), Renewed(key, guid))
    else map[1 := Renewed(key, guid)]
  }

  function StaleWorld(key: Bdf, guid: Guid, i: nat): World {
    World(StaleTable(key, guid, i), StaleHandles(key, guid, i))
  }

  function StaleOp(key: Bdf, guid: Guid, i: nat): Op {
    if i <= 1 then Op.Open(i, key, guid)
    else if i == 2 then Op.Connect(0, Success, Afresh(key, guid, 1, 1))
    else if i == 3 then Op.Connect(1, Success, Joining(key, guid, 1))
    else if i == 4 then Op.Send(1, true, [7], MediaChanged, [Sent(0, ADDRESS, [7], Aborted)])
    else if i == 5 then Op.Connect(1, Success, Afresh(key, guid, 1, 2))
    else if i == 6 then Op.Receive(0, true, 1, Success, 1, [7], [Received(1, 1, [7], [0], Success)])
    else Op.Close(0, Success, [])
  }

  function StaleRun(key: Bdf, guid: Guid): Run {
    Run(seq(9, i requires 0 <= i => StaleWorld(key, guid, i)), seq(8, i requires 0 <= i => StaleOp(key, guid, i)))
  }

  ghost predicate StaleStep(key: Bdf, guid: Guid, i: nat) {
    Next(StaleWorld(key, guid, i), StaleOp(key, guid, i), StaleWorld(key, guid, i + 1))
  }

  lemma LosesLink(key: Bdf, guid: Guid)
    requires key != UNINITIALIZED
    ensures StaleStep(key, guid, 4)
  {
    var s := Listed(key, guid, 1, 1, TwoIds());
    FirstIds();
    TabLookup(s);
    assert Tab(s)[0 := s.(isValid := false)] == Tab(s.(isValid := false));
    TwoUpdates(Old(key, guid), Linked(key, guid, 1, 1, 2), Lost(key, guid));
  }

  lemma Reconnects(key: Bdf, guid: Guid)
    requires key != UNINITIALIZED && guid != ZERO_GUID
    ensures StaleStep(key, guid, 5)
  {
    var s := Listed(key, guid, 1, 1, TwoIds()).(isValid := false);
    FirstIds();
    TabLookup(s);
    TwoUpdates(Old(key, guid), Lost(key, guid), Renewed(key, guid));
    ConnectsAfresh(StaleWorld(key, guid, 5), 1, s, guid, 1);
  }

  lemma ReceivesStale(key: Bdf, guid: Guid)
    requires key != UNINITIALIZED
    ensures StaleStep(key, guid, 6)
  {
    FirstIds();
    TabLookup(Listed(key, guid, 1, 2, OneId()));
    TwoUpdates(Old(key, guid), Renewed(key, guid), Old(key, guid));
  }

  lemma ReleasesFirstId(key: Bdf, guid: Guid)
    requires key != UNINITIALIZED
    ensures TableOk(StaleTable(key, guid, 7))
    ensures Release(StaleTable(key, guid, 7), key, 1) == StaleTable(key, guid, 8)
  {
    var s := Listed(key, guid, 1, 2, OneId());
    FirstIds();
    TabLookup(s);
    assert OneId()[1 := false] == NoIds();
    assert Tab(s)[0 := s.(hostIds := NoIds())] == StaleTable(key, guid, 8);
  }

  lemma ClosesStale(key: Bdf, guid: Guid)
    requires key != UNINITIALIZED
    ensures StaleStep(key, guid, 7)
  {
    ReleasesFirstId(key, guid);
    var w, op, w' := StaleWorld(key, guid, 7), StaleOp(key, guid, 7), StaleWorld(key, guid, 8);
    TwoUpdates(Old(key, guid), Renewed(key, guid), Old(key, guid));
    assert UninitializePost(w.table, w.handles[0].conn, w.handles[0].bdf, w'.table,
                            Link(guid, 1, 1, 1).(connected := false, hostClientId := 0), op.status, op.seg);
  }

  lemma StaleStepIs(key: Bdf, guid: Guid, i: nat)
    requires key != UNINITIALIZED && guid != ZERO_GUID && i < 8
    ensures StaleStep(key, guid, i)
  {
    if i <= 1 {
      OneOpens(key, guid);
      AnotherOpens(key, guid);
    } else if i == 2 {
      FirstConnects(key, guid, 1);
    } else if i == 3 {
      SecondConnects(key, guid, 1);
    } else if i == 4 {
      LosesLink(key, guid);
    } else if i == 5 {
      Reconnects(key, guid);
    } else if i == 6 {
      ReceivesStale(key, guid);
    } else {
      ClosesStale(key, guid);
    }
  }

  lemma StaleRunIsRun(key: Bdf, guid: Guid)
    requires key != UNINITIALIZED && guid != ZERO_GUID
    ensures IsRun(StaleRun(key, guid)) && StaleRun(key, guid).worlds[0] == START
  {
    forall i | 0 <= i < 8
      ensures StaleStep(key, guid, i)
    {
      StaleStepIs(key, guid, i);
    }
    StepsMakeRun(key, guid);
  }

  lemma StepsMakeRun(key: Bdf, guid: Guid)
    requires forall i :: 0 <= i < 8 ==> StaleStep(key, guid, i)
    ensures IsRun(StaleRun(key, guid)) && StaleRun(key, guid).worlds[0] == START
  {
    var r := StaleRun(key, guid);
    forall i | 0 <= i < |r.ops|
      ensures StepHolds(r, i)
    {
      assert StaleStep(key, guid, i);
    }
  }

  /** Generation safety does not extend to receiving: in this run a handle behind its device takes a message off the link,
      in the same state in which it could not send. */
  lemma StaleHandleReceives(key: Bdf, guid: Guid)
    requires key != UNINITIALIZED && guid != ZERO_GUID
    ensures var r := StaleRun(key, guid);
      && IsRun(r) && r.worlds[0] == START
      && Behind(r.worlds[6], 0, 0) && r.ops[6].Receive? && r.ops[6].h == 0
      && r.ops[6].seg != [] && r.ops[6].status == Success
  {
    StaleRunIsRun(key, guid);
  }

  /** And a stale release can steal: in the same run closing that handle frees the id that handle 1 holds, which breaks the
      invariant that all the steps before it kept. */
  lemma StaleReleaseCanSteal(key: Bdf, guid: Guid)
    requires key != UNINITIALIZED && guid != ZERO_GUID
    ensures var r := StaleRun(key, guid);
      && IsRun(r) && r.worlds[0] == START
      && Inv(r.worlds[7]) && r.ops[7].Close? && StealsId(r.worlds[7], r.ops[7].h) && !Inv(r.worlds[8])
  {
    StaleRunIsRun(key, guid);
    BeforeClose(StaleRun(key, guid));
    CloseSteals(key, guid);
  }

  lemma CloseSteals(key: Bdf, guid: Guid)
    requires key != UNINITIALIZED && guid != ZERO_GUID
    ensures TableOk(StaleTable(key, guid, 7)) && StealsId(StaleWorld(key, guid, 7), 0) && !Inv(StaleWorld(key, guid, 8))
  {
    FirstIds();
    TabLookup(Listed(key, guid, 1, 2, OneId()));
    var w := StaleWorld(key, guid, 8);
    assert w.table[0].key == key && w.table[0].isValid;
    assert HeldBy(w.table[0], w.handles, 1, 1) && !w.table[0].hostIds[1];
  }

  /** The steps of a run up to its only close keep the invariant. */
  lemma BeforeClose(r: Run)
    requires IsRun(r) && r.worlds[0] == START && |r.ops| == 8 && (forall i :: 0 <= i < 7 ==> !r.ops[i].Close?)
    ensures Inv(r.worlds[7])
  {
    var before := Run(r.worlds[..8], r.ops[..7]);
    forall i | 0 <= i < |before.ops|
      ensures StepHolds(before, i) && StealsNothing(before, i)
    {
      assert StepHolds(r, i);
    }
    RunKeepsInv(before, 7);
  }
}
