/** What becomes of a conversation: every operation succeeds, and each receive is served the oldest message not yet answered,
    whoever sent it (src/uefi/heci_efi.c:680-737, 743-942). */
module Sharing {
  import opened HeciRegisters
  import opened HeciTable
  import opened HeciDevice
  import opened HeciDelivery
  import opened HeciSession
  import opened HeciRuns
  import opened FlowControl
  import opened Conversations

  // The steps of a conversation, at their places in the run.

  lemma ConnectAt(fw: Firmware, run: Run, hd: nat, x: Inbound) returns (i: nat)
    requires IsRun(run) && |run.ops| >= 1 && CanConnect(run.worlds[0], run.ops[0]) && run.ops[0].h == hd
    requires GoodInbound(fw, x) && SegAt(x, 0, run.ops[0].rec.seg)
    ensures run.ops[0].status == Success && |run.ops[0].rec.seg| == 3 && Drained(x, 3) && Live(run.worlds[1], hd, i)
    ensures FwAt(fw, x.log, 3).open == fw.open + {PairOf(run.worlds[1].handles[hd].conn)}
  {
    assert StepHolds(run, 0) && FwAt(fw, x.log, 0) == fw;
    i := ConnectLeavesNothing(fw, run.worlds[0], run.ops[0], run.worlds[1], x, 0);
  }

  lemma ConversationStarts(fw: Firmware, run: Run, hd: nat, x: Inbound) returns (i: nat)
    requires Conversation(fw, run, hd, x)
    ensures run.ops[0].status == Success && AtTurn(fw, run, hd, i, x, 1)
  {
    InPlace(fw, x, run.ops, 0);
    i := ConnectAt(fw, run, hd, x);
    NothingAsked(run.ops);
  }

  lemma SendAt(fw: Firmware, run: Run, hd: nat, i: nat, x: Inbound, t: nat, p: nat)
    requires IsRun(run) && TurnAt(fw, run, hd, t) && run.ops[t].Send?
    requires run.worlds[t] == run.worlds[1] && Live(run.worlds[1], hd, i)
    requires GoodInbound(fw, x) && SegAt(x, p, run.ops[t].seg)
    requires FwAt(fw, x.log, p).open == fw.open + {PairOf(run.worlds[1].handles[hd].conn)}
    ensures run.worlds[t + 1] == run.worlds[1] && run.ops[t].status == Success && |run.ops[t].seg| == 2
    ensures IsAnswer(x.queued[p + 1], IdOf(run, t)) && x.states[p + 2] == x.states[p] + x.queued[p + 1]
    ensures FwAt(fw, x.log, p + 2) == FwAt(fw, x.log, p)
  {
    PeerIsLive(fw, run.worlds[1], hd, run.ops[t].h, i);
    assert StepHolds(run, t);
    LiveSend(fw, run.worlds[t], run.ops[t], run.worlds[t + 1], i, x, p);
  }

  lemma ReceiveAt(fw: Firmware, run: Run, hd: nat, i: nat, x: Inbound, t: nat, p: nat, q: seq<Parcel>, rest: seq<Parcel>, sender: Byte)
    requires IsRun(run) && TurnAt(fw, run, hd, t) && run.ops[t].Receive?
    requires run.worlds[t] == run.worlds[1] && Live(run.worlds[1], hd, i)
    requires GoodInbound(fw, x) && SegAt(x, p, run.ops[t].seg) && x.states[p] == q + rest && IsAnswer(q, sender)
    ensures run.worlds[t + 1] == run.worlds[1] && run.ops[t].status == Success && |run.ops[t].seg| == 2
    ensures x.states[p + 2] == rest
    ensures Returns(MessageOf(ResponseOf(q)), run.ops[t].size, run.ops[t].bytesRead, run.ops[t].content)
    ensures Own(run.ops[t].seg, IdOf(run, t)) <==> sender == IdOf(run, t)
    ensures FwAt(fw, x.log, p + 2) == FwAt(fw, x.log, p)
  {
    PeerIsLive(fw, run.worlds[1], hd, run.ops[t].h, i);
    assert StepHolds(run, t);
    LiveReceive(fw, run.worlds[t], run.ops[t], run.worlds[t + 1], i, x, p, q, rest, sender);
  }

  /** A receive takes at least one message, so in a log where all goes well something was there. */
  lemma SomethingWaits(fw: Firmware, run: Run, hd: nat, i: nat, x: Inbound, t: nat, p: nat)
    requires IsRun(run) && TurnAt(fw, run, hd, t) && run.ops[t].Receive?
    requires run.worlds[t] == run.worlds[1] && Live(run.worlds[1], hd, i)
    requires GoodInbound(fw, x) && SegAt(x, p, run.ops[t].seg)
    ensures x.states[p] != []
  {
    PeerIsLive(fw, run.worlds[1], hd, run.ops[t].h, i);
    assert StepHolds(run, t);
    SegEntry(x, p, run.ops[t].seg, 0);
    ReceiveTakes(fw, x, p);
  }

  /** An operation of two exchanges after which the firmware is as before leaves its connections open. */
  lemma LineStays(fw: Firmware, run: Run, hd: nat, x: Inbound, t: nat)
    requires LineOpen(fw, run, hd, x, t) && t < |run.ops| && |SegOf(run.ops[t])| == 2 && Position(run.ops, t) + 2 <= |x.log|
    requires FwAt(fw, x.log, Position(run.ops, t) + 2) == FwAt(fw, x.log, Position(run.ops, t))
    ensures LineOpen(fw, run, hd, x, t + 1)
  {
    assert Position(run.ops, t + 1) == Position(run.ops, t) + 2;
  }

  lemma SendInRun(fw: Firmware, run: Run, hd: nat, i: nat, x: Inbound, t: nat, p: nat)
    requires Told(fw, run, x) && Turns(fw, run, hd) && Settled(run, hd, i, t) && t < |run.ops| && run.ops[t].Send?
    requires p == Position(run.ops, t) && p <= |x.log|
    requires FwAt(fw, x.log, p).open == fw.open + {PairOf(run.worlds[1].handles[hd].conn)}
    ensures run.ops[t].status == Success && Settled(run, hd, i, t + 1)
    ensures Asked(run, x, t) && Waiting(x, run.ops, t + 1) == Waiting(x, run.ops, t) + AnswerTo(x, run.ops, t)
    ensures |SegOf(run.ops[t])| == 2 && p + 2 <= |x.log| && FwAt(fw, x.log, p + 2) == FwAt(fw, x.log, p)
  {
    assert TurnAt(fw, run, hd, t);
    InPlace(fw, x, run.ops, t);
    SendAt(fw, run, hd, i, x, t, p);
    AskedAt(run, x, t, p);
  }

  lemma AskedAt(run: Run, x: Inbound, t: nat, p: nat)
    requires t < |run.ops| && run.ops[t].Send? && p == Position(run.ops, t) && p + 1 < |x.queued|
    requires IsAnswer(x.queued[p + 1], IdOf(run, t))
    ensures Asked(run, x, t) && AnswerTo(x, run.ops, t) == x.queued[p + 1]
  {}

  lemma ReceiveInRun(fw: Firmware, run: Run, hd: nat, i: nat, x: Inbound, t: nat, p: nat, s: nat, rest: seq<Parcel>)
    requires Told(fw, run, x) && Turns(fw, run, hd) && Settled(run, hd, i, t) && t < |run.ops| && run.ops[t].Receive?
    requires s < |run.ops| && Asked(run, x, s) && Waiting(x, run.ops, t) == AnswerTo(x, run.ops, s) + rest
    requires p == Position(run.ops, t)
    ensures run.ops[t].status == Success && Settled(run, hd, i, t + 1)
    ensures Served(run, x, t, s) && Waiting(x, run.ops, t + 1) == rest
    ensures |SegOf(run.ops[t])| == 2 && p + 2 <= |x.log| && FwAt(fw, x.log, p + 2) == FwAt(fw, x.log, p)
  {
    assert TurnAt(fw, run, hd, t);
    InPlace(fw, x, run.ops, t);
    ReceiveAt(fw, run, hd, i, x, t, p, AnswerTo(x, run.ops, s), rest, IdOf(run, s));
  }

  lemma WaitsInRun(fw: Firmware, run: Run, hd: nat, i: nat, x: Inbound, t: nat)
    requires Told(fw, run, x) && Turns(fw, run, hd) && Settled(run, hd, i, t) && t < |run.ops| && run.ops[t].Receive?
    ensures Waiting(x, run.ops, t) != []
  {
    assert TurnAt(fw, run, hd, t);
    InPlace(fw, x, run.ops, t);
    SomethingWaits(fw, run, hd, i, x, t, Position(run.ops, t));
  }

  // And what they do to the backlog.

  lemma BacklogGrows(run: Run, x: Inbound, t: nat)
    requires t < |run.ops| && run.ops[t].Send? && Backlog(run, x, t) && Asked(run, x, t)
    requires Waiting(x, run.ops, t + 1) == Waiting(x, run.ops, t) + AnswerTo(x, run.ops, t)
    ensures Backlog(run, x, t + 1)
  {
    assert Unanswered(run.ops, t + 1) == Unanswered(run.ops, t) + [t];
    AnswersOneMore(x, run.ops, Unanswered(run.ops, t), t);
  }

  lemma OldestIsAsked(run: Run, x: Inbound, t: nat)
    requires Backlog(run, x, t) && Waiting(x, run.ops, t) != []
    ensures var us := Unanswered(run.ops, t);
      && us != [] && us[0] < |run.ops| && Asked(run, x, us[0])
      && Waiting(x, run.ops, t) == AnswerTo(x, run.ops, us[0]) + AnswersTo(x, run.ops, us[1..])
  {
    var us := Unanswered(run.ops, t);
    assert us != [];
    assert us[0] in us;
  }

  lemma BacklogShrinks(run: Run, x: Inbound, t: nat)
    requires t < |run.ops| && run.ops[t].Receive? && Backlog(run, x, t) && Unanswered(run.ops, t) != []
    requires Waiting(x, run.ops, t + 1) == AnswersTo(x, run.ops, Unanswered(run.ops, t)[1..])
    ensures Backlog(run, x, t + 1)
  {
    assert Unanswered(run.ops, t + 1) == Unanswered(run.ops, t)[1..];
  }

  lemma SendTurn(fw: Firmware, run: Run, hd: nat, i: nat, x: Inbound, t: nat)
    requires Told(fw, run, x) && Turns(fw, run, hd) && AtTurn(fw, run, hd, i, x, t) && t < |run.ops| && run.ops[t].Send?
    ensures run.ops[t].status == Success && AtTurn(fw, run, hd, i, x, t + 1)
  {
    SendInRun(fw, run, hd, i, x, t, Position(run.ops, t));
    LineStays(fw, run, hd, x, t);
    BacklogGrows(run, x, t);
  }

  lemma ReceiveTurn(fw: Firmware, run: Run, hd: nat, i: nat, x: Inbound, t: nat)
    requires Told(fw, run, x) && Turns(fw, run, hd) && AtTurn(fw, run, hd, i, x, t) && t < |run.ops| && run.ops[t].Receive?
    ensures run.ops[t].status == Success && AtTurn(fw, run, hd, i, x, t + 1)
    ensures Unanswered(run.ops, t) != [] && Served(run, x, t, Unanswered(run.ops, t)[0])
  {
    WaitsInRun(fw, run, hd, i, x, t);
    OldestIsAsked(run, x, t);
    var us := Unanswered(run.ops, t);
    ReceiveInRun(fw, run, hd, i, x, t, Position(run.ops, t), us[0], AnswersTo(x, run.ops, us[1..]));
    LineStays(fw, run, hd, x, t);
    BacklogShrinks(run, x, t);
  }

  /** One operation after the connect, which leads to the next. */
  lemma OneTurn(fw: Firmware, run: Run, hd: nat, i: nat, x: Inbound, t: nat, next: nat)
    requires Told(fw, run, x) && Turns(fw, run, hd) && AtTurn(fw, run, hd, i, x, t) && 1 <= t < |run.ops| && next == t + 1
    ensures ComesOut(run, x, t) && AtTurn(fw, run, hd, i, x, next)
  {
    assert TurnAt(fw, run, hd, t);
    if run.ops[t].Send? {
      SendTurn(fw, run, hd, i, x, t);
    } else {
      ReceiveTurn(fw, run, hd, i, x, t);
    }
  }

  lemma {:induction false} TurnsGoOn(fw: Firmware, run: Run, hd: nat, i: nat, x: Inbound, t: nat)
    requires Told(fw, run, x) && Turns(fw, run, hd) && 1 <= t <= |run.ops| && AtTurn(fw, run, hd, i, x, 1)
    ensures AtTurn(fw, run, hd, i, x, t)
    decreases t
  {
    if t == 1 {
    } else {
      TurnsGoOn(fw, run, hd, i, x, t - 1);
      OneTurn(fw, run, hd, i, x, t - 1, t);
    }
  }

  lemma ComesOutOnQueue(fw: Firmware, run: Run, hd: nat, x: Inbound, t: nat, next: nat)
    requires Conversation(fw, run, hd, x) && t < |run.ops| && next == t + 1
    ensures ComesOut(run, x, t)
    ensures Waiting(x, run.ops, next) == AnswersTo(x, run.ops, Unanswered(run.ops, next))
  {
    var i := ConversationStarts(fw, run, hd, x);
    if t == 0 {
    } else {
      TurnsGoOn(fw, run, hd, i, x, t);
      OneTurn(fw, run, hd, i, x, t, next);
    }
  }

  lemma ConversationComesOut(fw: Firmware, run: Run, hd: nat, x: Inbound)
    requires Conversation(fw, run, hd, x)
    ensures AllComeOut(run, x) && AnswersWait(run, x)
  {
    forall t | 0 <= t < |run.ops|
      ensures ComesOut(run, x, t)
    {
      ComesOutOnQueue(fw, run, hd, x, t, t + 1);
    }
    forall t: nat | 1 <= t <= |run.ops|
      ensures Waiting(x, run.ops, t) == AnswersTo(x, run.ops, Unanswered(run.ops, t))
    {
      ComesOutOnQueue(fw, run, hd, x, t - 1, t);
    }
  }

  // ---- over the rings ----

  predicate AnswersAt(fw: Firmware, h: History, j: int) {
    0 <= j < |h.log| && j < |h.queued| && h.log[j].outcome == Success && Reacts(FwAt(fw, h.log, j), h.log[j], h.queued[j])
  }

  /** No exchange fails, and the firmware answers as it should. */
  predicate AnswersAll(fw: Firmware, h: History) {
    |h.queued| == |h.log| && forall j :: 0 <= j < |h.log| ==> AnswersAt(fw, h, j)
  }

  lemma HistoryIsGood(fw: Firmware, h: History)
    requires Played(h) && AnswersAll(fw, h)
    ensures GoodInbound(fw, InboundOf(h))
  {
    forall j | 0 <= j < |h.log|
      ensures h.log[j].outcome == Success
    {
      assert AnswersAt(fw, h, j);
    }
    HistoryIsInbound(h);
    var x := InboundOf(h);
    forall j | 0 <= j < |x.log|
      ensures GoodEntry(fw, x, j)
    {
      assert MovesAt(x, j) && AnswersAt(fw, h, j);
    }
  }

  /** From exchange `p` on, the device's log is the conversation and nothing else, played over the rings against a firmware
      that answers every payload. */
  ghost predicate Conversed(fw: Firmware, dev: Device, p: nat, h: History, run: Run, hd: nat)
    reads dev
  {
    && dev.InStep() && Stretch(dev, p, h) && OnRings(h) && AnswersAll(fw, h)
    && IsRun(run) && Talks(fw, run, hd) && h.log == AllSegs(run.ops, |run.ops|)
  }

  lemma ConversedIsConversation(fw: Firmware, dev: Device, p: nat, h: History, run: Run, hd: nat)
    requires Conversed(fw, dev, p, h, run, hd)
    ensures |h.queued| == |h.log| && Conversation(fw, run, hd, InboundOf(h))
  {
    StretchIsPlayed(dev, p, h);
    HistoryIsGood(fw, h);
  }

  /** On any device, for clients without fixed address on function 0, over the rings under every interleaving, and against a
      firmware that answers each payload with a response and a credit, in packets of its own choice: in any order of sends and
      receives of any of the handles, all calls succeed and leave the device and the handles as they were; each receive
      returns the response to the oldest message not yet answered, whoever sent it; and what is left on the link are the
      answers to the messages not yet answered. */
  lemma ReceivesAnswerInOrder(fw: Firmware, dev: Device, p: nat, h: History, run: Run, hd: nat)
    requires Conversed(fw, dev, p, h, run, hd)
    ensures |h.queued| == |h.log| && AllComeOut(run, InboundOf(h)) && AnswersOnLink(run, h)
  {
    ConversedIsConversation(fw, dev, p, h, run, hd);
    ConversationComesOut(fw, run, hd, InboundOf(h));
    AnswersAreOnLink(h, run);
  }

  lemma AnswersAreOnLink(h: History, run: Run)
    requires |h.queued| == |h.log| && AnswersWait(run, InboundOf(h)) && h.log == AllSegs(run.ops, |run.ops|)
    ensures AnswersOnLink(run, h)
  {
    forall t: nat | 1 <= t <= |run.ops|
      ensures OnLink(h, run.ops, t, AnswersTo(InboundOf(h), run.ops, Unanswered(run.ops, t)))
    {
      WaitingIsOnLink(h, run.ops, t);
    }
  }

  // ---- whose message it is ----

  /** Two live handles of one device have the same id only if they are one handle. */
  lemma SameIdSameHandle(w: World, h: nat, k: nat, i: nat)
    requires Inv(w) && Live(w, h, i) && Live(w, k, i)
    ensures w.handles[h].conn.hostClientId == w.handles[k].conn.hostClientId <==> h == k
  {
    AtMeansLookup(w.table, w.handles[h].bdf, i);
    AtMeansLookup(w.table, w.handles[k].bdf, i);
    assert Used(w.table[i]);
    var id := w.handles[h].conn.hostClientId;
    assert HeldBy(w.table[i], w.handles, h, id);
    assert w.handles[k].conn.hostClientId == id ==> HeldBy(w.table[i], w.handles, k, id);
  }

  lemma OwnIfSender(fw: Firmware, run: Run, hd: nat, i: nat, x: Inbound, t: nat, s: nat)
    requires TurnAt(fw, run, hd, t) && TurnAt(fw, run, hd, s) && Served(run, x, t, s)
    requires Inv(run.worlds[1]) && Live(run.worlds[1], hd, i)
    ensures Own(run.ops[t].seg, IdOf(run, t)) <==> run.ops[s].h == run.ops[t].h
  {
    PeerIsLive(fw, run.worlds[1], hd, run.ops[t].h, i);
    PeerIsLive(fw, run.worlds[1], hd, run.ops[s].h, i);
    SameIdSameHandle(run.worlds[1], run.ops[t].h, run.ops[s].h, i);
  }

  lemma SenderTalks(fw: Firmware, run: Run, hd: nat, t: nat, s: nat)
    requires Talks(fw, run, hd) && t <= |run.ops| && s in Unanswered(run.ops, t)
    ensures s < t && TurnAt(fw, run, hd, s)
  {
    SendsBefore(run.ops, t, s);
  }

  /** The exact condition under which handles that share a device get their own responses: where ids are distinct, a receive
      returns a message meant for its own handle if and only if that handle sent the oldest message not yet answered. */
  lemma OwnExactly(fw: Firmware, run: Run, hd: nat, x: Inbound, t: nat)
    requires Conversation(fw, run, hd, x) && t < |run.ops| && run.ops[t].Receive? && Inv(run.worlds[1])
    ensures Unanswered(run.ops, t) != [] && Unanswered(run.ops, t)[0] < |run.ops|
    ensures Own(run.ops[t].seg, IdOf(run, t)) <==> run.ops[Unanswered(run.ops, t)[0]].h == run.ops[t].h
  {
    var i := ConversationStarts(fw, run, hd, x);
    ComesOutOnQueue(fw, run, hd, x, t, t + 1);
    var s := Unanswered(run.ops, t)[0];
    SenderTalks(fw, run, hd, t, s);
    OwnIfSender(fw, run, hd, i, x, t, s);
  }

  // ---- taking turns ----

  /** Send `s` and the receive after it are a round of one handle, on a link that was empty before. */
  predicate RoundOf(ops: seq<Op>, s: nat) {
    && s + 1 < |ops| && ops[s].Send? && ops[s + 1].Receive? && ops[s + 1].h == ops[s].h
    && Unanswered(ops, s + 1) == [s] && Unanswered(ops, s + 2) == []
  }

  lemma RoundIsOwn(run: Run, h: History, s: nat)
    requires |h.queued| == |h.log| && AllComeOut(run, InboundOf(h)) && AnswersOnLink(run, h) && RoundOf(run.ops, s)
    ensures RoundGoes(run, h, s)
  {
    var r, next := s + 1, s + 2;
    assert ComesOut(run, InboundOf(h), s) && ComesOut(run, InboundOf(h), r);
    assert OnLink(h, run.ops, next, AnswersTo(InboundOf(h), run.ops, Unanswered(run.ops, next)));
    assert IdOf(run, s) == IdOf(run, r);
  }

  lemma NthRound(ops: seq<Op>, n: nat, k: nat)
    requires InRounds(ops, n) && k < n
    ensures RoundOf(ops, 2 * k + 1)
  {
    RoundsBalance(ops, n, k);
    RoundsBalance(ops, n, k + 1);
    assert IsRound(ops, k);
  }

  lemma RoundsAreOwn(run: Run, h: History, n: nat)
    requires |h.queued| == |h.log| && AllComeOut(run, InboundOf(h)) && AnswersOnLink(run, h) && InRounds(run.ops, n)
    ensures AllRoundsGo(run, h, n)
  {
    forall k: nat | k < n
      ensures RoundGoes(run, h, 2 * k + 1)
    {
      NthRound(run.ops, n, k);
      RoundIsOwn(run, h, 2 * k + 1);
    }
  }

  /** A connect and `n` rounds of send and receive, each round of any of the handles: every receive returns the response to
      the message sent before it, and every round leaves the link empty and all as the connect left it. */
  lemma RoundsReturnResponses(fw: Firmware, dev: Device, p: nat, h: History, run: Run, hd: nat, n: nat)
    requires Conversed(fw, dev, p, h, run, hd) && InRounds(run.ops, n)
    ensures |h.queued| == |h.log| && AllComeOut(run, InboundOf(h)) && AllRoundsGo(run, h, n)
  {
    ReceivesAnswerInOrder(fw, dev, p, h, run, hd);
    RoundsAreOwn(run, h, n);
  }
}
