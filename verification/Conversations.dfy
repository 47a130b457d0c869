/** Conversations over one device, by one handle or by several: a connect, and then sends and receives in any order
    (src/uefi/heci_efi.c:680-737, 743-942). The receive path never looks at the host address a message carries, so what a
    receive returns is settled by order alone. */
module Conversations {
  import opened HeciRegisters
  import opened HeciWire
  import opened HeciDelivery
  import opened HeciRuns
  import opened FlowControl

  // ---- where each operation's exchanges are in the log ----

  /** The exchanges of an operation; those of the enumeration that a connect may begin with come before them, and end with
      a link that has been reset and drained. */
  function SegOf(op: Op): seq<Exchange> {
    match op
    case Open(_, _, _) => []
    case Connect(_, _, rec) => rec.seg
    case Send(_, _, _, _, seg) => seg
    case Receive(_, _, _, _, _, _, seg) => seg
    case Close(_, _, seg) => seg
  }

  /** The exchanges of the first `i` operations. */
  function AllSegs(ops: seq<Op>, i: nat): seq<Exchange>
    requires i <= |ops|
  {
    if i == 0 then [] else AllSegs(ops, i - 1) + SegOf(ops[i - 1])
  }

  /** Where the exchanges of operation `i` begin. */
  function Position(ops: seq<Op>, i: nat): nat
    requires i <= |ops|
  {
    |AllSegs(ops, i)|
  }

  lemma {:induction false} SegsPrefix(ops: seq<Op>, i: nat, n: nat)
    requires i <= n <= |ops|
    ensures AllSegs(ops, i) <= AllSegs(ops, n)
    decreases n
  {
    if i == n {
    } else {
      SegsPrefix(ops, i, n - 1);
    }
  }

  lemma SliceOfPrefix(log: seq<Exchange>, before: seq<Exchange>, seg: seq<Exchange>)
    requires before + seg <= log
    ensures |before| + |seg| <= |log| && log[|before|..|before| + |seg|] == seg
  {
    assert log[..|before + seg|] == before + seg;
    assert log[|before|..|before + seg|] == (before + seg)[|before|..];
  }

  lemma SegInPlace(ops: seq<Op>, x: Inbound, i: nat)
    requires i < |ops| && x.log == AllSegs(ops, |ops|)
    ensures Position(ops, i + 1) == Position(ops, i) + |SegOf(ops[i])|
    ensures SegAt(x, Position(ops, i), SegOf(ops[i]))
  {
    SegsPrefix(ops, i + 1, |ops|);
    SliceOfPrefix(x.log, AllSegs(ops, i), SegOf(ops[i]));
  }

  // ---- the conversation ----

  /** Handle `h` is `hd` itself, or another handle that is connected to the same device in the same generation, with a
      connection that the firmware has open from the start. */
  predicate Peer(fw: Firmware, w: World, hd: nat, h: nat) {
    && hd in w.handles && h in w.handles && w.handles[h].bdf == w.handles[hd].bdf
    && (h == hd || (
          && w.handles[h].conn.connected && w.handles[h].conn.generation == w.handles[hd].conn.generation
          && w.handles[h].conn.hostClientId != 0 && Paired(w.handles[h].conn, w.handles[h].bdf)
          && PairOf(w.handles[h].conn) in fw.open))
  }

  lemma PeerIsLive(fw: Firmware, w: World, hd: nat, h: nat, i: nat)
    requires Live(w, hd, i) && Peer(fw, w, hd, h)
    ensures Live(w, h, i)
  {}

  /** A send or a receive of `hd` or a peer, with parameters in range. */
  predicate Turn(fw: Firmware, w: World, hd: nat, op: Op) {
    && Peer(fw, w, hd, op.h)
    && match op
       case Send(h, valid, bytes, _, _) => valid && 0 < |bytes| <= w.handles[h].conn.properties.maxMessageLength
       case Receive(h, valid, size, _, _, _, _) => valid && 0 < size <= w.handles[h].conn.properties.maxMessageLength
       case _ => false
  }

  predicate TurnAt(fw: Firmware, run: Run, hd: nat, t: int) {
    1 <= t < |run.ops| && 1 < |run.worlds| && Turn(fw, run.worlds[1], hd, run.ops[t])
  }

  /** After the first operation come sends and receives, by handle `hd` and its peers in any order. */
  predicate Turns(fw: Firmware, run: Run, hd: nat) {
    forall t :: 1 <= t < |run.ops| ==> TurnAt(fw, run, hd, t)
  }

  /** A connect of handle `hd`, and then turns. */
  predicate Talks(fw: Firmware, run: Run, hd: nat) {
    && |run.ops| >= 1 && |run.worlds| == |run.ops| + 1
    && CanConnect(run.worlds[0], run.ops[0]) && run.ops[0].h == hd && Turns(fw, run, hd)
  }

  /** The operations of a run are all that the device's log tells of, and the firmware behaves. */
  ghost predicate Told(fw: Firmware, run: Run, x: Inbound) {
    IsRun(run) && GoodInbound(fw, x) && x.log == AllSegs(run.ops, |run.ops|)
  }

  ghost predicate Conversation(fw: Firmware, run: Run, hd: nat, x: Inbound) {
    Told(fw, run, x) && Talks(fw, run, hd)
  }

  // ---- which send a receive answers ----

  /** The sends among the first `t` operations that no receive has answered, in order: each receive answers the oldest. */
  function Unanswered(ops: seq<Op>, t: nat): seq<nat>
    requires t <= |ops|
  {
    if t == 0 then [] else
    var before := Unanswered(ops, t - 1);
    if ops[t - 1].Send? then before + [t - 1]
    else if ops[t - 1].Receive? && before != [] then before[1..]
    else before
  }

  /** What the firmware queued for the payload of operation `s`, which is the second exchange of a send. */
  function AnswerTo(x: Inbound, ops: seq<Op>, s: nat): seq<Parcel> {
    if s < |ops| && Position(ops, s) + 1 < |x.queued| then x.queued[Position(ops, s) + 1] else []
  }

  function AnswersTo(x: Inbound, ops: seq<Op>, sends: seq<nat>): seq<Parcel> {
    if sends == [] then [] else AnswerTo(x, ops, sends[0]) + AnswersTo(x, ops, sends[1..])
  }

  lemma {:induction false} AnswersOneMore(x: Inbound, ops: seq<Op>, sends: seq<nat>, s: nat)
    ensures AnswersTo(x, ops, sends + [s]) == AnswersTo(x, ops, sends) + AnswerTo(x, ops, s)
  {
    if sends == [] {
      assert [] + [s] == [s];
      assert AnswersTo(x, ops, [s]) == AnswerTo(x, ops, s) + AnswersTo(x, ops, []);
    } else {
      assert (sends + [s])[1..] == sends[1..] + [s];
      AnswersOneMore(x, ops, sends[1..], s);
    }
  }

  /** The host id under which operation `t` was made. */
  function IdOf(run: Run, t: nat): Byte {
    if t < |run.ops| && 1 < |run.worlds| && run.ops[t].h in run.worlds[1].handles
    then run.worlds[1].handles[run.ops[t].h].conn.hostClientId else 0
  }

  /** Operation `s` is a send, and the firmware has queued an answer to it. */
  predicate Asked(run: Run, x: Inbound, s: nat)
    requires s < |run.ops|
  {
    match run.ops[s]
    case Send(_, _, _, _, _) => IsAnswer(AnswerTo(x, run.ops, s), IdOf(run, s))
    case _ => false
  }

  lemma {:induction false} SendsBefore(ops: seq<Op>, t: nat, s: nat)
    requires t <= |ops| && s in Unanswered(ops, t)
    ensures s < t && ops[s].Send?
  {
    if s in Unanswered(ops, t - 1) {
      SendsBefore(ops, t - 1, s);
    } else {
      assert s == t - 1;
    }
  }

  /** Operation `t` is a receive, and it returns the response to the payload of operation `s`; that is meant for the handle
      that receives it if and only if that handle's id sent it. */
  predicate Served(run: Run, x: Inbound, t: nat, s: nat)
    requires t < |run.ops|
  {
    match run.ops[t]
    case Receive(_, _, size, _, bytesRead, content, seg) =>
      && s < |run.ops| && Asked(run, x, s)
      && Returns(MessageOf(ResponseOf(AnswerTo(x, run.ops, s))), size, bytesRead, content)
      && (Own(seg, IdOf(run, t)) <==> IdOf(run, s) == IdOf(run, t))
    case _ => false
  }

  /** How operation `t` of a conversation comes out: it succeeds and changes nothing, and a receive is served the oldest send
      not yet answered. */
  ghost predicate ComesOut(run: Run, x: Inbound, t: nat)
    requires t < |run.ops| && t + 1 < |run.worlds|
  {
    match run.ops[t]
    case Connect(_, status, _) => t == 0 && status == Success
    case Send(_, _, _, status, _) => status == Success && run.worlds[t + 1] == run.worlds[1]
    case Receive(_, _, _, status, _, _, _) =>
      && status == Success && run.worlds[t + 1] == run.worlds[1]
      && Unanswered(run.ops, t) != [] && Served(run, x, t, Unanswered(run.ops, t)[0])
    case _ => false
  }

  ghost predicate AllComeOut(run: Run, x: Inbound) {
    |run.worlds| == |run.ops| + 1 && forall t :: 0 <= t < |run.ops| ==> ComesOut(run, x, t)
  }

  // ---- the state between two operations ----

  /** Before operation `t` the table and the handles are as the connect left them. */
  ghost predicate Settled(run: Run, hd: nat, i: nat, t: nat) {
    && 1 <= t <= |run.ops| && |run.worlds| == |run.ops| + 1
    && run.worlds[t] == run.worlds[1] && Live(run.worlds[1], hd, i)
  }

  /** What is on the link before operation `t`. */
  function Waiting(x: Inbound, ops: seq<Op>, t: nat): seq<Parcel>
    requires t <= |ops|
  {
    if Position(ops, t) < |x.states| then x.states[Position(ops, t)] else []
  }

  /** The queue holds the answers to the sends not yet answered. */
  ghost predicate Backlog(run: Run, x: Inbound, t: nat) {
    && t <= |run.ops|
    && (forall s <- Unanswered(run.ops, t) :: s < |run.ops| && Asked(run, x, s))
    && Waiting(x, run.ops, t) == AnswersTo(x, run.ops, Unanswered(run.ops, t))
  }

  /** From the connect on, what is on the link are the answers to the sends not yet answered, in order. */
  ghost predicate AnswersWait(run: Run, x: Inbound) {
    forall t: nat :: 1 <= t <= |run.ops| ==> Waiting(x, run.ops, t) == AnswersTo(x, run.ops, Unanswered(run.ops, t))
  }

  /** The firmware's connections before operation `t`: those from the start, and that of handle `hd`. */
  ghost predicate LineOpen(fw: Firmware, run: Run, hd: nat, x: Inbound, t: nat) {
    && t <= |run.ops| && 1 < |run.worlds| && hd in run.worlds[1].handles && Position(run.ops, t) <= |x.log|
    && FwAt(fw, x.log, Position(run.ops, t)).open == fw.open + {PairOf(run.worlds[1].handles[hd].conn)}
  }

  ghost predicate AtTurn(fw: Firmware, run: Run, hd: nat, i: nat, x: Inbound, t: nat) {
    Settled(run, hd, i, t) && Backlog(run, x, t) && LineOpen(fw, run, hd, x, t)
  }

  /** What the firmware has queued and the host has not received before operation `t` is `left`. */
  predicate OnLink(h: History, ops: seq<Op>, t: nat, left: seq<Parcel>) {
    && |h.queued| == |h.log| && t <= |ops| && Position(ops, t) <= |h.log|
    && Pending(h, Position(ops, t)) == left
  }

  lemma WaitingIsOnLink(h: History, ops: seq<Op>, t: nat)
    requires |h.queued| == |h.log| && h.log == AllSegs(ops, |ops|) && t <= |ops|
    ensures OnLink(h, ops, t, Waiting(InboundOf(h), ops, t))
  {
    SegsPrefix(ops, t, |ops|);
  }

  ghost predicate AnswersOnLink(run: Run, h: History)
    requires |h.queued| == |h.log|
  {
    forall t: nat :: 1 <= t <= |run.ops| ==> OnLink(h, run.ops, t, AnswersTo(InboundOf(h), run.ops, Unanswered(run.ops, t)))
  }

  lemma NothingAsked(ops: seq<Op>)
    requires |ops| >= 1 && ops[0].Connect?
    ensures Unanswered(ops, 1) == []
  {
    assert Unanswered(ops, 0) == [];
  }

  lemma InPlace(fw: Firmware, x: Inbound, ops: seq<Op>, t: nat)
    requires GoodInbound(fw, x) && x.log == AllSegs(ops, |ops|) && t < |ops|
    ensures var p := Position(ops, t);
      && SegAt(x, p, SegOf(ops[t])) && p < |x.states| && p + |SegOf(ops[t])| < |x.states|
      && Waiting(x, ops, t) == x.states[p] && Waiting(x, ops, t + 1) == x.states[p + |SegOf(ops[t])|]
  {
    SegInPlace(ops, x, t);
  }

  // ---- taking turns ----

  /** Each send is followed by a receive of the same handle. */
  predicate InRounds(ops: seq<Op>, n: nat) {
    |ops| == 2 * n + 1 && ops[0].Connect? && forall k: nat :: k < n ==> IsRound(ops, k)
  }

  predicate IsRound(ops: seq<Op>, k: nat) {
    && 2 * k + 2 < |ops|
    && ops[2 * k + 1].Send? && ops[2 * k + 2].Receive? && ops[2 * k + 2].h == ops[2 * k + 1].h
  }

  lemma {:induction false} RoundsBalance(ops: seq<Op>, n: nat, k: nat)
    requires InRounds(ops, n) && k <= n
    ensures Unanswered(ops, 2 * k + 1) == []
    ensures k < n ==> Unanswered(ops, 2 * k + 2) == [2 * k + 1]
  {
    if k == 0 {
      NothingAsked(ops);
    } else {
      RoundsBalance(ops, n, k - 1);
      assert IsRound(ops, k - 1);
      assert Unanswered(ops, 2 * k + 1) == Unanswered(ops, 2 * k)[1..];
    }
    if k < n {
      assert IsRound(ops, k);
    }
  }

  /** The round of send `s` has gone as it should: both calls succeed and change nothing, the receive returns the response to
      the message sent just before it, meant for the same handle, and nothing is left on the link. */
  ghost predicate RoundGoes(run: Run, h: History, s: nat)
    requires |h.queued| == |h.log|
  {
    && s + 1 < |run.ops| && s + 2 < |run.worlds| && run.ops[s].Send?
    && ComesOut(run, InboundOf(h), s) && ComesOut(run, InboundOf(h), s + 1)
    && Served(run, InboundOf(h), s + 1, s) && Own(run.ops[s + 1].seg, IdOf(run, s + 1))
    && OnLink(h, run.ops, s + 2, [])
  }

  ghost predicate AllRoundsGo(run: Run, h: History, n: nat)
    requires |h.queued| == |h.log|
  {
    forall k: nat :: k < n ==> RoundGoes(run, h, 2 * k + 1)
  }
}
