/** From the firmware to a receiving caller: messages that the firmware writes to its ring arrive one by one, whole and in
    order, whatever the interleaving (src/uefi/heci_core.c:290-381, 492-562). */
module HeciDelivery {
  import opened HeciRegisters
  import opened HeciPackets
  import opened HeciWire
  import opened HeciDevice
  import HeciRing

  type Message = seq<Byte>

  /** A message as the firmware cuts it into packets: any sound way will do. */
  type Parcel = seq<Packet>

  predicate Sound(p: Parcel) {
    IsMessage(p) && Aligned(p) && TotalLength(p) < TWO_32
  }

  function MessageOf(p: Parcel): Message
    requires Sound(p)
  {
    Content(p)
  }

  /** The exchange hands over message `m`, cut to the room it was given. */
  predicate Delivers(e: Exchange, m: Message) {
    && e.Received? && e.outcome == Success && e.length == |m|
    && Min(|m|, e.size) <= |e.content| && e.content[..Min(|m|, e.size)] == m[..Min(|m|, e.size)]
  }

  /** It hands over message `p`, with the addresses it carries. */
  predicate Brings(e: Exchange, p: Parcel)
    requires Sound(p)
  {
    Delivers(e, MessageOf(p)) && e.hosts == Hosts(p)
  }

  /** The words of several messages, one after the other. */
  function Stream(ps: seq<Parcel>): seq<Word> {
    if ps == [] then [] else Flatten(ps[0]) + Stream(ps[1..])
  }

  lemma {:induction false} StreamSplits(ps: seq<Parcel>, k: nat)
    requires k <= |ps|
    ensures Stream(ps) == Stream(ps[..k]) + Stream(ps[k..])
  {
    if k == 0 {
      assert ps[..0] == [] && ps[0..] == ps;
    } else {
      StreamSplits(ps[1..], k - 1);
      assert ps[..k][1..] == ps[1..][..k - 1] && ps[k..] == ps[1..][k - 1..];
      Associates(Flatten(ps[0]), Stream(ps[1..][..k - 1]), Stream(ps[k..]));
    }
  }

  lemma StreamOneMore(ps: seq<Parcel>, k: nat)
    requires k < |ps|
    ensures Stream(ps[..k + 1]) == Stream(ps[..k]) + Flatten(ps[k])
  {
    StreamSplits(ps[..k + 1], k);
    assert ps[..k + 1][..k] == ps[..k] && ps[..k + 1][k..] == [ps[k]];
    assert Stream([ps[k]]) == Flatten(ps[k]) + Stream([]);
  }

  lemma OneOfTwo(a: seq<Word>, b: seq<Word>, c: seq<Word>)
    requires a <= c && b <= c
    ensures a <= b || b <= a
  {
    if |a| <= |b| {
      assert c[..|b|][..|a|] == c[..|a|];
    } else {
      assert c[..|a|][..|b|] == c[..|b|];
    }
  }

  lemma CancelFront(front: seq<Word>, a: seq<Word>, b: seq<Word>)
    requires front + a <= front + b
    ensures a <= b
  {
    assert (front + a)[|front|..] == a && (front + b)[|front|..] == b;
    assert (front + b)[..|front + a|][|front|..] == b[..|a|];
  }

  /** A receiver that has read the first `k` messages of a stream and now reads some message's packets, all of it words of
      that stream, has read the next message of the stream. */
  lemma NextInStream(base: seq<Word>, ps: seq<Parcel>, k: nat, packets: seq<Packet>)
    requires k <= |ps| && (forall i :: 0 <= i < |ps| ==> Sound(ps[i])) && IsMessage(packets)
    requires (base + Stream(ps[..k])) + Flatten(packets) <= base + Stream(ps)
    ensures k < |ps| && packets == ps[k]
  {
    StreamSplits(ps, k);
    Associates(base, Stream(ps[..k]), Flatten(packets));
    CancelFront(base, Stream(ps[..k]) + Flatten(packets), Stream(ps));
    CancelFront(Stream(ps[..k]), Flatten(packets), Stream(ps[k..]));
    assert Flatten(packets) != [];
    assert k < |ps|;
    assert Flatten(ps[k]) <= Stream(ps[k..]);
    OneOfTwo(Flatten(packets), Flatten(ps[k]), Stream(ps[k..]));
    if Flatten(packets) <= Flatten(ps[k]) {
      PacketsUnique(packets, ps[k]);
    } else {
      PacketsUnique(ps[k], packets);
    }
  }

  // ---- a device's log played against its firmware ----

  /** A stretch of a device's log with what the firmware did meanwhile: an interleaving of both sides from a start with empty
      rings, the points in it where each exchange began and ended, and the messages the firmware queued on each exchange. */
  datatype History = History(
    depth: Byte, log: seq<Exchange>, marks: seq<Trace>,
    start: HeciRing.Link, run: seq<HeciRing.Step>, cuts: seq<nat>, queued: seq<seq<Parcel>>)

  /** All that the firmware has queued by the end of the first `j` exchanges, and how many receives there were among them. */
  function QueuedBy(h: History, j: nat): seq<Parcel>
    requires j <= |h.queued|
  {
    if j == 0 then [] else QueuedBy(h, j - 1) + h.queued[j - 1]
  }

  function Receives(log: seq<Exchange>, j: nat): nat
    requires j <= |log|
  {
    if j == 0 then 0 else Receives(log, j - 1) + (if log[j - 1].Received? then 1 else 0)
  }

  predicate SoundAt(h: History, j: int) {
    0 <= j < |h.queued| && forall p <- h.queued[j] :: Sound(p)
  }

  ghost predicate Shape(h: History) {
    && |h.cuts| == |h.log| + 1 && |h.queued| == |h.log|
    && (forall i, j :: 0 <= i <= j < |h.cuts| ==> h.cuts[i] <= h.cuts[j])
    && (forall j :: 0 <= j < |h.cuts| ==> h.cuts[j] <= |h.run|)
    && (forall j :: 0 <= j < |h.queued| ==> SoundAt(h, j))
  }

  /** The state of the rings after `j` exchanges. */
  function RingsAt(h: History, j: nat): HeciRing.Link
    requires Shape(h) && j < |h.cuts| && HeciRing.Feasible(h.start, h.run)
  {
    HeciRing.PrefixFeasible(h.start, h.run, h.cuts[j]);
    HeciRing.After(h.start, h.run[..h.cuts[j]])
  }

  /** The firmware writes what it has queued, in order and nothing else, at its own pace. */
  ghost predicate WritesQueued(h: History, j: nat)
    requires Shape(h) && j < |h.cuts| && HeciRing.Feasible(h.start, h.run)
  {
    RingsAt(h, j).m.put <= RingsAt(h, 0).m.put + Stream(QueuedBy(h, j))
  }

  /** The host's side of the run, up to the cut before exchange `j`, is what the device had recorded by then. */
  predicate CutAt(h: History, j: int) {
    && 0 <= j < |h.cuts| && j < |h.marks| && h.cuts[j] <= |h.run|
    && HeciRing.HostTrace(h.run[..h.cuts[j]]) == h.marks[j]
  }

  /** The history is possible on the rings: the host's side of the run is the device's record, nobody resets, the firmware's
      ring is empty at the beginning, and the firmware writes what it queues. */
  ghost predicate OnRings(h: History) {
    && |h.marks| == |h.log| + 1 && Shape(h)
    && HeciRing.Fresh(h.start) && HeciRing.Feasible(h.start, h.run) && HeciRing.Licensed(h.run)
    && HeciRing.NoResetSince(h.run, h.cuts[0])
    && (forall j :: 0 <= j < |h.cuts| ==> CutAt(h, j))
    && RingsAt(h, 0).m.taken == RingsAt(h, 0).m.put
    && (forall j :: 0 <= j < |h.cuts| ==> WritesQueued(h, j))
  }

  /** And the log is on the wire. */
  ghost predicate Played(h: History) {
    Wire(h.depth, h.log, h.marks) && OnRings(h)
  }

  /** The log of the history is what a device has recorded from its exchange `p` on. */
  ghost predicate Stretch(dev: Device, p: nat, h: History)
    reads dev
  {
    && h.depth == dev.hostDepth
    && p + |h.log| <= |dev.log| && h.log == dev.log[p..p + |h.log|]
    && p + |h.log| < |dev.marks| && h.marks == dev.marks[p..p + |h.log| + 1]
  }

  /** Any stretch of the log that the session layer has left behind is on the wire, so that all it takes is the rings. */
  lemma StretchIsPlayed(dev: Device, p: nat, h: History)
    requires dev.InStep() && Stretch(dev, p, h) && OnRings(h)
    ensures Played(h)
  {
    WireSlice(dev.hostDepth, dev.log, dev.marks, p, p + |h.log|);
  }

  /** One exchange on the rings: what the host read is what its ring gave out, and that was put in before. */
  lemma ExchangeOnRings(h: History, j: nat)
    requires Played(h) && j < |h.log|
    ensures var l, l', t, t' := RingsAt(h, j), RingsAt(h, j + 1), h.marks[j], h.marks[j + 1];
      && OnWire(h.depth, h.log[j], t, t') && WordsRead(t) <= WordsRead(t')
      && l'.m.taken == l.m.taken + WordsRead(t')[|WordsRead(t)|..]
      && l'.m.taken <= RingsAt(h, 0).m.put + Stream(QueuedBy(h, j + 1))
  {
    assert EntryOnWire(h.depth, h.log, h.marks, j) && CutAt(h, j) && CutAt(h, j + 1);
    var n, m := h.cuts[j], h.cuts[j + 1];
    assert h.cuts[j] <= h.cuts[j + 1];
    HeciRing.PrefixFeasible(h.start, h.run, m);
    assert h.run[..m][..n] == h.run[..n];
    assert HeciRing.NoResetSince(h.run[..m], n) by {
      assert h.cuts[0] <= n;
    }
    HeciRing.LogsGrow(h.start, h.run[..m], n);
    HeciRing.RunKeepsOk(h.start, h.run[..m]);
    assert WritesQueued(h, j + 1);
    PrefixTwice(RingsAt(h, j + 1).m.taken, RingsAt(h, j + 1).m.put, RingsAt(h, 0).m.put + Stream(QueuedBy(h, j + 1)));
  }

  lemma PrefixTwice(a: seq<Word>, b: seq<Word>, c: seq<Word>)
    requires a <= b <= c
    ensures a <= c
  {
    assert c[..|b|][..|a|] == c[..|a|];
  }

  lemma {:induction false} QueuedSound(h: History, j: nat)
    requires Shape(h) && j <= |h.queued|
    ensures forall i :: 0 <= i < |QueuedBy(h, j)| ==> Sound(QueuedBy(h, j)[i])
  {
    if j == 0 {
    } else {
      QueuedSound(h, j - 1);
      assert SoundAt(h, j - 1);
    }
  }

  /** No receive among the first `j` exchanges has failed. */
  predicate NoneFailed(log: seq<Exchange>, j: nat)
    requires j <= |log|
  {
    forall i :: 0 <= i < j && log[i].Received? ==> log[i].outcome == Success
  }

  /** The host has taken in the first messages queued, as many as it has received. */
  ghost predicate Level(h: History, j: nat)
    requires Played(h) && j <= |h.log|
  {
    var k, ps := Receives(h.log, j), QueuedBy(h, j);
    k <= |ps| && RingsAt(h, j).m.taken == RingsAt(h, 0).m.put + Stream(ps[..k])
  }

  /** One receive against the stream: it hands over the next message. */
  lemma PacketsDeliver(t: Trace, t': Trace, buf: seq<Byte>, packets: seq<Packet>, e: Exchange,
                       base: seq<Word>, ps: seq<Parcel>, k: nat)
    requires e.Received? && e.outcome == Success && CameIn(t, t', buf, packets, e)
    requires k <= |ps| && forall i :: 0 <= i < |ps| ==> Sound(ps[i])
    requires (base + Stream(ps[..k])) + Flatten(packets) <= base + Stream(ps)
    ensures k < |ps| && Sound(ps[k]) && Brings(e, ps[k])
    ensures (base + Stream(ps[..k])) + Flatten(packets) == base + Stream(ps[..k + 1])
  {
    NextInStream(base, ps, k, packets);
    ReassemblyCorrect(buf, e.size, packets);
    StreamOneMore(ps, k);
    Associates(base, Stream(ps[..k]), Flatten(packets));
  }

  lemma FrontOfMore(qs: seq<Parcel>, more: seq<Parcel>, k: nat)
    requires k <= |qs|
    ensures (qs + more)[..k] == qs[..k]
  {}

  /** A receive hands over the first message that is queued and not yet received. */
  lemma ReceiveTakesNext(h: History, j: nat)
    requires Played(h) && j < |h.log| && Level(h, j) && h.log[j].Received? && h.log[j].outcome == Success
    ensures var k, ps := Receives(h.log, j), QueuedBy(h, j + 1);
      k < |ps| && Sound(ps[k]) && Brings(h.log[j], ps[k])
    ensures Level(h, j + 1)
  {
    var e, t, t' := h.log[j], h.marks[j], h.marks[j + 1];
    var k, ps, base := Receives(h.log, j), QueuedBy(h, j + 1), RingsAt(h, 0).m.put;
    ExchangeOnRings(h, j);
    var buf, packets :| CameIn(t, t', buf, packets, e);
    assert WordsRead(t')[|WordsRead(t)|..] == Flatten(packets);
    QueuedSound(h, j + 1);
    FrontOfMore(QueuedBy(h, j), h.queued[j], k);
    PacketsDeliver(t, t', buf, packets, e, base, ps, k);
  }

  lemma OtherTakesNothing(h: History, j: nat)
    requires Played(h) && j < |h.log| && Level(h, j) && !h.log[j].Received?
    ensures Level(h, j + 1)
  {
    ExchangeOnRings(h, j);
    var k := Receives(h.log, j);
    assert QueuedBy(h, j + 1)[..k] == QueuedBy(h, j)[..k];
    assert WordsRead(h.marks[j + 1])[|WordsRead(h.marks[j])|..] == [];
  }

  lemma LevelStarts(h: History)
    requires Played(h)
    ensures Level(h, 0)
  {
    var base := RingsAt(h, 0).m.put;
    assert Stream([]) == [] && base + [] == base;
  }

  lemma NextLevel(h: History, j: nat)
    requires Played(h) && j < |h.log| && Level(h, j) && (h.log[j].Received? ==> h.log[j].outcome == Success)
    ensures Level(h, j + 1)
  {
    if h.log[j].Received? {
      ReceiveTakesNext(h, j);
    } else {
      OtherTakesNothing(h, j);
    }
  }

  lemma {:induction false} LevelHolds(h: History, j: nat)
    requires Played(h) && j <= |h.log| && NoneFailed(h.log, j)
    ensures Level(h, j)
  {
    if j == 0 {
      LevelStarts(h);
    } else {
      LevelHolds(h, j - 1);
      NextLevel(h, j - 1);
    }
  }

  /** The messages queued and not yet received after `j` exchanges. */
  function Pending(h: History, j: nat): seq<Parcel>
    requires j <= |h.queued| && j <= |h.log|
  {
    QueuedBy(h, j)[Min(Receives(h.log, j), |QueuedBy(h, j)|)..]
  }

  // ---- the inbound queue by itself ----

  /** The inbound queue `q` when the firmware adds `added` to it during exchange `e`: a receive takes its front. */
  ghost predicate Moves(e: Exchange, added: seq<Parcel>, q: seq<Parcel>, q': seq<Parcel>) {
    if e.Received?
    then q + added != [] && Sound((q + added)[0]) && Brings(e, (q + added)[0]) && q' == (q + added)[1..]
    else q' == q + added
  }

  /** The exchanges of a log, what the firmware queued on each, and the inbound queue between them. */
  datatype Inbound = Inbound(log: seq<Exchange>, queued: seq<seq<Parcel>>, states: seq<seq<Parcel>>)

  ghost predicate MovesAt(x: Inbound, j: int) {
    && 0 <= j < |x.log| && j < |x.queued| && j + 1 < |x.states|
    && Moves(x.log[j], x.queued[j], x.states[j], x.states[j + 1])
  }

  ghost predicate IsInbound(x: Inbound) {
    && |x.queued| == |x.log| && |x.states| == |x.log| + 1 && x.states[0] == []
    && forall j :: 0 <= j < |x.log| ==> MovesAt(x, j)
  }

  function InboundOf(h: History): Inbound
    requires |h.queued| == |h.log|
  {
    Inbound(h.log, h.queued, seq(|h.log| + 1, j requires 0 <= j <= |h.log| => Pending(h, j)))
  }

  lemma TailOfMore(qs: seq<Parcel>, more: seq<Parcel>, k: nat)
    requires k <= |qs|
    ensures (qs + more)[k..] == qs[k..] + more
    ensures k < |qs + more| ==> (qs[k..] + more)[0] == (qs + more)[k] && (qs[k..] + more)[1..] == (qs + more)[k + 1..]
  {}

  lemma PendingIs(h: History, j: nat)
    requires Played(h) && j <= |h.log| && NoneFailed(h.log, j)
    ensures Receives(h.log, j) <= |QueuedBy(h, j)| && Pending(h, j) == QueuedBy(h, j)[Receives(h.log, j)..]
  {
    LevelHolds(h, j);
  }

  lemma NextIsDelivered(h: History, j: nat)
    requires Played(h) && j < |h.log| && NoneFailed(h.log, j + 1) && h.log[j].Received?
    ensures var k, ps := Receives(h.log, j), QueuedBy(h, j + 1);
      k < |ps| && Sound(ps[k]) && Brings(h.log[j], ps[k])
  {
    LevelHolds(h, j);
    ReceiveTakesNext(h, j);
  }

  /** One exchange of a history is one move of its queue. */
  lemma QueueStep(h: History, j: nat)
    requires Played(h) && j < |h.log| && NoneFailed(h.log, j + 1)
    ensures Moves(h.log[j], h.queued[j], Pending(h, j), Pending(h, j + 1))
  {
    PendingIs(h, j);
    PendingIs(h, j + 1);
    TailOfMore(QueuedBy(h, j), h.queued[j], Receives(h.log, j));
    if h.log[j].Received? {
      NextIsDelivered(h, j);
    }
  }

  /** What the caller receives is what the firmware queued, message by message and in order: the queue is never found empty,
      and each receive is handed its front. */
  lemma HistoryIsInbound(h: History)
    requires Played(h) && NoneFailed(h.log, |h.log|)
    ensures IsInbound(InboundOf(h))
  {
    var x := InboundOf(h);
    forall j | 0 <= j < |x.log|
      ensures MovesAt(x, j)
    {
      QueueStep(h, j);
    }
  }
}
