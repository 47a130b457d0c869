/** The two circular buffers between host and firmware, as a system of steps that interleave freely
    (src/uefi/heci_core.c:89-98, 290-381, 605-628). The host's side of a run is the record its code leaves. */
module HeciRing {
  import opened HeciRegisters

  /** `wr` and `rd` count dwords for ever; the registers show them modulo 256. `put` and `taken` record what
      went in and what came out. */
  datatype Ring = Ring(depth: Byte, slots: seq<Word>, rd: nat, wr: nat, put: seq<Word>, taken: seq<Word>)

  function Empty(depth: Byte, slots: seq<Word>): Ring {
    Ring(depth, slots, 0, 0, [], [])
  }

  /** The hardware stores at the write pointer and advances it, whether or not there is room. */
  function Push(r: Ring, x: Word): Ring
    requires r.depth > 0 && |r.slots| == r.depth
  {
    r.(slots := r.slots[r.wr % r.depth := x], wr := r.wr + 1, put := r.put + [x])
  }

  function Front(r: Ring): Word
    requires r.depth > 0 && |r.slots| == r.depth
  {
    r.slots[r.rd % r.depth]
  }

  /** It also hands out whatever is at the read pointer, even if that was never written. */
  function Pop(r: Ring): Ring
    requires r.depth > 0 && |r.slots| == r.depth
  {
    r.(rd := r.rd + 1, taken := r.taken + [Front(r)])
  }

  predicate Shows(csr: Csr, r: Ring) {
    csr.depth == r.depth && csr.readPointer == r.rd % 0x100 && csr.writePointer == r.wr % 0x100
  }

  /** `h` carries dwords from host to firmware, `m` from firmware to host. */
  datatype Link = Link(h: Ring, m: Ring)

  /** FwReset is a reset that the firmware starts: it empties both rings without asking the host. */
  datatype Step = Host(event: Event) | FwWrite(word: Word) | FwRead | FwReset

  predicate Sized(r: Ring) {
    r.depth > 0 && |r.slots| == r.depth
  }

  predicate LinkSized(l: Link) {
    Sized(l.h) && Sized(l.m)
  }

  /** The host may do anything at any time, but sees the true registers and the true front of the ring; the
      firmware respects its own guards. */
  predicate Enabled(l: Link, s: Step) {
    LinkSized(l) &&
    match s
    case Host(ReadHost(csr)) => Shows(csr, l.h)
    case Host(ReadMe(csr)) => Shows(csr, l.m)
    case Host(ReadData(w)) => w == Front(l.m)
    case Host(_) => true
    case FwWrite(_) => l.m.wr - l.m.rd < l.m.depth
    case FwRead => l.h.rd < l.h.wr
    case FwReset => true
  }

  function Emptied(l: Link): Link {
    Link(Empty(l.h.depth, l.h.slots), Empty(l.m.depth, l.m.slots))
  }

  function Apply(l: Link, s: Step): Link
    requires Enabled(l, s)
  {
    match s
    case Host(WriteData(w)) => l.(h := Push(l.h, w))
    case Host(ReadData(_)) => l.(m := Pop(l.m))
    case Host(WriteHost(csr)) =>
      if csr.reset then Emptied(l) else l
    case Host(_) => l
    case FwWrite(w) => l.(m := Push(l.m, w))
    case FwRead => l.(h := Pop(l.h))
    case FwReset => Emptied(l)
  }

  function HostTrace(run: seq<Step>): Trace {
    if run == [] then [] else
      HostTrace(run[..|run| - 1]) + (match run[|run| - 1] case Host(e) => [e] case _ => [])
  }

  predicate Feasible(start: Link, run: seq<Step>)
    decreases |run|, 0
  {
    run == [] || (Feasible(start, run[..|run| - 1]) && Enabled(After(start, run[..|run| - 1]), run[|run| - 1]))
  }

  function After(start: Link, run: seq<Step>): Link
    requires Feasible(start, run)
    decreases |run|, 1
  {
    if run == [] then start else Apply(After(start, run[..|run| - 1]), run[|run| - 1])
  }

  // ---------- the invariant ----------

  predicate RingOk(r: Ring) {
    && Sized(r)
    && r.rd <= r.wr <= r.rd + r.depth
    && |r.put| == r.wr && r.taken == r.put[..r.rd]
    && (forall i :: r.rd <= i < r.wr ==> r.slots[i % r.depth] == r.put[i])
  }

  /** What the host believes it may move is really there. */
  predicate LinkOk(l: Link, c: Credits) {
    && RingOk(l.h) && RingOk(l.m)
    && c.write <= l.h.depth - (l.h.wr - l.h.rd)
    && c.read <= l.m.wr - l.m.rd
  }

  lemma SlotsApart(a: nat, b: nat, depth: nat)
    requires depth > 0 && a < b < a + depth
    ensures a % depth != b % depth
  {
    var k := b / depth - a / depth;
    assert b - a == k * depth + (b % depth - a % depth) by {
      assert a == depth * (a / depth) + a % depth;
      assert b == depth * (b / depth) + b % depth;
    }
    MultipleAtLeast(k, depth);
    assert k == 0 ==> k * depth == 0;
  }

  lemma PushKeepsOk(r: Ring, x: Word)
    requires RingOk(r) && r.wr - r.rd < r.depth
    ensures RingOk(Push(r, x))
  {
    var p := Push(r, x);
    forall i | p.rd <= i < p.wr
      ensures p.slots[i % p.depth] == p.put[i]
    {
      if i < r.wr {
        SlotsApart(i, r.wr, r.depth);
      }
    }
  }

  lemma PopKeepsOk(r: Ring)
    requires RingOk(r) && r.rd < r.wr
    ensures RingOk(Pop(r))
    ensures Front(r) == r.put[r.rd]
  {}

  lemma HonestCsr(csr: Csr, r: Ring)
    requires RingOk(r) && Shows(csr, r)
    ensures GetFilledSlots(csr) == r.wr - r.rd != CB_OVERFLOW
    ensures Room(csr) == r.depth - (r.wr - r.rd)
  {
    FilledSlotsExact(csr, r.rd, r.wr);
  }

  // ---------- credit over a run ----------

  /** What a step does to the credit the host may still count on. */
  function Allow(c: Credits, s: Step): Credits {
    match s
    case Host(e) => Advance(c, e)
    case FwReset => Credits(0, 0)
    case _ => c
  }

  function RunCredits(run: seq<Step>): Credits {
    if run == [] then Credits(0, 0) else Allow(RunCredits(run[..|run| - 1]), run[|run| - 1])
  }

  /** The host moves no dword but on the strength of a register it has read since the last reset, its own or the
      firmware's. */
  predicate Licensed(run: seq<Step>) {
    run == [] || (
      && Licensed(run[..|run| - 1])
      && (run[|run| - 1].Host? ==> Covered(RunCredits(run[..|run| - 1]), run[|run| - 1].event)))
  }

  /** Where the firmware does not reset, this is the discipline that the host code keeps by itself. */
  lemma {:induction false} DisciplineIsLicense(run: seq<Step>)
    requires FwReset !in run
    ensures Licensed(run) <==> Disciplined(HostTrace(run))
    ensures RunCredits(run) == CreditsAfter(HostTrace(run))
    decreases |run|
  {
    if run == [] {
    } else {
      var before, s := run[..|run| - 1], run[|run| - 1];
      DisciplineIsLicense(before);
      var t := HostTrace(before);
      if s.Host? {
        assert HostTrace(run) == t + [s.event];
        assert (t + [s.event])[..|t|] == t;
      } else {
        assert HostTrace(run) == t;
      }
    }
  }

  /** A reset by the firmware leaves the host with credit that is not there exactly when the host has been told of dwords to
      read: it keeps the invariant if and only if no such credit is open. */
  lemma FirmwareResetExact(l: Link, c: Credits)
    requires LinkOk(l, c)
    ensures LinkOk(Apply(l, FwReset), c) <==> c.read == 0
    ensures LinkOk(Apply(l, FwReset), Allow(c, FwReset))
  {}

  lemma StepKeepsOk(l: Link, c: Credits, s: Step)
    requires LinkOk(l, c) && Enabled(l, s)
    requires s.Host? ==> Covered(c, s.event)
    ensures LinkOk(Apply(l, s), Allow(c, s))
  {
    match s
    case Host(WriteData(w)) => PushKeepsOk(l.h, w);
    case Host(ReadData(_)) => PopKeepsOk(l.m);
    case Host(ReadHost(csr)) => HonestCsr(csr, l.h);
    case Host(ReadMe(csr)) => HonestCsr(csr, l.m);
    case Host(_) =>
    case FwWrite(w) => PushKeepsOk(l.m, w);
    case FwRead => PopKeepsOk(l.h);
    case FwReset => FirmwareResetExact(l, c);
  }

  /** A start of the world: both rings empty. */
  predicate Fresh(l: Link) {
    LinkSized(l) && l == Emptied(l)
  }

  /** The ring invariant holds in every interleaving of a licensed host with the firmware, resets of either side included. */
  lemma {:induction false} RunKeepsOk(start: Link, run: seq<Step>)
    requires Fresh(start) && Feasible(start, run) && Licensed(run)
    ensures LinkOk(After(start, run), RunCredits(run))
    decreases |run|
  {
    if run == [] {
    } else {
      var before := run[..|run| - 1];
      RunKeepsOk(start, before);
      StepKeepsOk(After(start, before), RunCredits(before), run[|run| - 1]);
    }
  }

  lemma {:induction false} PrefixFeasible(start: Link, run: seq<Step>, n: nat)
    requires Feasible(start, run) && n <= |run|
    ensures Feasible(start, run[..n])
    ensures Licensed(run) ==> Licensed(run[..n])
    decreases |run|
  {
    if n == |run| {
      assert run[..n] == run;
    } else {
      var before := run[..|run| - 1];
      PrefixFeasible(start, before, n);
      assert before[..n] == run[..n];
    }
  }

  /** Whatever the interleaving, step `i` of the run finds: a control register that shows the true number of
      filled slots and never the overflow marker; a free slot when the host writes; the next unread dword when
      the host reads. */
  lemma EveryHostStepIsSafe(start: Link, run: seq<Step>, i: nat)
    requires Fresh(start) && Feasible(start, run) && Licensed(run)
    requires i < |run| && run[i].Host?
    ensures Feasible(start, run[..i])
    ensures var l := After(start, run[..i]);
      match run[i].event
      case ReadHost(csr) => GetFilledSlots(csr) == l.h.wr - l.h.rd && Room(csr) == l.h.depth - (l.h.wr - l.h.rd)
      case ReadMe(csr) => GetFilledSlots(csr) == l.m.wr - l.m.rd && GetFilledSlots(csr) <= l.m.depth
      case WriteData(_) => l.h.wr - l.h.rd < l.h.depth
      case ReadData(w) => l.m.rd < l.m.wr == |l.m.put| && w == l.m.put[l.m.rd]
      case _ => true
  {
    PrefixFeasible(start, run, i);
    PrefixFeasible(start, run, i + 1);
    var before := run[..i];
    assert run[..i + 1][..i] == before;
    RunKeepsOk(start, before);
    var l := After(start, before);
    match run[i].event
    case ReadHost(csr) => HonestCsr(csr, l.h);
    case ReadMe(csr) => HonestCsr(csr, l.m);
    case ReadData(w) => PopKeepsOk(l.m);
    case _ =>
  }

  /** First in, first out, on both rings, in every interleaving. */
  lemma RingsAreFifo(start: Link, run: seq<Step>)
    requires Fresh(start) && Feasible(start, run) && Licensed(run)
    ensures var l := After(start, run);
      && l.h.taken <= l.h.put && l.m.taken <= l.m.put
      && l.h.wr - l.h.rd <= l.h.depth && l.m.wr - l.m.rd <= l.m.depth
  {
    RunKeepsOk(start, run);
  }

  predicate IsReset(s: Step) {
    s.FwReset? || (s.Host? && s.event.WriteHost? && s.event.csr.reset)
  }

  /** No reset by either side from step `n` on. */
  predicate NoResetSince(run: seq<Step>, n: nat) {
    forall i :: n <= i < |run| ==> !IsReset(run[i])
  }

  /** What the host wrote and read between two points is what its ring took in and gave out; the other ring only grew. */
  predicate Grown(l: Link, t: Trace, l': Link, t': Trace) {
    && t <= t' && WordsRead(t) <= WordsRead(t') && WordsWritten(t) <= WordsWritten(t')
    && l'.m.taken == l.m.taken + WordsRead(t')[|WordsRead(t)|..]
    && l'.h.put == l.h.put + WordsWritten(t')[|WordsWritten(t)|..]
    && l.m.put <= l'.m.put && l.h.taken <= l'.h.taken
  }

  function Traced(t: Trace, s: Step): Trace {
    if s.Host? then t + [s.event] else t
  }

  lemma TraceOneMore(run: seq<Step>)
    requires run != []
    ensures HostTrace(run) == Traced(HostTrace(run[..|run| - 1]), run[|run| - 1])
  {}

  lemma StepGrows(l: Link, t: Trace, s: Step)
    requires Enabled(l, s) && !IsReset(s)
    ensures Grown(l, t, Apply(l, s), Traced(t, s))
  {
    if s.Host? {
      assert (t + [s.event])[..|t|] == t;
    }
  }

  lemma JoinTails(p: seq<Word>, q: seq<Word>, r: seq<Word>, a: seq<Word>, b: seq<Word>, c: seq<Word>)
    requires a <= b <= c && q == p + b[|a|..] && r == q + c[|b|..]
    ensures a <= c && r == p + c[|a|..]
  {
    assert c == b + c[|b|..];
    assert c[|a|..] == b[|a|..] + c[|b|..];
  }

  lemma GrownTwice(l: Link, t: Trace, l': Link, t': Trace, l'': Link, t'': Trace)
    requires Grown(l, t, l', t') && Grown(l', t', l'', t'')
    ensures Grown(l, t, l'', t'')
  {
    JoinTails(l.m.taken, l'.m.taken, l''.m.taken, WordsRead(t), WordsRead(t'), WordsRead(t''));
    JoinTails(l.h.put, l'.h.put, l''.h.put, WordsWritten(t), WordsWritten(t'), WordsWritten(t''));
  }

  /** From any point of a run on to its end, without a reset in between. */
  lemma {:induction false} LogsGrow(start: Link, run: seq<Step>, n: nat)
    requires Feasible(start, run) && n <= |run| && NoResetSince(run, n)
    ensures Feasible(start, run[..n])
    ensures Grown(After(start, run[..n]), HostTrace(run[..n]), After(start, run), HostTrace(run))
    decreases |run|
  {
    PrefixFeasible(start, run, n);
    if n == |run| {
      assert run[..n] == run;
    } else {
      var before, s := run[..|run| - 1], run[|run| - 1];
      assert before[..n] == run[..n];
      LogsGrow(start, before, n);
      StepGrows(After(start, before), HostTrace(before), s);
      TraceOneMore(run);
      GrownTwice(After(start, run[..n]), HostTrace(run[..n]), After(start, before), HostTrace(before),
                 After(start, run), HostTrace(run));
    }
  }

  /** Without a reset, the ring's record of the host's dwords is the host's own. */
  lemma LogsAgree(start: Link, run: seq<Step>)
    requires Fresh(start) && Feasible(start, run) && NoResetSince(run, 0)
    ensures After(start, run).h.put == WordsWritten(HostTrace(run))
    ensures After(start, run).m.taken == WordsRead(HostTrace(run))
  {
    LogsGrow(start, run, 0);
    assert run[..0] == [];
  }

  /** Once the firmware has taken as many dwords as the host wrote, it has taken exactly those, in order; and the host
      has read a prefix of what the firmware wrote. */
  lemma EndToEnd(start: Link, run: seq<Step>)
    requires Fresh(start) && Feasible(start, run) && Licensed(run) && NoResetSince(run, 0)
    ensures var l := After(start, run);
      && l.h.taken <= WordsWritten(HostTrace(run))
      && (|l.h.taken| == |WordsWritten(HostTrace(run))| ==> l.h.taken == WordsWritten(HostTrace(run)))
      && WordsRead(HostTrace(run)) <= l.m.put
  {
    RunKeepsOk(start, run);
    LogsAgree(start, run);
  }
}
