/** What the loops of src/uefi/heci_core.c leave on the record of register accesses, piece by piece, and the wait for the
    firmware to be ready. */
module HeciPolling {
  import opened HeciRegisters

  const INIT_STALLS: nat := 15_000
  const IO_STALLS: nat := 5_000

  /** Microseconds of `n` stalls, and the stalls that fit a budget. */
  function Micros(n: int): int {
    1000 * n
  }

  function Steps(timeout: nat): nat {
    timeout / 1000
  }

  lemma StepsBound(n: int, timeout: nat)
    requires Micros(n) <= timeout
    ensures n <= Steps(timeout)
    ensures timeout < Micros(n) + TIMER_STEP ==> n == Steps(timeout)
  {}

  /** How concatenations regroup. */
  lemma Inside<T>(a: seq<T>, b: seq<T>, c: seq<T>, d: seq<T>, e: seq<T>)
    ensures a + (b + c) + d + e == a + (b + (c + d + e))
  {}

  lemma Nested<T>(a: seq<T>, b: seq<T>, c: seq<T>, d: seq<T>, e: seq<T>)
    ensures a + b + c + d + e == a + (b + c + (d + e))
  {}

  lemma Behind<T>(a: seq<T>, b: seq<T>, c: seq<T>, d: seq<T>)
    ensures a + b + c + d == a + (b + c + d)
  {}

  /** Looks at a control register, each followed by a stall. */
  function Polled(looks: seq<Csr>): Trace {
    if looks == [] then [] else Polled(looks[..|looks| - 1]) + [ReadMe(looks[|looks| - 1]), Stall]
  }

  function PolledHost(looks: seq<Csr>): Trace {
    if looks == [] then [] else PolledHost(looks[..|looks| - 1]) + [ReadHost(looks[|looks| - 1]), Stall]
  }

  /** One more look, whether the stall comes before it or after it. */
  lemma PollMore(before: Trace, looks: seq<Csr>, look: Csr)
    ensures before + Polled(looks) + [ReadMe(look)] + [Stall] == before + Polled(looks + [look])
    ensures before + PolledHost(looks) + [ReadHost(look)] + [Stall] == before + PolledHost(looks + [look])
  {
    assert (looks + [look])[..|looks|] == looks;
  }

  /** The dwords taken out of the data window. */
  function Taken(words: seq<Word>): Trace {
    if words == [] then [] else Taken(words[..|words| - 1]) + [ReadData(words[|words| - 1])]
  }

  lemma TakeMore(before: Trace, words: seq<Word>, word: Word)
    ensures before + Taken(words) + [ReadData(word)] == before + Taken(words + [word])
  {
    assert (words + [word])[..|words|] == words;
  }

  /** The dwords that `t` takes, and its stalls; it writes none. */
  predicate Moves(t: Trace, taken: seq<Word>, stalls: nat) {
    WordsRead(t) == taken && WordsWritten(t) == [] && Stalls(t) == stalls
  }

  lemma {:induction false} CountsJoin(s: Trace, t: Trace)
    ensures WordsRead(s + t) == WordsRead(s) + WordsRead(t) && WordsWritten(s + t) == WordsWritten(s) + WordsWritten(t)
    ensures Stalls(s + t) == Stalls(s) + Stalls(t)
  {
    if t == [] {
      assert s + t == s;
    } else {
      assert (s + t)[..|s + t| - 1] == s + t[..|t| - 1];
      CountsJoin(s, t[..|t| - 1]);
    }
  }

  lemma MovesJoin(s: Trace, t: Trace, taken: seq<Word>, more: seq<Word>, stalls: nat, longer: nat)
    requires Moves(s, taken, stalls) && Moves(t, more, longer)
    ensures Moves(s + t, taken + more, stalls + longer)
  {
    CountsJoin(s, t);
  }

  lemma OneMoves(e: Event)
    requires !e.WriteData?
    ensures Moves([e], if e.ReadData? then [e.word] else [], if e.Stall? then 1 else 0)
  {
    assert [e][..0] == [];
  }

  lemma {:induction false} TakenMoves(words: seq<Word>)
    ensures Moves(Taken(words), words, 0)
  {
    if words != [] {
      var fewer, last := words[..|words| - 1], words[|words| - 1];
      TakenMoves(fewer);
      OneMoves(ReadData(last));
      MovesJoin(Taken(fewer), [ReadData(last)], fewer, [last], 0, 0);
      assert words == fewer + [last];
    }
  }

  lemma LookMoves(look: Csr)
    ensures Moves([ReadMe(look), Stall], [], 1)
  {
    OneMoves(ReadMe(look));
    OneMoves(Stall);
    MovesJoin([ReadMe(look)], [Stall], [], [], 0, 1);
    assert [ReadMe(look)] + [Stall] == [ReadMe(look), Stall];
  }

  lemma {:induction false} PolledMoves(looks: seq<Csr>)
    ensures Moves(Polled(looks), [], |looks|)
  {
    if looks != [] {
      var fewer, last := looks[..|looks| - 1], looks[|looks| - 1];
      PolledMoves(fewer);
      LookMoves(last);
      MovesJoin(Polled(fewer), [ReadMe(last), Stall], [], [], |fewer|, 1);
    }
  }

  // ---------- is the firmware up? ----------

  /** A look that decides nothing: neither in reset nor ready. */
  predicate Undecided(c: Csr) {
    !c.reset && !c.ready
  }

  predicate AllUndecided(looks: seq<Csr>) {
    forall i :: 0 <= i < |looks| ==> Undecided(looks[i])
  }

  /** The three ends of the wait for the firmware. */
  datatype Wait = Up(idle: seq<Csr>, last: Csr) | InReset(idle: seq<Csr>, last: Csr) | NeverUp(idle: seq<Csr>)

  function WaitAccesses(w: Wait): Trace {
    Polled(w.idle) + (if w.NeverUp? then [] else [ReadMe(w.last)])
  }

  /** The looks the loop can make before its budget is used up: it goes on while more than one step is left. */
  function LooksIn(timeout: Word): nat {
    if timeout <= TIMER_STEP then 0 else Steps(timeout - 1)
  }

  predicate Waits(w: Wait, timeout: Word) {
    && AllUndecided(w.idle)
    && match w
       case Up(_, last) => |w.idle| < LooksIn(timeout) && last.ready && !last.reset
       case InReset(_, last) => |w.idle| < LooksIn(timeout) && last.reset
       case NeverUp(_) => |w.idle| == LooksIn(timeout)
  }

  /** `after` is `before` and a wait that has come to its end. */
  predicate WaitLeaves(before: Trace, after: Trace, w: Wait, timeout: Word) {
    after == before + WaitAccesses(w) && Waits(w, timeout)
  }

  /** The wait goes on, with `left` microseconds to go. */
  predicate Waiting(before: Trace, now: Trace, looks: seq<Csr>, timeout: Word, left: Word) {
    && now == before + Polled(looks) && AllUndecided(looks)
    && Micros(|looks|) == timeout - left && (left == timeout || left > 0)
  }

  lemma WaitGoesOn(before: Trace, now: Trace, looks: seq<Csr>, look: Csr, timeout: Word, left: Word)
    requires Waiting(before, now, looks, timeout, left) && left > TIMER_STEP && Undecided(look)
    ensures Waiting(before, now + [ReadMe(look)] + [Stall], looks + [look], timeout, left - TIMER_STEP)
  {
    PollMore(before, looks, look);
  }

  lemma WaitIsOver(before: Trace, now: Trace, looks: seq<Csr>, timeout: Word, left: Word)
    requires Waiting(before, now, looks, timeout, left) && left <= TIMER_STEP
    ensures WaitLeaves(before, now, NeverUp(looks), timeout)
  {
    if timeout > TIMER_STEP {
      StepsBound(|looks|, timeout - 1);
    }
  }

  lemma WaitEnds(before: Trace, now: Trace, looks: seq<Csr>, look: Csr, timeout: Word, left: Word)
    requires Waiting(before, now, looks, timeout, left) && left > TIMER_STEP
    ensures look.reset ==> WaitLeaves(before, now + [ReadMe(look)], InReset(looks, look), timeout)
    ensures !look.reset && look.ready ==> WaitLeaves(before, now + [ReadMe(look)], Up(looks, look), timeout)
  {
    StepsBound(|looks| + 1, timeout - 1);
  }

  lemma WaitCounts(before: Trace, after: Trace, w: Wait, timeout: Word)
    requires WaitLeaves(before, after, w, timeout)
    ensures WordsWritten(after) == WordsWritten(before) && WordsRead(after) == WordsRead(before)
    ensures Stalls(after) == Stalls(before) + |w.idle|
  {
    PolledMoves(w.idle);
    if w.NeverUp? {
      CountsJoin(before, Polled(w.idle));
      assert Polled(w.idle) + [] == Polled(w.idle);
    } else {
      OneMoves(ReadMe(w.last));
      MovesJoin(Polled(w.idle), [ReadMe(w.last)], [], [], |w.idle|, 0);
      CountsJoin(before, Polled(w.idle) + [ReadMe(w.last)]);
    }
  }

  /** Nothing moved from `before` to `after`, and no more than `stalls` were waited. */
  predicate Still(before: Trace, after: Trace, stalls: nat) {
    && WordsWritten(after) == WordsWritten(before) && WordsRead(after) == WordsRead(before)
    && Stalls(after) <= Stalls(before) + stalls
  }

  lemma ProbeIsStill(before: Trace, ok: bool)
    ensures Still(before, before + [Probe(ok)], 0)
  {
    OneMoves(Probe(ok));
    CountsJoin(before, [Probe(ok)]);
  }

  lemma ProbedWaitIsStill(before: Trace, w: Wait, blocking: bool)
    requires Waits(w, if blocking then INIT_TIMEOUT else 0)
    ensures Still(before, before + [Probe(true)] + WaitAccesses(w), INIT_STALLS - 1)
  {
    ProbeIsStill(before, true);
    WaitCounts(before + [Probe(true)], before + [Probe(true)] + WaitAccesses(w), w, if blocking then INIT_TIMEOUT else 0);
  }
}
