/** What a receive leaves on the record of register accesses, and which end it comes to: read off the values that the
    firmware showed, and off nothing else. The caller's buffer and its size occur in none of it. */
module HeciReadings {
  import opened HeciRegisters
  import opened HeciPackets
  import opened HeciPolling

  // ---------- reading one packet ----------

  predicate AllEmpty(looks: seq<Csr>) {
    forall i :: 0 <= i < |looks| ==> GetFilledSlots(looks[i]) == 0
  }

  predicate AllShort(looks: seq<Csr>, dwords: nat) {
    forall i :: 0 <= i < |looks| ==> GetFilledSlots(looks[i]) < dwords
  }

  /** The accesses that end a packet read. Ready=0 means the firmware was reset while the packet was being read;
      otherwise the interrupt is acknowledged if the ring has been emptied. */
  predicate FinishTrace(t: Trace, ready: bool) {
    && |t| >= 1 && t[0].ReadMe? && ready == t[0].csr.ready
    && (!ready ==> |t| == 1)
    && (ready ==>
          && |t| >= 2 && t[1].ReadMe?
          && (GetFilledSlots(t[1].csr) != 0 ==> |t| == 2)
          && (GetFilledSlots(t[1].csr) == 0 ==>
                |t| == 5 && t[2].ReadHost? && t[4].ReadHost?
                && t[3] == WriteHost(t[2].csr.(intGenerate := true, intStatus := true))))
  }

  /** The ends a packet read can come to. `Arrived` is the one it goes on from: the whole packet is in the ring. */
  datatype Ending =
    | Empty
    | Overflowed
    | TooDeep(word: Word)
    | Short(word: Word, waits: seq<Csr>, last: Csr)
    | Arrived(word: Word, waits: seq<Csr>)
    | Read(word: Word, waits: seq<Csr>, payload: seq<Word>, finish: Trace, up: bool)

  /** The looks at an empty ring, the look that was followed by something else, and what that was. */
  datatype Reading = Reading(empty: seq<Csr>, look: Csr, ending: Ending)

  function EndingAccesses(e: Ending): Trace {
    match e
    case Empty | Overflowed => []
    case TooDeep(word) => [ReadData(word)]
    case Short(word, waits, last) => [ReadData(word)] + Polled(waits) + [ReadMe(last)]
    case Arrived(word, waits) => [ReadData(word)] + Polled(waits)
    case Read(word, waits, payload, finish, _) => [ReadData(word)] + Polled(waits) + Taken(payload) + finish
  }

  function ReadingAccesses(r: Reading): Trace {
    Polled(r.empty) + [ReadMe(r.look)] + EndingAccesses(r.ending)
  }

  function DwordsOf(word: Word): nat {
    Dwords(UnpackHeader(word).length)
  }

  /** Looks at the ring until the packet is whole: all are short but the last. */
  predicate WaitedFor(waits: seq<Csr>, dwords: nat) {
    && 0 < |waits| <= IO_STALLS && AllShort(waits[..|waits| - 1], dwords)
    && GetFilledSlots(waits[|waits| - 1]) >= dwords
  }

  /** The packet of a reading that took one out. */
  function PacketOf(r: Reading): Packet {
    Packet(if r.ending.Read? then UnpackHeader(r.ending.word) else Header(0, 0, 0, 0, false), PayloadOf(r.ending))
  }

  function PayloadOf(e: Ending): seq<Word> {
    if e.Read? then e.payload else []
  }

  /** The cause of each ending, in what the registers and the header showed. */
  predicate Causes(look: Csr, e: Ending) {
    match e
    case Empty => GetFilledSlots(look) == 0
    case Overflowed => GetFilledSlots(look) == CB_OVERFLOW
    case TooDeep(word) => DwordsOf(word) > look.depth
    case Short(word, waits, _) => DwordsOf(word) <= look.depth && |waits| == IO_STALLS && AllShort(waits, DwordsOf(word))
    case Arrived(word, waits) => DwordsOf(word) <= look.depth && WaitedFor(waits, DwordsOf(word))
    case Read(word, waits, payload, finish, up) =>
      DwordsOf(word) <= look.depth && WaitedFor(waits, DwordsOf(word)) && |payload| == DwordsOf(word) && FinishTrace(finish, up)
  }

  predicate Reads(r: Reading, timeout: Word) {
    && AllEmpty(r.empty) && |r.empty| <= Steps(timeout)
    && Causes(r.look, r.ending)
    && if r.ending.Empty? then |r.empty| == Steps(timeout) else
       r.ending.Overflowed? || (GetFilledSlots(r.look) != 0 && GetFilledSlots(r.look) != CB_OVERFLOW)
  }

  /** The status each ending has: the caller's buffer matters to a packet read to its end, and only between the two
      statuses that keep it. */
  function ReadStatus(e: Ending, timeout: Word, space: Word): EfiStatus {
    match e
    case Empty => if timeout == 0 then NoResponse else Timeout
    case Overflowed | TooDeep(_) => DeviceError
    case Short(_, _, _) => Timeout
    case Arrived(_, _) => Success
    case Read(word, _, _, _, up) =>
      if !up then NotReady else if UnpackHeader(word).length <= space then Success else BufferTooSmall
  }

  lemma StatusTells(e: Ending, timeout: Word, space: Word)
    requires !e.Arrived?
    ensures var status := ReadStatus(e, timeout, space);
      && (status == Success || status == BufferTooSmall <==> e.Read? && e.up)
      && (status == NoResponse <==> e.Empty? && timeout == 0)
  {}

  predicate ReadLeaves(before: Trace, after: Trace, r: Reading, timeout: Word) {
    after == before + ReadingAccesses(r) && Reads(r, timeout)
  }

  /** The wait for a first dword: `left` microseconds to go, and the last look taken. */
  predicate Looking(before: Trace, now: Trace, empty: seq<Csr>, look: Csr, timeout: Word, left: Word) {
    && now == before + Polled(empty) + [ReadMe(look)] && AllEmpty(empty)
    && Micros(|empty|) == timeout - left
  }

  lemma LookAgain(before: Trace, now: Trace, empty: seq<Csr>, look: Csr, next: Csr, timeout: Word, left: Word)
    requires Looking(before, now, empty, look, timeout, left) && left >= TIMER_STEP && GetFilledSlots(look) == 0
    ensures Looking(before, now + [Stall] + [ReadMe(next)], empty + [look], next, timeout, left - TIMER_STEP)
  {
    PollMore(before, empty, look);
  }

  /** The wait is over: something is in the ring, or the budget is used up, or there was none. */
  predicate Looked(before: Trace, after: Trace, empty: seq<Csr>, look: Csr, timeout: Word) {
    && after == before + Polled(empty) + [ReadMe(look)] && AllEmpty(empty) && |empty| <= Steps(timeout)
    && (GetFilledSlots(look) == 0 ==> |empty| == Steps(timeout))
  }

  lemma LookIsOver(before: Trace, now: Trace, empty: seq<Csr>, look: Csr, timeout: Word, left: Word)
    requires Looking(before, now, empty, look, timeout, left)
    requires GetFilledSlots(look) != 0 || left < TIMER_STEP
    ensures Looked(before, now, empty, look, timeout)
  {
    StepsBound(|empty|, timeout);
  }

  lemma NothingToRead(before: Trace, now: Trace, empty: seq<Csr>, look: Csr, timeout: Word)
    requires Looked(before, now, empty, look, timeout)
    ensures GetFilledSlots(look) == 0 ==> ReadLeaves(before, now, Reading(empty, look, Empty), timeout)
    ensures GetFilledSlots(look) == CB_OVERFLOW ==> ReadLeaves(before, now, Reading(empty, look, Overflowed), timeout)
  {
    assert now == before + (Polled(empty) + [ReadMe(look)] + []);
  }

  lemma HeaderTooDeep(before: Trace, now: Trace, empty: seq<Csr>, look: Csr, timeout: Word, word: Word)
    requires Looked(before, now, empty, look, timeout) && GetFilledSlots(look) != 0 && GetFilledSlots(look) != CB_OVERFLOW
    requires DwordsOf(word) > look.depth
    ensures ReadLeaves(before, now + [ReadData(word)], Reading(empty, look, TooDeep(word)), timeout)
  {
    assert now + [ReadData(word)] == before + (Polled(empty) + [ReadMe(look)] + [ReadData(word)]);
  }

  /** The wait for the rest of the packet behind its header `word`. A look is compared only after the stall, so the last
      one of a wait that runs out is not. */
  predicate WholeLeaves(before: Trace, after: Trace, word: Word, e: Ending) {
    match e
    case Arrived(w, waits) => w == word && after == before + Polled(waits) && WaitedFor(waits, DwordsOf(word))
    case Short(w, waits, last) =>
      && w == word && after == before + Polled(waits) + [ReadMe(last)]
      && |waits| == IO_STALLS && AllShort(waits, DwordsOf(word))
    case _ => false
  }

  lemma NeverWhole(before: Trace, now: Trace, waits: seq<Csr>, look: Csr, word: Word, left: Word)
    requires WaitingForWhole(before, now, waits, DwordsOf(word), true, left) && left < TIMER_STEP
    ensures WholeLeaves(before, now + [ReadMe(look)], word, Short(word, waits, look))
  {}

  predicate WaitingForWhole(before: Trace, now: Trace, waits: seq<Csr>, dwords: nat, waiting: bool, left: Word) {
    && now == before + Polled(waits) && Micros(|waits|) == READ_TIMEOUT - left
    && if waiting then AllShort(waits, dwords) else WaitedFor(waits, dwords)
  }

  lemma StillNotWhole(before: Trace, now: Trace, waits: seq<Csr>, look: Csr, dwords: nat, left: Word)
    requires WaitingForWhole(before, now, waits, dwords, true, left) && left >= TIMER_STEP
    ensures WaitingForWhole(before, now + [ReadMe(look)] + [Stall], waits + [look], dwords,
                            GetFilledSlots(look) < dwords, left - TIMER_STEP)
  {
    PollMore(before, waits, look);
    assert (waits + [look])[..|waits|] == waits;
  }

  lemma HeaderRead(before: Trace, now: Trace, empty: seq<Csr>, look: Csr, timeout: Word, word: Word,
                   after: Trace, e: Ending)
    requires Looked(before, now, empty, look, timeout) && GetFilledSlots(look) != 0 && GetFilledSlots(look) != CB_OVERFLOW
    requires DwordsOf(word) <= look.depth
    requires WholeLeaves(now + [ReadData(word)], after, word, e)
    ensures ReadLeaves(before, after, Reading(empty, look, e), timeout)
  {
    var head, rest := Polled(empty) + [ReadMe(look)], [ReadData(word)] + Polled(e.waits);
    if e.Arrived? {
      assert after == before + (head + rest);
    } else {
      assert after == before + (head + (rest + [ReadMe(e.last)]));
    }
  }

  lemma ReadToItsEnd(before: Trace, now: Trace, r: Reading, timeout: Word, payload: seq<Word>, finish: Trace, up: bool)
    requires ReadLeaves(before, now, r, timeout) && r.ending.Arrived?
    requires |payload| == DwordsOf(r.ending.word) && FinishTrace(finish, up)
    ensures ReadLeaves(before, now + Taken(payload) + finish,
                       r.(ending := Read(r.ending.word, r.ending.waits, payload, finish, up)), timeout)
  {
    var head, rest := Polled(r.empty) + [ReadMe(r.look)], [ReadData(r.ending.word)] + Polled(r.ending.waits);
    Inside(before, head, rest, Taken(payload), finish);
  }

  /** The dwords a reading took. */
  function WordsOf(e: Ending): seq<Word> {
    match e
    case Empty | Overflowed => []
    case TooDeep(word) => [word]
    case Short(word, _, _) => [word]
    case Arrived(word, _) => [word]
    case Read(word, _, payload, _, _) => [word] + payload
  }

  lemma {:induction false} QuietMoves(t: Trace)
    requires forall i :: 0 <= i < |t| ==> t[i].ReadMe? || t[i].ReadHost? || t[i].WriteHost?
    ensures Moves(t, [], 0)
  {
    if t != [] {
      QuietMoves(t[..|t| - 1]);
    }
  }

  function StallsOf(e: Ending): nat {
    if e.Empty? || e.Overflowed? || e.TooDeep? then 0 else |e.waits|
  }

  lemma HeadMoves(word: Word, waits: seq<Csr>)
    ensures Moves([ReadData(word)] + Polled(waits), [word], |waits|)
  {
    OneMoves(ReadData(word));
    PolledMoves(waits);
    MovesJoin([ReadData(word)], Polled(waits), [word], [], 0, |waits|);
  }

  lemma ShortMoves(word: Word, waits: seq<Csr>, last: Csr)
    ensures Moves([ReadData(word)] + Polled(waits) + [ReadMe(last)], [word], |waits|)
  {
    HeadMoves(word, waits);
    OneMoves(ReadMe(last));
    MovesJoin([ReadData(word)] + Polled(waits), [ReadMe(last)], [word], [], |waits|, 0);
    assert [word] + [] == [word];
  }

  lemma ThreeMove(head: Trace, body: Trace, tail: Trace, taken: seq<Word>, more: seq<Word>, stalls: nat)
    requires Moves(head, taken, stalls) && Moves(body, more, 0) && Moves(tail, [], 0)
    ensures Moves(head + body + tail, taken + more, stalls)
  {
    MovesJoin(head, body, taken, more, stalls, 0);
    CountsJoin(head + body, tail);
  }

  lemma FinishMoves(finish: Trace, up: bool)
    requires FinishTrace(finish, up)
    ensures Moves(finish, [], 0)
  {
    QuietMoves(finish);
  }

  lemma ReadMoves(word: Word, waits: seq<Csr>, payload: seq<Word>, finish: Trace)
    requires Moves(finish, [], 0)
    ensures Moves([ReadData(word)] + Polled(waits) + Taken(payload) + finish, [word] + payload, |waits|)
  {
    HeadMoves(word, waits);
    TakenMoves(payload);
    ThreeMove([ReadData(word)] + Polled(waits), Taken(payload), finish, [word], payload, |waits|);
  }

  lemma EndingMoves(look: Csr, e: Ending)
    requires Causes(look, e)
    ensures Moves(EndingAccesses(e), WordsOf(e), StallsOf(e)) && StallsOf(e) <= IO_STALLS
  {
    match e
    case Empty =>
    case Overflowed =>
    case TooDeep(word) => OneMoves(ReadData(word));
    case Arrived(word, waits) => HeadMoves(word, waits);
    case Short(word, waits, last) => ShortMoves(word, waits, last);
    case Read(word, waits, payload, finish, up) =>
      FinishMoves(finish, up);
      ReadMoves(word, waits, payload, finish);
  }

  lemma ReadingMoves(r: Reading, timeout: Word)
    requires Reads(r, timeout)
    ensures Moves(ReadingAccesses(r), WordsOf(r.ending), |r.empty| + StallsOf(r.ending))
  {
    PolledMoves(r.empty);
    OneMoves(ReadMe(r.look));
    MovesJoin(Polled(r.empty), [ReadMe(r.look)], [], [], |r.empty|, 0);
    EndingMoves(r.look, r.ending);
    MovesJoin(Polled(r.empty) + [ReadMe(r.look)], EndingAccesses(r.ending), [], WordsOf(r.ending), |r.empty|, StallsOf(r.ending));
    assert [] + WordsOf(r.ending) == WordsOf(r.ending);
  }

  lemma ReadCounts(before: Trace, after: Trace, r: Reading, timeout: Word)
    requires ReadLeaves(before, after, r, timeout)
    ensures WordsRead(after) == WordsRead(before) + WordsOf(r.ending) && WordsWritten(after) == WordsWritten(before)
    ensures Stalls(after) <= Stalls(before) + Steps(timeout) + IO_STALLS
  {
    ReadingMoves(r, timeout);
    EndingMoves(r.look, r.ending);
    CountsJoin(before, ReadingAccesses(r));
  }

  // ---------- receiving a message ----------

  function ReadingsAccesses(rs: seq<Reading>): Trace {
    if rs == [] then [] else ReadingsAccesses(rs[..|rs| - 1]) + ReadingAccesses(rs[|rs| - 1])
  }

  function PacketsOf(rs: seq<Reading>): seq<Packet> {
    seq(|rs|, i requires 0 <= i < |rs| => PacketOf(rs[i]))
  }

  /** A packet read to its end, with the firmware still up. */
  predicate Whole(r: Reading) {
    r.ending.Read? && r.ending.up
  }

  predicate GoesOn(r: Reading) {
    Whole(r) && !PacketOf(r).header.complete && Reads(r, READ_TIMEOUT)
  }

  /** A reading that ends a receive: the last packet, or one that could not be read to its end. */
  predicate EndsIt(r: Reading) {
    !r.ending.Arrived? && (Whole(r) ==> PacketOf(r).header.complete) && Reads(r, READ_TIMEOUT)
  }

  predicate AllGoOn(rs: seq<Reading>) {
    forall i :: 0 <= i < |rs| ==> GoesOn(rs[i])
  }

  predicate Receiving(before: Trace, now: Trace, rs: seq<Reading>) {
    now == before + ReadingsAccesses(rs) && AllGoOn(rs)
  }

  predicate ReadingsHold(rs: seq<Reading>) {
    rs != [] && AllGoOn(rs[..|rs| - 1]) && EndsIt(rs[|rs| - 1])
  }

  predicate ReadingsLeave(before: Trace, after: Trace, rs: seq<Reading>) {
    after == before + ReadingsAccesses(rs) && ReadingsHold(rs)
  }

  lemma ReadingMore(before: Trace, now: Trace, after: Trace, rs: seq<Reading>, r: Reading)
    requires Receiving(before, now, rs) && ReadLeaves(now, after, r, READ_TIMEOUT) && !r.ending.Arrived?
    ensures if GoesOn(r) then Receiving(before, after, rs + [r]) else ReadingsLeave(before, after, rs + [r])
  {
    assert (rs + [r])[..|rs|] == rs;
    Associates(before, ReadingsAccesses(rs), ReadingAccesses(r));
  }

  predicate Unfinished(ps: seq<Packet>) {
    forall i :: 0 <= i < |ps| ==> WellFormed(ps[i]) && !ps[i].header.complete
  }

  lemma OneMore(ps: seq<Packet>, p: Packet, rx: Rx, size: Word)
    requires Unfinished(ps) && WellFormed(p) && size <= |rx.buf|
    ensures if p.header.complete then IsMessage(ps + [p]) else Unfinished(ps + [p])
    ensures Reassemble(rx, size, ps + [p]) == RxStep(Reassemble(rx, size, ps), size, p)
  {
    MessageGrows(ps, p);
    ReassembleAppend(rx, size, ps, p);
  }

  lemma MessageGrows(ps: seq<Packet>, p: Packet)
    requires Unfinished(ps) && WellFormed(p)
    ensures if p.header.complete then IsMessage(ps + [p]) else Unfinished(ps + [p])
  {}

  /** What the loop has put together: the packets of all readings so far, in order. */
  predicate Assembled(start: seq<Byte>, buf: seq<Byte>, size: Word, total: Word, packets: seq<Packet>) {
    size <= |start| && Rx(buf, total) == Reassemble(Rx(start, 0), size, packets)
  }

  predicate Gathering(start: seq<Byte>, buf: seq<Byte>, size: Word, total: Word, rs: seq<Reading>) {
    Unfinished(PacketsOf(rs)) && Assembled(start, buf, size, total, PacketsOf(rs))
  }

  predicate Gathered(start: seq<Byte>, buf: seq<Byte>, size: Word, total: Word, rs: seq<Reading>) {
    IsMessage(PacketsOf(rs)) && Assembled(start, buf, size, total, PacketsOf(rs))
  }

  lemma GatherMore(start: seq<Byte>, before: seq<Byte>, after: seq<Byte>, size: Word, total: Word, total': Word,
                   rs: seq<Reading>, r: Reading)
    requires Gathering(start, before, size, total, rs)
    requires size <= |before| && Rx(after, total') == RxStep(Rx(before, total), size, PacketOf(r))
    requires Whole(r) && Reads(r, READ_TIMEOUT)
    ensures if PacketOf(r).header.complete then Gathered(start, after, size, total', rs + [r])
            else Gathering(start, after, size, total', rs + [r])
  {
    assert PacketsOf(rs + [r]) == PacketsOf(rs) + [PacketOf(r)];
    OneMore(PacketsOf(rs), PacketOf(r), Rx(start, 0), size);
  }

  /** Where the receive loop stands between two readings; `over` when the last one was marked complete. */
  predicate Progress(before: Trace, now: Trace, start: seq<Byte>, buf: seq<Byte>, size: Word, total: Word, rs: seq<Reading>, over: bool) {
    if over then
      ReadingsLeave(before, now, rs) && Whole(rs[|rs| - 1]) && Gathered(start, buf, size, total, rs)
    else
      Receiving(before, now, rs) && Gathering(start, buf, size, total, rs)
  }

  lemma MoreProgress(before: Trace, now: Trace, after: Trace, start: seq<Byte>, buf: seq<Byte>, buf': seq<Byte>, size: Word,
                     total: Word, total': Word, rs: seq<Reading>, r: Reading)
    requires Progress(before, now, start, buf, size, total, rs, false)
    requires ReadLeaves(now, after, r, READ_TIMEOUT) && !r.ending.Arrived?
    requires size <= |buf| && (Whole(r) ==> Rx(buf', total') == RxStep(Rx(buf, total), size, PacketOf(r)))
    ensures Whole(r) ==> Progress(before, after, start, buf', size, total', rs + [r], PacketOf(r).header.complete)
    ensures !Whole(r) ==> ReadingsLeave(before, after, rs + [r])
  {
    ReadingMore(before, now, after, rs, r);
    if Whole(r) {
      GatherMore(start, buf, buf', size, total, total', rs, r);
    }
  }

  lemma FlattenOneMore(ps: seq<Packet>, p: Packet)
    ensures Flatten(ps + [p]) == Flatten(ps) + ([PackHeader(p.header)] + p.payload)
  {
    FlattenAppend(ps, [p]);
    assert [p][1..] == [];
    assert Flatten([p]) == [PackHeader(p.header)] + p.payload;
  }

  /** The stalls of that many packet reads: each may wait once for its first dword and once for the rest. */
  function PacketStalls(packets: nat): nat {
    10_000 * packets
  }

  /** From `before` to `after` those packets were taken, nothing was written, and so many reads were waited for. */
  predicate Counted(before: Trace, after: Trace, packets: seq<Packet>, number: nat) {
    && WordsWritten(after) == WordsWritten(before) && WordsRead(after) == WordsRead(before) + Flatten(packets)
    && Stalls(after) <= Stalls(before) + PacketStalls(number)
  }

  lemma CountedOn(a: Trace, b: Trace, c: Trace, ps: seq<Packet>, p: Packet, number: nat)
    requires Counted(a, b, ps, number) && Counted(b, c, [p], 1)
    ensures Counted(a, c, ps + [p], number + 1)
  {
    FlattenAppend(ps, [p]);
    Associates(WordsRead(a), Flatten(ps), Flatten([p]));
  }

  lemma ReadingCounts(before: Trace, after: Trace, r: Reading)
    requires ReadLeaves(before, after, r, READ_TIMEOUT)
    ensures WordsWritten(after) == WordsWritten(before) && Stalls(after) <= Stalls(before) + PacketStalls(1)
    ensures Whole(r) ==> Counted(before, after, [PacketOf(r)], 1)
  {
    ReadCounts(before, after, r, READ_TIMEOUT);
    if Whole(r) {
      WordRoundTrip(r.ending.word);
      FlattenOneMore([], PacketOf(r));
    }
  }

  lemma SplitLast(before: Trace, rs: seq<Reading>)
    requires rs != []
    ensures var fewer, last := rs[..|rs| - 1], rs[|rs| - 1];
      && before + ReadingsAccesses(rs) == before + ReadingsAccesses(fewer) + ReadingAccesses(last)
      && PacketsOf(rs) == PacketsOf(fewer) + [PacketOf(last)]
  {
    Associates(before, ReadingsAccesses(rs[..|rs| - 1]), ReadingAccesses(rs[|rs| - 1]));
  }

  lemma {:induction false} AllCount(before: Trace, rs: seq<Reading>)
    requires AllGoOn(rs)
    ensures Counted(before, before + ReadingsAccesses(rs), PacketsOf(rs), |rs|)
  {
    if rs == [] {
      assert before + [] == before && PacketsOf(rs) == [];
    } else {
      var fewer, last := rs[..|rs| - 1], rs[|rs| - 1];
      AllCount(before, fewer);
      SplitLast(before, rs);
      ReadingCounts(before + ReadingsAccesses(fewer), before + ReadingsAccesses(rs), last);
      CountedOn(before, before + ReadingsAccesses(fewer), before + ReadingsAccesses(rs), PacketsOf(fewer), PacketOf(last), |fewer|);
    }
  }

  lemma ReadingsCount(before: Trace, after: Trace, rs: seq<Reading>)
    requires ReadingsLeave(before, after, rs)
    ensures WordsWritten(after) == WordsWritten(before) && Stalls(after) <= Stalls(before) + PacketStalls(|rs|)
    ensures Whole(rs[|rs| - 1]) ==> Counted(before, after, PacketsOf(rs), |rs|)
  {
    var fewer, last := rs[..|rs| - 1], rs[|rs| - 1];
    AllCount(before, fewer);
    SplitLast(before, rs);
    ReadingCounts(before + ReadingsAccesses(fewer), after, last);
    if Whole(last) {
      CountedOn(before, before + ReadingsAccesses(fewer), after, PacketsOf(fewer), PacketOf(last), |fewer|);
    }
  }

  /** All that a receive did, and what it saw. */
  datatype Receipt = NoAccess | NotUp(wait: Wait) | Receipt(wait: Wait, readings: seq<Reading>)

  function ReceiptAccesses(r: Receipt): Trace {
    match r
    case NoAccess => [Probe(false)]
    case NotUp(wait) => [Probe(true)] + WaitAccesses(wait)
    case Receipt(wait, readings) => [Probe(true)] + WaitAccesses(wait) + ReadingsAccesses(readings)
  }

  predicate ReceiptHolds(r: Receipt, blocking: bool) {
    var timeout := if blocking then INIT_TIMEOUT else 0;
    match r
    case NoAccess => true
    case NotUp(wait) => Waits(wait, timeout) && !wait.Up?
    case Receipt(wait, readings) => Waits(wait, timeout) && wait.Up? && ReadingsHold(readings)
  }

  /** A receive succeeds when every packet up to the one marked complete was read to its end. */
  function ReadingsStatus(rs: seq<Reading>): EfiStatus
    requires rs != []
  {
    if Whole(rs[|rs| - 1]) then Success else Aborted
  }

  function ReceiveStatus(r: Receipt): EfiStatus {
    match r
    case NoAccess => DeviceError
    case NotUp(_) => Aborted
    case Receipt(_, readings) => if readings != [] then ReadingsStatus(readings) else Aborted
  }

  predicate ReceiveLeaves(before: Trace, after: Trace, r: Receipt, blocking: bool) {
    after == before + ReceiptAccesses(r) && ReceiptHolds(r, blocking)
  }

  lemma NotUpLeaves(before: Trace, now: Trace, wait: Wait, blocking: bool)
    requires WaitLeaves(before + [Probe(true)], now, wait, if blocking then INIT_TIMEOUT else 0) && !wait.Up?
    ensures ReceiveLeaves(before, now, NotUp(wait), blocking)
  {
    Associates(before, [Probe(true)], WaitAccesses(wait));
  }

  lemma UpLeaves(before: Trace, now: Trace, after: Trace, wait: Wait, rs: seq<Reading>, blocking: bool)
    requires WaitLeaves(before + [Probe(true)], now, wait, if blocking then INIT_TIMEOUT else 0) && wait.Up?
    requires ReadingsLeave(now, after, rs)
    ensures ReceiveLeaves(before, after, Receipt(wait, rs), blocking)
  {
    Behind(before, [Probe(true)], WaitAccesses(wait), ReadingsAccesses(rs));
  }

  /** The budgets of a receive. */
  function ReceiptStalls(r: Receipt): nat {
    match r
    case NoAccess => 0
    case NotUp(_) => INIT_STALLS - 1
    case Receipt(_, readings) => INIT_STALLS - 1 + PacketStalls(|readings|)
  }

  /** What a receive moves: it takes the packets, writes nothing and waits no longer than its budgets allow. */
  lemma ReceiptCounts(before: Trace, after: Trace, r: Receipt, blocking: bool)
    requires ReceiveLeaves(before, after, r, blocking)
    ensures WordsWritten(after) == WordsWritten(before)
    ensures Stalls(after) <= Stalls(before) + ReceiptStalls(r)
    ensures ReceiveStatus(r) == Success ==> WordsRead(after) == WordsRead(before) + Flatten(PacketsOf(r.readings))
  {
    match r
    case NoAccess => ProbeIsStill(before, false);
    case NotUp(wait) =>
      ProbedWaitIsStill(before, wait, blocking);
      Associates(before, [Probe(true)], WaitAccesses(wait));
    case Receipt(wait, readings) =>
      ProbedWaitIsStill(before, wait, blocking);
      Behind(before, [Probe(true)], WaitAccesses(wait), ReadingsAccesses(readings));
      ReadingsCount(before + [Probe(true)] + WaitAccesses(wait), after, readings);
  }
}
