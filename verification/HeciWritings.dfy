/** What a send leaves on the record of register accesses, and which end it comes to. */
module HeciWritings {
  import opened HeciRegisters
  import opened HeciPackets
  import opened HeciPolling

  // ---------- writing one packet ----------

  predicate AllFull(looks: seq<Csr>, needed: nat) {
    forall i :: 0 <= i < |looks| ==> Room(looks[i]) < needed
  }

  /** The dwords put into the data window. */
  function Put(words: seq<Word>): Trace {
    if words == [] then [] else Put(words[..|words| - 1]) + [WriteData(words[|words| - 1])]
  }

  lemma PutMore(before: Trace, words: seq<Word>, word: Word)
    ensures before + Put(words) + [WriteData(word)] == before + Put(words + [word])
  {
    assert (words + [word])[..|words|] == words;
  }

  lemma {:induction false} PutJoin(a: seq<Word>, b: seq<Word>)
    ensures Put(a + b) == Put(a) + Put(b)
  {
    if b == [] {
      assert a + b == a;
    } else {
      assert (a + b)[..|a + b| - 1] == a + b[..|b| - 1];
      PutJoin(a, b[..|b| - 1]);
    }
  }

  lemma {:induction false} PutCounts(t: Trace, words: seq<Word>)
    ensures WordsWritten(t + Put(words)) == WordsWritten(t) + words
    ensures WordsRead(t + Put(words)) == WordsRead(t) && Stalls(t + Put(words)) == Stalls(t)
  {
    if words == [] {
      assert t + [] == t;
    } else {
      var fewer, last := words[..|words| - 1], words[|words| - 1];
      assert fewer + [last] == words;
      PutCounts(t, fewer);
      PutMore(t, fewer, last);
      PutOne(t + Put(fewer), last);
      Associates(WordsWritten(t), fewer, [last]);
    }
  }

  lemma PutOne(t: Trace, word: Word)
    ensures WordsWritten(t + [WriteData(word)]) == WordsWritten(t) + [word]
    ensures WordsRead(t + [WriteData(word)]) == WordsRead(t) && Stalls(t + [WriteData(word)]) == Stalls(t)
  {
    assert (t + [WriteData(word)])[..|t|] == t;
  }

  lemma HeaderPut(before: Trace, header: Word, words: seq<Word>)
    ensures before + [WriteData(header)] + Put(words) == before + Put([header] + words)
  {
    PutJoin([header], words);
    assert [header][..0] == [] && Put([header]) == [WriteData(header)];
  }

  /** A packet write ends by raising the interrupt and checking that the firmware is still up. */
  function Signal(host: Csr, me: Csr): Trace {
    [ReadHost(host), WriteHost(host.(intGenerate := true)), ReadMe(me)]
  }

  /** The looks at a ring without room, the last look, and, when that one showed room, the dwords written. */
  datatype Writing =
    | NoRoom(full: seq<Csr>, look: Csr)
    | Written(full: seq<Csr>, look: Csr, words: seq<Word>, host: Csr, me: Csr)

  function WritingAccesses(w: Writing): Trace {
    PolledHost(w.full) + [ReadHost(w.look)] + (if w.NoRoom? then [] else Put(w.words) + Signal(w.host, w.me))
  }

  /** A write gives up when the ring has no room for the packet through the whole budget. */
  predicate Writes(w: Writing, words: seq<Word>) {
    && AllFull(w.full, |words|)
    && if w.NoRoom? then |w.full| == IO_STALLS && Room(w.look) < |words|
       else |w.full| <= IO_STALLS && Room(w.look) >= |words| && w.words == words
  }

  function WriteStatus(w: Writing): EfiStatus {
    if w.NoRoom? then Timeout else if w.me.ready then Success else NotReady
  }

  predicate WriteLeaves(before: Trace, after: Trace, w: Writing, words: seq<Word>) {
    after == before + WritingAccesses(w) && Writes(w, words)
  }

  predicate SeekingRoom(before: Trace, now: Trace, full: seq<Csr>, look: Csr, needed: nat, left: Word) {
    && now == before + PolledHost(full) + [ReadHost(look)] && AllFull(full, needed)
    && Micros(|full|) == SEND_TIMEOUT - left
  }

  lemma SeekAgain(before: Trace, now: Trace, full: seq<Csr>, look: Csr, next: Csr, needed: nat, left: Word)
    requires SeekingRoom(before, now, full, look, needed, left) && left >= TIMER_STEP && Room(look) < needed
    ensures SeekingRoom(before, now + [Stall] + [ReadHost(next)], full + [look], next, needed, left - TIMER_STEP)
  {
    PollMore(before, full, look);
  }

  /** The search for room is over. */
  predicate Sought(before: Trace, after: Trace, full: seq<Csr>, look: Csr, needed: nat) {
    && after == before + PolledHost(full) + [ReadHost(look)] && AllFull(full, needed) && |full| <= IO_STALLS
    && (Room(look) < needed ==> |full| == IO_STALLS)
  }

  lemma SeekIsOver(before: Trace, now: Trace, full: seq<Csr>, look: Csr, needed: nat, left: Word)
    requires SeekingRoom(before, now, full, look, needed, left)
    requires Room(look) >= needed || left < TIMER_STEP
    ensures Sought(before, now, full, look, needed)
  {}

  lemma NeverRoom(before: Trace, now: Trace, full: seq<Csr>, look: Csr, words: seq<Word>)
    requires Sought(before, now, full, look, |words|) && Room(look) < |words|
    ensures WriteLeaves(before, now, NoRoom(full, look), words)
  {
    assert now == before + (PolledHost(full) + [ReadHost(look)] + []);
  }

  lemma WordsPut(before: Trace, now: Trace, full: seq<Csr>, look: Csr, words: seq<Word>, host: Csr, me: Csr)
    requires Sought(before, now, full, look, |words|) && Room(look) >= |words|
    ensures WriteLeaves(before, now + Put(words) + Signal(host, me), Written(full, look, words, host, me), words)
  {
    Nested(before, PolledHost(full), [ReadHost(look)], Put(words), Signal(host, me));
  }

  // ---------- sending a message ----------

  function PacketWords(p: Packet): seq<Word> {
    [PackHeader(p.header)] + p.payload
  }

  function WritingsAccesses(ws: seq<Writing>): Trace {
    if ws == [] then [] else WritingsAccesses(ws[..|ws| - 1]) + WritingAccesses(ws[|ws| - 1])
  }

  predicate WritesWhole(w: Writing, p: Packet) {
    Writes(w, PacketWords(p)) && WriteStatus(w) == Success
  }

  predicate AllSent(ws: seq<Writing>, packets: seq<Packet>) {
    |ws| == |packets| && forall i :: 0 <= i < |ws| ==> WritesWhole(ws[i], packets[i])
  }

  predicate Sending(before: Trace, now: Trace, ws: seq<Writing>, packets: seq<Packet>) {
    now == before + WritingsAccesses(ws) && AllSent(ws, packets)
  }

  /** The writes of a send that is over: those of all its packets, or of some with the last one failed. */
  predicate WritingsHold(ws: seq<Writing>, all: seq<Packet>) {
    AllSent(ws, all) ||
    (&& 0 < |ws| <= |all| && AllSent(ws[..|ws| - 1], all[..|ws| - 1])
     && Writes(ws[|ws| - 1], PacketWords(all[|ws| - 1])) && WriteStatus(ws[|ws| - 1]) != Success)
  }

  predicate WritingsLeave(before: Trace, after: Trace, ws: seq<Writing>, all: seq<Packet>) {
    after == before + WritingsAccesses(ws) && WritingsHold(ws, all)
  }

  lemma WritingMore(before: Trace, now: Trace, after: Trace, ws: seq<Writing>, packets: seq<Packet>, all: seq<Packet>,
                    w: Writing, p: Packet)
    requires Sending(before, now, ws, packets) && WriteLeaves(now, after, w, PacketWords(p)) && packets + [p] <= all
    ensures if WriteStatus(w) == Success then Sending(before, after, ws + [w], packets + [p])
            else WritingsLeave(before, after, ws + [w], all) && WriteStatus((ws + [w])[|ws|]) != Success
  {
    assert (ws + [w])[..|ws|] == ws && all[..|ws|] == packets && all[|ws|] == p;
    Associates(before, WritingsAccesses(ws), WritingAccesses(w));
  }

  lemma SendingIsOver(before: Trace, now: Trace, ws: seq<Writing>, all: seq<Packet>)
    requires Sending(before, now, ws, all)
    ensures WritingsLeave(before, now, ws, all) && |ws| == |all|
    ensures ws != [] ==> WritingsStatus(ws) == Success
  {}

  /** All that a send did, and what it saw. `host` is the look that gives the depth of the ring. */
  datatype Dispatch = NoAccess | NotUp(wait: Wait) | Dispatch(wait: Wait, host: Csr, writings: seq<Writing>)

  function DispatchAccesses(d: Dispatch): Trace {
    match d
    case NoAccess => [Probe(false)]
    case NotUp(wait) => [Probe(true)] + WaitAccesses(wait)
    case Dispatch(wait, host, writings) => [Probe(true)] + WaitAccesses(wait) + ([ReadHost(host)] + WritingsAccesses(writings))
  }

  predicate DispatchHolds(d: Dispatch, all: seq<Packet>) {
    match d
    case NoAccess => true
    case NotUp(wait) => Waits(wait, INIT_TIMEOUT) && !wait.Up?
    case Dispatch(wait, _, writings) => Waits(wait, INIT_TIMEOUT) && wait.Up? && WritingsHold(writings, all)
  }

  /** A send succeeds when every packet was written and the firmware was up after each. */
  function WritingsStatus(ws: seq<Writing>): EfiStatus {
    if ws == [] then Unsupported else if WriteStatus(ws[|ws| - 1]) == Success then Success else Aborted
  }

  function SendStatus(d: Dispatch): EfiStatus {
    match d
    case NoAccess => DeviceError
    case NotUp(_) => Aborted
    case Dispatch(_, _, writings) => WritingsStatus(writings)
  }

  predicate SendLeaves(before: Trace, after: Trace, d: Dispatch, all: seq<Packet>) {
    after == before + DispatchAccesses(d) && DispatchHolds(d, all)
  }

  lemma NotUpSends(before: Trace, now: Trace, wait: Wait, all: seq<Packet>)
    requires WaitLeaves(before + [Probe(true)], now, wait, INIT_TIMEOUT) && !wait.Up?
    ensures SendLeaves(before, now, NotUp(wait), all)
  {
    Associates(before, [Probe(true)], WaitAccesses(wait));
  }

  lemma UpSends(before: Trace, now: Trace, after: Trace, wait: Wait, host: Csr, ws: seq<Writing>, all: seq<Packet>)
    requires WaitLeaves(before + [Probe(true)], now, wait, INIT_TIMEOUT) && wait.Up?
    requires WritingsLeave(now + [ReadHost(host)], after, ws, all)
    ensures SendLeaves(before, after, Dispatch(wait, host, ws), all)
  {
    Associates(now, [ReadHost(host)], WritingsAccesses(ws));
    Behind(before, [Probe(true)], WaitAccesses(wait), [ReadHost(host)] + WritingsAccesses(ws));
  }
}
