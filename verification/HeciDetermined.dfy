/** A receive does what the device's answers make it do: two receives that are given the same answers make the same
    accesses and come to the same end, whatever the sizes of their buffers (src/uefi/heci_core.c:305-584). */
module HeciDetermined {
  import opened HeciRegisters
  import opened HeciPackets
  import opened HeciPolling
  import opened HeciReadings

  // ---- pieces of a record read back ----

  lemma {:induction false} PolledAt(looks: seq<Csr>, i: nat)
    requires i < |looks|
    ensures |Polled(looks)| == 2 * |looks| && Polled(looks)[2 * i] == ReadMe(looks[i])
  {
    PolledLength(looks);
    var fewer := looks[..|looks| - 1];
    PolledLength(fewer);
    if i < |fewer| {
      PolledAt(fewer, i);
    }
  }

  lemma {:induction false} PolledLength(looks: seq<Csr>)
    ensures |Polled(looks)| == 2 * |looks|
  {
    if looks != [] {
      PolledLength(looks[..|looks| - 1]);
    }
  }

  lemma LookInRecord(a: seq<Csr>, x: Trace, t: Trace, i: nat)
    requires t == Polled(a) + x && i < |a|
    ensures 2 * i < |t| && t[2 * i] == ReadMe(a[i])
  {
    PolledAt(a, i);
  }

  lemma BehindPolls(a: seq<Csr>, x: Trace, t: Trace)
    requires t == Polled(a) + x
    ensures 2 * |a| <= |t| && x == t[2 * |a|..]
  {
    PolledLength(a);
  }

  /** Two polls that begin one record: the shorter is the front of the longer, and what follows it is a look of that one. */
  lemma SamePolls(a: seq<Csr>, b: seq<Csr>, x: Trace, y: Trace)
    requires Polled(a) + x == Polled(b) + y && |a| <= |b|
    ensures a == b[..|a|]
    ensures |a| < |b| ==> x != [] && x[0] == ReadMe(b[|a|])
    ensures |a| == |b| ==> x == y
  {
    var t := Polled(a) + x;
    BehindPolls(a, x, t);
    BehindPolls(b, y, t);
    forall i | 0 <= i < |a|
      ensures a[i] == b[i]
    {
      LookInRecord(a, x, t, i);
      LookInRecord(b, y, t, i);
    }
    if |a| < |b| {
      LookInRecord(b, y, t, |a|);
    }
  }

  lemma {:induction false} SameWords(a: seq<Word>, b: seq<Word>, x: Trace, y: Trace)
    requires Taken(a) + x == Taken(b) + y && |a| == |b|
    ensures a == b && x == y
  {
    if a == [] {
      assert [] + x == x && [] + y == y;
    } else {
      var c, d, v, w := a[..|a| - 1], b[..|b| - 1], ReadData(a[|a| - 1]), ReadData(b[|b| - 1]);
      Associates(Taken(c), [v], x);
      Associates(Taken(d), [w], y);
      SameWords(c, d, [v] + x, [w] + y);
      assert ([v] + x)[0] == v && ([w] + y)[0] == w;
      assert x == ([v] + x)[1..] && y == ([w] + y)[1..];
      assert a == c + [a[|a| - 1]] && b == d + [b[|b| - 1]];
    }
  }

  lemma SameFinish(f: Trace, g: Trace, up: bool, up': bool, x: Trace, y: Trace)
    requires FinishTrace(f, up) && FinishTrace(g, up') && f + x == g + y
    ensures f == g && up == up' && x == y
  {
    assert f[0] == (f + x)[0] == (g + y)[0] == g[0];
    if up {
      assert f[1] == (f + x)[1] == (g + y)[1] == g[1];
    }
    assert |f| == |g|;
    assert f == (f + x)[..|f|] && g == (g + y)[..|g|];
    assert x == (f + x)[|f|..] && y == (g + y)[|g|..];
  }

  lemma SameHead(e: Event, e': Event, x: Trace, y: Trace)
    requires [e] + x == [e'] + y
    ensures e == e' && x == y
  {
    assert e == ([e] + x)[0] && e' == ([e'] + y)[0];
    assert x == ([e] + x)[1..] && y == ([e'] + y)[1..];
  }

  // ---- one packet ----

  /** What follows the header of an ending. */
  function Rest(e: Ending): Trace {
    match e
    case Empty | Overflowed | TooDeep(_) => []
    case Short(_, waits, last) => Polled(waits) + [ReadMe(last)]
    case Arrived(_, waits) => Polled(waits)
    case Read(_, waits, payload, finish, _) => Polled(waits) + (Taken(payload) + finish)
  }

  lemma HeaderFirst(e: Ending, x: Trace)
    requires !e.Empty? && !e.Overflowed?
    ensures EndingAccesses(e) + x == [ReadData(e.word)] + (Rest(e) + x)
  {
    RestFollows(e);
    Associates([ReadData(e.word)], Rest(e), x);
  }

  lemma RestFollows(e: Ending)
    requires !e.Empty? && !e.Overflowed?
    ensures EndingAccesses(e) == [ReadData(e.word)] + Rest(e)
  {
    match e
    case Empty | Overflowed | Arrived(_, _) =>
    case TooDeep(word) => assert [ReadData(word)] + [] == [ReadData(word)];
    case Short(word, waits, last) => Associates([ReadData(word)], Polled(waits), [ReadMe(last)]);
    case Read(word, waits, payload, finish, _) =>
      Associates([ReadData(word)], Polled(waits), Taken(payload));
      Associates([ReadData(word)], Polled(waits) + Taken(payload), finish);
      Associates(Polled(waits), Taken(payload), finish);
  }

  /** What follows the wait for the whole packet. */
  function Outcome(e: Ending): Trace
    requires e.Short? || e.Read?
  {
    if e.Short? then [ReadMe(e.last)] else Taken(e.payload) + e.finish
  }

  lemma FrontAgrees<T>(s: seq<T>)
    ensures forall k :: 0 <= k < |s| - 1 ==> s[..|s| - 1][k] == s[k]
  {}

  /** A wait that has found the packet whole, or has run out, does not go on. */
  lemma WaitsStop(look: Csr, e: Ending, e': Ending)
    requires Causes(look, e) && Causes(look, e') && (e.Short? || e.Read?) && (e'.Short? || e'.Read?) && e.word == e'.word
    requires |e.waits| <= |e'.waits| && e.waits == e'.waits[..|e.waits|]
    ensures e.waits == e'.waits && (e.Short? <==> e'.Short?)
  {
    FrontAgrees(e'.waits);
    var last := |e.waits| - 1;
    assert e.waits[last] == e'.waits[last];
    if |e.waits| < |e'.waits| {
      assert false;
    }
  }

  lemma WaitsEndTogether(look: Csr, e: Ending, e': Ending, x: Trace, y: Trace)
    requires Causes(look, e) && Causes(look, e') && (e.Short? || e.Read?) && (e'.Short? || e'.Read?) && e.word == e'.word
    requires Rest(e) + x == Rest(e') + y && |e.waits| <= |e'.waits|
    ensures e.waits == e'.waits && Outcome(e) + x == Outcome(e') + y && (e.Short? <==> e'.Short?)
  {
    Associates(Polled(e.waits), Outcome(e), x);
    Associates(Polled(e'.waits), Outcome(e'), y);
    SamePolls(e.waits, e'.waits, Outcome(e) + x, Outcome(e') + y);
    WaitsStop(look, e, e');
  }

  lemma SameWaits(look: Csr, e: Ending, e': Ending, x: Trace, y: Trace)
    requires Causes(look, e) && Causes(look, e') && (e.Short? || e.Read?) && (e'.Short? || e'.Read?) && e.word == e'.word
    requires Rest(e) + x == Rest(e') + y && |e.waits| <= |e'.waits|
    ensures e == e' && x == y
  {
    WaitsEndTogether(look, e, e', x, y);
    if e.Short? {
      SameHead(ReadMe(e.last), ReadMe(e'.last), x, y);
    } else {
      Associates(Taken(e.payload), e.finish, x);
      Associates(Taken(e'.payload), e'.finish, y);
      SameWords(e.payload, e'.payload, e.finish + x, e'.finish + y);
      SameFinish(e.finish, e'.finish, e.up, e'.up, x, y);
    }
  }

  lemma SameEnding(look: Csr, e: Ending, e': Ending, x: Trace, y: Trace)
    requires Causes(look, e) && Causes(look, e') && !e.Arrived? && !e'.Arrived?
    requires e.Empty? <==> GetFilledSlots(look) == 0
    requires e'.Empty? <==> GetFilledSlots(look) == 0
    requires e.Overflowed? <==> GetFilledSlots(look) == CB_OVERFLOW
    requires e'.Overflowed? <==> GetFilledSlots(look) == CB_OVERFLOW
    requires EndingAccesses(e) + x == EndingAccesses(e') + y
    ensures e == e' && x == y
  {
    if e.Empty? || e.Overflowed? {
      assert [] + x == x && [] + y == y;
    } else {
      HeaderFirst(e, x);
      HeaderFirst(e', y);
      SameHead(ReadData(e.word), ReadData(e'.word), Rest(e) + x, Rest(e') + y);
      if e.TooDeep? {
        assert [] + x == x && [] + y == y;
      } else if |e.waits| <= |e'.waits| {
        SameWaits(look, e, e', x, y);
      } else {
        SameWaits(look, e', e, y, x);
      }
    }
  }

  lemma ReadingFirst(r: Reading, x: Trace)
    ensures ReadingAccesses(r) + x == Polled(r.empty) + ([ReadMe(r.look)] + (EndingAccesses(r.ending) + x))
  {}

  lemma SameReading(r: Reading, r': Reading, timeout: Word, x: Trace, y: Trace)
    requires Reads(r, timeout) && Reads(r', timeout) && !r.ending.Arrived? && !r'.ending.Arrived? && |r.empty| <= |r'.empty|
    requires ReadingAccesses(r) + x == ReadingAccesses(r') + y
    ensures r == r' && x == y
  {
    ReadingFirst(r, x);
    ReadingFirst(r', y);
    var a, b := EndingAccesses(r.ending) + x, EndingAccesses(r'.ending) + y;
    SamePolls(r.empty, r'.empty, [ReadMe(r.look)] + a, [ReadMe(r'.look)] + b);
    assert ([ReadMe(r.look)] + a)[0] == ReadMe(r.look);
    if |r.empty| < |r'.empty| {
      assert false;
    } else {
      SameHead(ReadMe(r.look), ReadMe(r'.look), a, b);
      SameEnding(r.look, r.ending, r'.ending, x, y);
    }
  }

  // ---- a message ----

  lemma {:induction false} FirstReading(rs: seq<Reading>)
    requires rs != []
    ensures ReadingsAccesses(rs) == ReadingAccesses(rs[0]) + ReadingsAccesses(rs[1..])
  {
    var fewer := rs[..|rs| - 1];
    if fewer == [] {
      assert rs[1..] == [] && [] + ReadingAccesses(rs[0]) == ReadingAccesses(rs[0]) + [];
    } else {
      FirstReading(fewer);
      assert fewer[1..] == rs[1..][..|rs[1..]| - 1];
      Associates(ReadingAccesses(rs[0]), ReadingsAccesses(fewer[1..]), ReadingAccesses(rs[|rs| - 1]));
    }
  }

  lemma SameFirst(rs: seq<Reading>, qs: seq<Reading>, x: Trace, y: Trace)
    requires ReadingsHold(rs) && ReadingsHold(qs)
    requires ReadingsAccesses(rs) + x == ReadingsAccesses(qs) + y
    ensures rs[0] == qs[0] && ReadingsAccesses(rs[1..]) + x == ReadingsAccesses(qs[1..]) + y
  {
    var r, q, more, more' := rs[0], qs[0], ReadingsAccesses(rs[1..]), ReadingsAccesses(qs[1..]);
    FirstReading(rs);
    FirstReading(qs);
    Associates(ReadingAccesses(r), more, x);
    Associates(ReadingAccesses(q), more', y);
    FirstIsRead(rs);
    FirstIsRead(qs);
    if |r.empty| <= |q.empty| {
      SameReading(r, q, READ_TIMEOUT, more + x, more' + y);
    } else {
      SameReading(q, r, READ_TIMEOUT, more' + y, more + x);
    }
  }

  lemma FirstIsRead(rs: seq<Reading>)
    requires ReadingsHold(rs)
    ensures Reads(rs[0], READ_TIMEOUT) && !rs[0].ending.Arrived? && (GoesOn(rs[0]) <==> |rs| > 1)
  {
    assert |rs| > 1 ==> rs[..|rs| - 1][0] == rs[0];
  }

  lemma SameWhole<T>(s: seq<T>, t: seq<T>)
    requires s != [] && t != [] && s[0] == t[0] && s[1..] == t[1..]
    ensures s == t
  {
    assert s == [s[0]] + s[1..] && t == [t[0]] + t[1..];
  }

  lemma {:induction false} SameReadings(rs: seq<Reading>, qs: seq<Reading>, x: Trace, y: Trace)
    requires ReadingsHold(rs) && ReadingsHold(qs)
    requires ReadingsAccesses(rs) + x == ReadingsAccesses(qs) + y
    ensures rs == qs
  {
    SameFirst(rs, qs, x, y);
    FirstIsRead(rs);
    FirstIsRead(qs);
    if |rs| > 1 {
      TailHolds(rs);
      TailHolds(qs);
      SameReadings(rs[1..], qs[1..], x, y);
    }
    SameWhole(rs, qs);
  }

  lemma TailHolds(rs: seq<Reading>)
    requires ReadingsHold(rs) && |rs| > 1
    ensures ReadingsHold(rs[1..])
  {
    assert forall i :: 0 <= i < |rs[1..]| - 1 ==> rs[1..][i] == rs[..|rs| - 1][i + 1];
  }

  lemma SameWait(w: Wait, w': Wait, timeout: Word, x: Trace, y: Trace)
    requires Waits(w, timeout) && Waits(w', timeout) && |w.idle| <= |w'.idle|
    requires WaitAccesses(w) + x == WaitAccesses(w') + y
    ensures w == w' && x == y
  {
    var a, b := if w.NeverUp? then [] else [ReadMe(w.last)], if w'.NeverUp? then [] else [ReadMe(w'.last)];
    Associates(Polled(w.idle), a, x);
    Associates(Polled(w'.idle), b, y);
    SamePolls(w.idle, w'.idle, a + x, b + y);
    assert !w.NeverUp? ==> (a + x)[0] == ReadMe(w.last);
    if |w.idle| < |w'.idle| {
      assert false;
    } else if w.NeverUp? {
      assert [] + x == x && [] + y == y;
    } else {
      SameHead(ReadMe(w.last), ReadMe(w'.last), x, y);
    }
  }

  lemma ProbeFirst(r: Receipt, x: Trace)
    ensures ReceiptAccesses(r) + x ==
            if r.NoAccess? then [Probe(false)] + x
            else [Probe(true)] + (WaitAccesses(r.wait) + ((if r.NotUp? then [] else ReadingsAccesses(r.readings)) + x))
  {}

  /** The record of a receive tells how it ended, and in what: no two ways of going on share a beginning. So whatever the
      two buffers, two receives that are shown the same registers and dwords, as far as the first of them goes, do the same,
      take the same packets and return the same status. */
  lemma SameAnswersSameEnd(before: Trace, after: Trace, r: Receipt, before': Trace, after': Trace, r': Receipt, blocking: bool)
    requires ReceiveLeaves(before, after, r, blocking) && ReceiveLeaves(before', after', r', blocking)
    requires after[|before|..] <= after'[|before'|..]
    ensures r == r' && ReceiveStatus(r) == ReceiveStatus(r')
  {
    AddedSince(before, ReceiptAccesses(r), after);
    AddedSince(before', ReceiptAccesses(r'), after');
    var x := ReceiptAccesses(r')[|ReceiptAccesses(r)|..];
    PrefixAndRest(ReceiptAccesses(r), ReceiptAccesses(r'));
    SameReceipt(r, r', blocking, x, []);
  }

  lemma AddedSince<T>(before: seq<T>, more: seq<T>, after: seq<T>)
    requires after == before + more
    ensures after[|before|..] == more
  {}

  lemma PrefixAndRest<T>(s: seq<T>, t: seq<T>)
    requires s <= t
    ensures s + t[|s|..] == t + []
  {}

  lemma SameReceipt(r: Receipt, r': Receipt, blocking: bool, x: Trace, y: Trace)
    requires ReceiptHolds(r, blocking) && ReceiptHolds(r', blocking)
    requires ReceiptAccesses(r) + x == ReceiptAccesses(r') + y
    ensures r == r'
  {
    ProbeFirst(r, x);
    ProbeFirst(r', y);
    assert (ReceiptAccesses(r) + x)[0] == (ReceiptAccesses(r') + y)[0];
    if !r.NoAccess? {
      var a, b := (if r.NotUp? then [] else ReadingsAccesses(r.readings)) + x, (if r'.NotUp? then [] else ReadingsAccesses(r'.readings)) + y;
      SameHead(Probe(true), Probe(true), WaitAccesses(r.wait) + a, WaitAccesses(r'.wait) + b);
      if |r.wait.idle| <= |r'.wait.idle| {
        SameWait(r.wait, r'.wait, if blocking then INIT_TIMEOUT else 0, a, b);
      } else {
        SameWait(r'.wait, r.wait, if blocking then INIT_TIMEOUT else 0, b, a);
      }
      if r.Receipt? {
        SameReadings(r.readings, r'.readings, x, y);
      }
    }
  }
}
