/** The transport of src/uefi/heci_core.c: waiting for the firmware, resetting the link, and moving
    messages through the two rings. */
module HeciCore {
  import opened HeciRegisters
  import opened HeciPackets
  import opened HeciDevice
  import opened HeciPolling
  import opened HeciHandshake
  import opened HeciReadings
  import opened HeciWritings

  /** What a call that moves no data leaves alone. */
  twostate predicate NoData(dev: Device)
    reads dev
  {
    dev.Sent() == old(dev.Sent()) && dev.Got() == old(dev.Got())
  }

  /** `wait` are the looks taken; they alone decide the answer. */
  method IsMeReady(dev: Device, timeout: Word) returns (ready: bool, ghost wait: Wait)
    modifies dev`trace
    ensures NoData(dev)
    ensures dev.Waited() == old(dev.Waited()) + |wait.idle|
    ensures WaitLeaves(old(dev.trace), dev.trace, wait, timeout)
    ensures ready <==> wait.Up?
  {
    var left: Word := timeout;
    ghost var looks: seq<Csr> := [];
    while left > TIMER_STEP
      invariant NoData(dev)
      invariant Waiting(old(dev.trace), dev.trace, looks, timeout, left)
      invariant dev.Waited() == old(dev.Waited()) + |looks|
    {
      ghost var now := dev.trace;
      var csr := dev.ReadMeCsr();
      WaitEnds(old(dev.trace), now, looks, csr, timeout, left);
      if csr.reset {
        wait := InReset(looks, csr);
        return false, wait;
      } else if csr.ready {
        wait := Up(looks, csr);
        return true, wait;
      }
      dev.Delay();
      WaitGoesOn(old(dev.trace), now, looks, csr, timeout, left);
      looks := looks + [csr];
      left := left - TIMER_STEP;
    }
    WaitIsOver(old(dev.trace), dev.trace, looks, timeout, left);
    return false, NeverUp(looks);
  }

  // ---------- reset handshake ----------

  /** The accesses of the handshake, with the phase each leads to. */
  method LookHost(dev: Device, ghost start: nat) returns (csr: Csr)
    requires start <= |dev.trace|
    modifies dev`trace
    ensures NoData(dev) && dev.Waited() == old(dev.Waited())
    ensures dev.trace == old(dev.trace) + [ReadHost(csr)]
    ensures PhaseSince(dev.trace, start) == NextPhase(PhaseSince(old(dev.trace), start), ReadHost(csr))
  {
    csr := dev.ReadHostCsr();
    PhaseStep(old(dev.trace), start, ReadHost(csr));
  }

  method LookMe(dev: Device, ghost start: nat) returns (csr: Csr)
    requires start <= |dev.trace|
    modifies dev`trace
    ensures NoData(dev) && dev.Waited() == old(dev.Waited())
    ensures dev.trace == old(dev.trace) + [ReadMe(csr)]
    ensures PhaseSince(dev.trace, start) == NextPhase(PhaseSince(old(dev.trace), start), ReadMe(csr))
  {
    csr := dev.ReadMeCsr();
    PhaseStep(old(dev.trace), start, ReadMe(csr));
  }

  method Control(dev: Device, ghost start: nat, csr: Csr)
    requires start <= |dev.trace|
    modifies dev`trace
    ensures NoData(dev) && dev.Waited() == old(dev.Waited())
    ensures dev.trace == old(dev.trace) + [WriteHost(csr)]
    ensures PhaseSince(dev.trace, start) == NextPhase(PhaseSince(old(dev.trace), start), WriteHost(csr))
  {
    dev.WriteHostCsr(csr);
    PhaseStep(old(dev.trace), start, WriteHost(csr));
  }

  method Pause(dev: Device, ghost start: nat)
    requires start <= |dev.trace|
    modifies dev`trace
    ensures NoData(dev) && dev.Waited() == old(dev.Waited()) + 1
    ensures dev.trace == old(dev.trace) + [Stall]
    ensures PhaseSince(dev.trace, start) == PhaseSince(old(dev.trace), start)
  {
    dev.Delay();
    PhaseStep(old(dev.trace), start, Stall);
  }

  /** One turn of each of the two loops: a stall, and another look. */
  method PauseForHost(dev: Device, ghost start: nat) returns (csr: Csr)
    requires start <= |dev.trace|
    modifies dev`trace
    ensures NoData(dev) && dev.Waited() == old(dev.Waited()) + 1 && old(dev.trace) <= dev.trace
    ensures PhaseSince(dev.trace, start) == NextPhase(PhaseSince(old(dev.trace), start), ReadHost(csr))
  {
    Pause(dev, start);
    csr := LookHost(dev, start);
  }

  method PauseForMe(dev: Device, ghost start: nat) returns (csr: Csr)
    requires start <= |dev.trace|
    modifies dev`trace
    ensures NoData(dev) && dev.Waited() == old(dev.Waited()) + 1 && old(dev.trace) <= dev.trace
    ensures PhaseSince(dev.trace, start) == NextPhase(PhaseSince(old(dev.trace), start), ReadMe(csr))
  {
    Pause(dev, start);
    csr := LookMe(dev, start);
  }

  /** H_CSR as the source writes it to ask for a reset, and to bring the host side up again. */
  function AskReset(c: Csr): Csr {
    c.(reset := true, intGenerate := true)
  }

  function Enable(c: Csr): Csr {
    c.(reset := false, intGenerate := true, ready := true)
  }

  method ResetHeciInterface(dev: Device) returns (status: EfiStatus)
    modifies dev`trace
    ensures NoData(dev)
    ensures old(dev.trace) <= dev.trace
    ensures status == Success || status == DeviceError || status == Timeout
    ensures ResetLeaves(old(dev.trace), dev.trace, status)
  {
    ghost var start := |dev.trace|;
    var ok := dev.CheckAndFixForAccess();
    PhaseStep(old(dev.trace), start, Probe(ok));
    if !ok {
      return DeviceError;
    }
    status := ResetReached(dev, start);
  }

  /** The handshake with a device that can be reached. */
  method ResetReached(dev: Device, ghost start: nat) returns (status: EfiStatus)
    requires start < |dev.trace| && PhaseSince(dev.trace, start) == Idle
    modifies dev`trace
    ensures NoData(dev) && old(dev.trace) < dev.trace
    ensures status == Success || status == Timeout
    ensures status == Success <==> PhaseSince(dev.trace, start) == Enabled
    ensures RequestedAt(dev.trace, |old(dev.trace)|)
    ensures status == Success ==> |dev.trace| >= 2 && EnabledAt(dev.trace, |dev.trace| - 2)
    ensures dev.Waited() <= old(dev.Waited()) + INIT_STALLS
    ensures status == Timeout ==> dev.Waited() == old(dev.Waited()) + INIT_STALLS
  {
    RequestReset(dev, start);
    ghost var asked := dev.trace;
    var left: Word;
    ghost var budget: nat;
    status, left, budget := WaitHostDown(dev, start, INIT_TIMEOUT, INIT_STALLS);
    if status == Success {
      status, left, budget := WaitFirmwareUp(dev, start, left, budget);
    }
    if status == Success {
      EnableHost(dev, start);
    }
    RequestStays(asked, dev.trace, |old(dev.trace)|);
  }

  method RequestReset(dev: Device, ghost start: nat)
    requires start < |dev.trace| && PhaseSince(dev.trace, start) == Idle
    modifies dev`trace
    ensures NoData(dev) && dev.Waited() == old(dev.Waited())
    ensures old(dev.trace) < dev.trace && PhaseSince(dev.trace, start) == ResetRequested
    ensures RequestedAt(dev.trace, |old(dev.trace)|)
  {
    var host := LookHost(dev, start);
    if !host.reset {
      Control(dev, start, AskReset(host));
    }
  }

  method WaitHostDown(dev: Device, ghost start: nat, timeout: Word, ghost steps: nat)
    returns (status: EfiStatus, left: Word, ghost budget: nat)
    requires start < |dev.trace| && PhaseSince(dev.trace, start) == ResetRequested
    requires timeout == Micros(steps)
    modifies dev`trace
    ensures NoData(dev) && old(dev.trace) <= dev.trace
    ensures status == Success ==> PhaseSince(dev.trace, start) == HostDown
    ensures status != Success ==> PhaseSince(dev.trace, start) == ResetRequested
    ensures status == Success || (status == Timeout && left == 0)
    ensures left == Micros(budget) && dev.Waited() + budget == old(dev.Waited()) + steps
  {
    left := timeout;
    budget := steps;
    var ready := true;
    while ready
      invariant NoData(dev) && old(dev.trace) <= dev.trace
      invariant ready ==> PhaseSince(dev.trace, start) == ResetRequested
      invariant !ready ==> PhaseSince(dev.trace, start) == HostDown
      invariant left == Micros(budget)
      invariant dev.Waited() + budget == old(dev.Waited()) + steps
      decreases budget, ready
    {
      if left < TIMER_STEP {
        return Timeout, left, budget;
      }
      left := left - TIMER_STEP;
      budget := budget - 1;
      var host := PauseForHost(dev, start);
      ready := host.ready;
    }
    return Success, left, budget;
  }

  method WaitFirmwareUp(dev: Device, ghost start: nat, timeout: Word, ghost steps: nat)
    returns (status: EfiStatus, left: Word, ghost budget: nat)
    requires start < |dev.trace| && PhaseSince(dev.trace, start) == HostDown
    requires timeout == Micros(steps)
    modifies dev`trace
    ensures NoData(dev) && old(dev.trace) <= dev.trace
    ensures status == Success ==> PhaseSince(dev.trace, start) == FirmwareUp
    ensures status != Success ==> (PhaseSince(dev.trace, start) == HostDown || PhaseSince(dev.trace, start) == FirmwareUp)
    ensures status == Success || (status == Timeout && left == 0)
    ensures left == Micros(budget) && dev.Waited() + budget == old(dev.Waited()) + steps
  {
    left := timeout;
    budget := steps;
    var me := LookMe(dev, start);
    var up := false;
    while !up
      invariant NoData(dev) && old(dev.trace) <= dev.trace
      invariant (PhaseSince(dev.trace, start) == HostDown || PhaseSince(dev.trace, start) == FirmwareUp)
      invariant up ==> PhaseSince(dev.trace, start) == FirmwareUp
      invariant left == Micros(budget)
      invariant dev.Waited() + budget == old(dev.Waited()) + steps
      decreases budget, !up
    {
      if left < TIMER_STEP {
        return Timeout, left, budget;
      }
      left := left - TIMER_STEP;
      budget := budget - 1;
      me := PauseForMe(dev, start);
      up := me.ready;
    }
    return Success, left, budget;
  }

  method EnableHost(dev: Device, ghost start: nat)
    requires start < |dev.trace| && PhaseSince(dev.trace, start) == FirmwareUp
    modifies dev`trace
    ensures NoData(dev) && dev.Waited() == old(dev.Waited())
    ensures PhaseSince(dev.trace, start) == Enabled
    ensures |dev.trace| == |old(dev.trace)| + 2 && old(dev.trace) <= dev.trace && EnabledAt(dev.trace, |old(dev.trace)|)
  {
    var host := LookHost(dev, start);
    Control(dev, start, Enable(host));
    assert dev.trace == old(dev.trace) + [ReadHost(host), WriteHost(Enable(host))];
  }

  // ---------- receiving ----------

  /** The packet counts: its bytes are in the buffer, as many as fitted. */
  predicate Kept(s: EfiStatus) {
    s == Success || s == BufferTooSmall
  }

  /** CopyMem of the first `n` bytes of a dword. */
  method StoreBytes(buf: array<Byte>, at: nat, w: Word, n: nat)
    requires n <= 4 && (n > 0 ==> at + n <= buf.Length)
    modifies buf
    ensures forall j :: 0 <= j < buf.Length ==> buf[j] == if at <= j < at + n then ByteOf(w, j - at) else old(buf[j])
  {
    var k := 0;
    while k < n
      invariant k <= n
      invariant forall j :: 0 <= j < buf.Length ==> buf[j] == if at <= j < at + k then ByteOf(w, j - at) else old(buf[j])
    {
      buf[at + k] := ByteOf(w, k);
      k := k + 1;
    }
  }

  /** Reads one packet. `prev` is the header variable the caller passes in; it comes back unchanged unless a header was
      read. `space` is the caller's BufferLength on input, `copied` the same variable on output. `reading` tells what the
      registers showed and which end that brought. */
  method HeciPacketRead(dev: Device, timeout: Word, buf: array<Byte>, off: nat, space: Word, prev: Header)
    returns (status: EfiStatus, header: Header, copied: Word, packetSize: Word, ghost reading: Reading)
    requires space > 0 ==> off + space <= buf.Length
    modifies dev`trace, dev`talk, buf
    ensures ReadLeaves(old(dev.trace), dev.trace, reading, timeout) && !reading.ending.Arrived?
    ensures status == ReadStatus(reading.ending, timeout, space)
    ensures buf[..] == Deposit(old(buf[..]), off, PayloadBytes(PayloadOf(reading.ending)), space)
    ensures dev.talk <= old(dev.talk)
    ensures Whole(reading) ==>
      && header == PacketOf(reading).header && packetSize == header.length
      && copied == Min(4 * |reading.ending.payload|, space)
      && (!header.complete ==> dev.talk < old(dev.talk))
  {
    packetSize := 0;
    status, header, reading := ReadPacketHead(dev, timeout, prev);
    if status != Success {
      copied := if status == Timeout then space else 0;
    } else {
      status, copied, packetSize, reading := ReadArrived(dev, timeout, buf, off, space, header, old(dev.trace), reading);
    }
  }

  /** The rest of a packet read, once the whole packet is in the ring. */
  method ReadArrived(dev: Device, timeout: Word, buf: array<Byte>, off: nat, space: Word, header: Header,
                     ghost before: Trace, ghost arrived: Reading)
    returns (status: EfiStatus, copied: Word, packetSize: Word, ghost reading: Reading)
    requires space > 0 ==> off + space <= buf.Length
    requires ReadLeaves(before, dev.trace, arrived, timeout) && arrived.ending.Arrived?
    requires header == UnpackHeader(arrived.ending.word) && dev.Credit().read >= Dwords(header.length)
    modifies dev`trace, dev`talk, buf
    ensures ReadLeaves(before, dev.trace, reading, timeout) && dev.talk <= old(dev.talk)
    ensures reading.ending.Read? && reading.ending.word == arrived.ending.word
    ensures status == ReadStatus(reading.ending, timeout, space)
    ensures buf[..] == Deposit(old(buf[..]), off, PayloadBytes(reading.ending.payload), space)
    ensures packetSize == (if reading.ending.up then header.length else 0)
    ensures copied == if reading.ending.up then Min(4 * |reading.ending.payload|, space) else 0
  {
    ghost var now, payload, finish := dev.trace, [], [];
    copied, payload := CopyPayload(dev, buf, off, space, Dwords(header.length));
    var ready;
    ready, finish := FinishPacketRead(dev);
    ReadToItsEnd(before, now, arrived, timeout, payload, finish, ready);
    reading := arrived.(ending := Read(arrived.ending.word, arrived.ending.waits, payload, finish, ready));
    if ready {
      status := if header.length <= space then Success else BufferTooSmall;
      packetSize := header.length;
    } else {
      copied, packetSize, status := 0, 0, NotReady;
    }
  }

  /** Everything up to the point where the whole packet is known to be in the ring. */
  method ReadPacketHead(dev: Device, timeout: Word, prev: Header)
    returns (status: EfiStatus, header: Header, ghost reading: Reading)
    modifies dev`trace, dev`talk
    ensures ReadLeaves(old(dev.trace), dev.trace, reading, timeout) && !reading.ending.Read?
    ensures status == ReadStatus(reading.ending, timeout, 0)
    ensures dev.talk <= old(dev.talk)
    ensures header == if WordsOf(reading.ending) == [] then prev else UnpackHeader(reading.ending.word)
    ensures reading.ending.Arrived? ==>
      dev.Credit().read >= Dwords(header.length) && (!header.complete ==> dev.talk < old(dev.talk))
  {
    header := prev;
    var ok, me, filled;
    ghost var empty, ending;
    ok, me, filled, empty := WaitFirstDword(dev, timeout);
    NothingToRead(old(dev.trace), dev.trace, empty, me, timeout);
    if !ok {
      return Timeout, header, Reading(empty, me, Empty);
    }
    if filled == 0 {
      return NoResponse, header, Reading(empty, me, Empty);
    } else if filled == CB_OVERFLOW {
      return DeviceError, header, Reading(empty, me, Overflowed);
    }
    ghost var now := dev.trace;
    var word := dev.ReadWord();
    header := UnpackHeader(word);
    var dwords := Dwords(header.length);
    if dwords > me.depth {
      HeaderTooDeep(old(dev.trace), now, empty, me, timeout, word);
      return DeviceError, header, Reading(empty, me, TooDeep(word));
    }
    ok, ending := WaitWholePacket(dev, dwords, word);
    HeaderRead(old(dev.trace), now, empty, me, timeout, word, dev.trace, ending);
    reading := Reading(empty, me, ending);
    status := if ok then Success else Timeout;
  }

  method FinishPacketRead(dev: Device) returns (ready: bool, ghost finish: Trace)
    modifies dev`trace
    ensures NoData(dev) && dev.Waited() == old(dev.Waited())
    ensures dev.trace == old(dev.trace) + finish && FinishTrace(finish, ready)
  {
    var me := dev.ReadMeCsr();
    finish := [ReadMe(me)];
    if !me.ready {
      return false, finish;
    }
    me := dev.ReadMeCsr();
    finish := finish + [ReadMe(me)];
    if GetFilledSlots(me) == 0 {
      var host := dev.ReadHostCsr();
      dev.WriteHostCsr(host.(intGenerate := true, intStatus := true));
      finish := finish + [ReadHost(host), WriteHost(host.(intGenerate := true, intStatus := true))];
      host := dev.ReadHostCsr();
      finish := finish + [ReadHost(host)];
    }
    ready := true;
  }

  /** A blocking read waits for the first dword of a packet; `ok` is false when the budget runs out. */
  method WaitFirstDword(dev: Device, timeout: Word) returns (ok: bool, me: Csr, filled: Word, ghost empty: seq<Csr>)
    modifies dev`trace
    ensures NoData(dev) && dev.Waited() == old(dev.Waited()) + |empty|
    ensures Looked(old(dev.trace), dev.trace, empty, me, timeout)
    ensures filled == GetFilledSlots(me) == dev.Credit().read
    ensures ok <==> filled != 0 || timeout == 0
  {
    me := dev.ReadMeCsr();
    filled := GetFilledSlots(me);
    empty := [];
    var left: Word := timeout;
    if left != 0 {
      while filled == 0
        invariant NoData(dev) && dev.Waited() == old(dev.Waited()) + |empty|
        invariant Looking(old(dev.trace), dev.trace, empty, me, timeout, left)
        invariant filled == GetFilledSlots(me) == dev.Credit().read
        decreases filled == 0, left
      {
        if left < TIMER_STEP {
          LookIsOver(old(dev.trace), dev.trace, empty, me, timeout, left);
          return false, me, filled, empty;
        }
        ghost var now, look := dev.trace, me;
        dev.Delay();
        left := left - TIMER_STEP;
        me := dev.ReadMeCsr();
        LookAgain(old(dev.trace), now, empty, look, me, timeout, left + TIMER_STEP);
        empty := empty + [look];
        filled := GetFilledSlots(me);
      }
    }
    LookIsOver(old(dev.trace), dev.trace, empty, me, timeout, left);
    ok := true;
  }

  /** Waits until the packet behind the header `word` is in the ring. */
  method WaitWholePacket(dev: Device, dwords: nat, ghost word: Word) returns (ok: bool, ghost ending: Ending)
    requires dwords == DwordsOf(word)
    modifies dev`trace
    ensures NoData(dev) && dev.Waited() <= old(dev.Waited()) + IO_STALLS
    ensures WholeLeaves(old(dev.trace), dev.trace, word, ending)
    ensures ok <==> ending.Arrived?
    ensures ok ==> dev.Credit().read >= dwords
  {
    var left: Word := READ_TIMEOUT;
    var waiting := true;
    ghost var waits: seq<Csr> := [];
    while waiting
      invariant NoData(dev) && dev.Waited() == old(dev.Waited()) + |waits|
      invariant WaitingForWhole(old(dev.trace), dev.trace, waits, dwords, waiting, left)
      invariant !waiting ==> dev.Credit().read >= dwords
      decreases left, waiting
    {
      ghost var now := dev.trace;
      var me := dev.ReadMeCsr();
      if left < TIMER_STEP {
        NeverWhole(old(dev.trace), now, waits, me, word, left);
        return false, Short(word, waits, me);
      }
      dev.Delay();
      StillNotWhole(old(dev.trace), now, waits, me, dwords, left);
      waits := waits + [me];
      left := left - TIMER_STEP;
      waiting := GetFilledSlots(me) < dwords;
    }
    return true, Arrived(word, waits);
  }

  /** The copy loop of one packet: bytes for which there is no space left are read and dropped. */
  method CopyPayload(dev: Device, buf: array<Byte>, off: nat, space: Word, dwords: nat)
    returns (copied: Word, ghost payload: seq<Word>)
    requires dev.Credit().read >= dwords
    requires space > 0 ==> off + space <= buf.Length
    modifies dev`trace, dev`talk, buf
    ensures |payload| == dwords && dev.trace == old(dev.trace) + Taken(payload) && dev.talk <= old(dev.talk)
    ensures buf[..] == Deposit(old(buf[..]), off, PayloadBytes(payload), space)
    ensures copied == Min(4 * dwords, space)
  {
    payload := [];
    copied := 0;
    var left := space;
    var index := 0;
    while index < dwords
      invariant index <= dwords && |payload| == index
      invariant dev.trace == old(dev.trace) + Taken(payload) && dev.talk <= old(dev.talk)
      invariant dev.Credit().read >= dwords - index
      invariant copied == Min(4 * index, space) && left == space - copied
      invariant Stored(old(buf[..]), buf[..], off, PayloadBytes(payload), copied)
    {
      ghost var word := CopyWord(dev, buf, off + 4 * index, Min(4, left), old(buf[..]), off, payload, copied);
      TakeMore(old(dev.trace), payload, word);
      payload := payload + [word];
      copied := copied + Min(4, left);
      left := left - Min(4, left);
      index := index + 1;
    }
    DepositIs(old(buf[..]), buf[..], off, PayloadBytes(payload), space);
  }

  /** One turn: take a dword and keep its first `n` bytes, behind the `copied` bytes of `payload` that are there already. */
  method CopyWord(dev: Device, buf: array<Byte>, at: nat, n: nat, ghost before: seq<Byte>, ghost off: nat, ghost payload: seq<Word>,
                  ghost copied: nat)
    returns (ghost taken: Word)
    requires dev.Credit().read > 0 && n <= 4 && (n > 0 ==> at + n <= buf.Length && copied == 4 * |payload|)
    requires at == off + 4 * |payload| && Stored(before, buf[..], off, PayloadBytes(payload), copied)
    modifies dev`trace, dev`talk, buf
    ensures dev.trace == old(dev.trace) + [ReadData(taken)] && dev.talk <= old(dev.talk)
    ensures dev.Credit().read == old(dev.Credit().read) - 1
    ensures Stored(before, buf[..], off, PayloadBytes(payload + [taken]), copied + n)
  {
    var word := dev.ReadWord();
    StoreBytes(buf, at, word, n);
    StoredMore(before, old(buf[..]), buf[..], off, payload, word, copied, n);
    taken := word;
  }

  lemma BytesOfLonger(payload: seq<Word>, word: Word)
    ensures var bytes := PayloadBytes(payload + [word]);
      && bytes[..4 * |payload|] == PayloadBytes(payload)
      && (forall k :: 0 <= k < 4 ==> bytes[4 * |payload| + k] == ByteOf(word, k))
  {}

  /** The first `copied` of `bytes` are in memory at `off`, and all else is as before. */
  predicate Stored(before: seq<Byte>, after: seq<Byte>, off: nat, bytes: seq<Byte>, copied: nat) {
    && |after| == |before| && copied <= |bytes|
    && forall j :: 0 <= j < |before| ==> after[j] == if off <= j < off + copied then bytes[j - off] else before[j]
  }

  lemma StoredMore(before: seq<Byte>, now: seq<Byte>, after: seq<Byte>, off: nat, payload: seq<Word>, word: Word, copied: nat, n: nat)
    requires Stored(before, now, off, PayloadBytes(payload), copied)
    requires n <= 4 && (n > 0 ==> copied == 4 * |payload|) && |after| == |now|
    requires var at := off + 4 * |payload|;
      forall j :: 0 <= j < |now| ==> after[j] == if at <= j < at + n then ByteOf(word, j - at) else now[j]
    ensures Stored(before, after, off, PayloadBytes(payload + [word]), copied + n)
  {
    BytesOfLonger(payload, word);
    var bytes, more := PayloadBytes(payload), PayloadBytes(payload + [word]);
    assert forall k :: 0 <= k < |bytes| ==> more[k] == more[..4 * |payload|][k];
  }

  lemma DepositIs(before: seq<Byte>, after: seq<Byte>, off: nat, bytes: seq<Byte>, space: nat)
    requires Stored(before, after, off, bytes, Min(|bytes|, space)) && (space > 0 ==> off + space <= |before|)
    ensures after == Deposit(before, off, bytes, space)
  {}

  /** One turn of the receive loop: read a packet to the dword after what has been received, and count it. */
  method ReceivePacket(dev: Device, timeout: Word, buf: array<Byte>, size: Word, total: Word, space: Word, prev: Header)
    returns (status: EfiStatus, header: Header, newTotal: Word, ghost reading: Reading)
    requires size <= buf.Length && space == Space(total, size)
    modifies dev`trace, dev`talk, buf
    ensures ReadLeaves(old(dev.trace), dev.trace, reading, timeout) && !reading.ending.Arrived?
    ensures status == ReadStatus(reading.ending, timeout, space)
    ensures dev.talk <= old(dev.talk)
    ensures Whole(reading) ==>
      && header == PacketOf(reading).header
      && Rx(buf[..], newTotal) == RxStep(Rx(old(buf[..]), total), size, PacketOf(reading))
      && (!header.complete ==> dev.talk < old(dev.talk))
    ensures buf[size..] == old(buf[size..])
  {
    var copied, packetSize;
    status, header, copied, packetSize, reading := HeciPacketRead(dev, timeout, buf, 4 * (total / 4), space, prev);
    newTotal := Add32(total, packetSize);
    DepositStaysInside(old(buf[..]), 4 * (total / 4), PayloadBytes(PayloadOf(reading.ending)), space, size);
    assert buf[size..] == buf[..][size..] && old(buf[size..]) == old(buf[..])[size..];
  }

  lemma DepositStaysInside(buf: seq<Byte>, off: nat, bytes: seq<Byte>, space: nat, size: nat)
    requires (space > 0 ==> off + space <= size) && size <= |buf|
    ensures Deposit(buf, off, bytes, space)[size..] == buf[size..]
  {}

  /** The same turn, accounted for: `readings` are those since `before`, when the buffer held `start`. */
  method ReceiveNext(dev: Device, timeout: Word, buf: array<Byte>, size: Word, total: Word, space: Word, prev: Header,
                     ghost before: Trace, ghost start: seq<Byte>, ghost readings: seq<Reading>)
    returns (status: EfiStatus, header: Header, newTotal: Word, ghost readings': seq<Reading>)
    requires size <= buf.Length && space == Space(total, size) && timeout == READ_TIMEOUT
    requires Progress(before, dev.trace, start, buf[..], size, total, readings, false)
    modifies dev`trace, dev`talk, buf
    ensures status != NoResponse && readings' != [] && (Kept(status) <==> Whole(readings'[|readings'| - 1]))
    ensures Kept(status) ==> Progress(before, dev.trace, start, buf[..], size, newTotal, readings', header.complete)
    ensures !Kept(status) ==> ReadingsLeave(before, dev.trace, readings')
    ensures if Kept(status) && !header.complete then dev.talk < old(dev.talk) else dev.talk <= old(dev.talk)
    ensures buf[size..] == old(buf[size..])
  {
    ghost var reading;
    status, header, newTotal, reading := ReceivePacket(dev, timeout, buf, size, total, space, prev);
    MoreProgress(before, old(dev.trace), dev.trace, start, old(buf[..]), buf[..], size, total, newTotal, readings, reading);
    StatusTells(reading.ending, timeout, space);
    readings' := readings + [reading];
    assert readings'[|readings'| - 1] == reading;
  }

  /** The loop over the packets, up to the first that carries MessageComplete. */
  method ReceivePackets(dev: Device, timeout: Word, buf: array<Byte>, size: Word)
    returns (status: EfiStatus, length: Word, ghost readings: seq<Reading>)
    requires size <= buf.Length && timeout == READ_TIMEOUT
    modifies dev`trace, dev`talk, buf
    ensures ReadingsLeave(old(dev.trace), dev.trace, readings)
    ensures status == ReadingsStatus(readings)
    ensures status == Success ==> Gathered(old(buf[..]), buf[..], size, length, readings)
    ensures status != Success ==> length == size
    ensures buf[size..] == old(buf[size..])
  {
    length, readings := size, [];
    var readTimeout := timeout;
    var header := Header(0, 0, 0, 0, false);
    var total: Word := 0;
    var space := size;
    while !header.complete
      invariant readTimeout == READ_TIMEOUT && space == Space(total, size)
      invariant length == size && buf[size..] == old(buf[size..])
      invariant Progress(old(dev.trace), dev.trace, old(buf[..]), buf[..], size, total, readings, header.complete)
      decreases !header.complete, dev.talk
    {
      status, header, total, readings :=
        ReceiveNext(dev, readTimeout, buf, size, total, space, header, old(dev.trace), old(buf[..]), readings);
      if IsError(status) && status != BufferTooSmall {
        // EFI_NO_RESPONSE needs a zero timeout, and a receive with one never gets past IsMeReady.
        assert status != NoResponse;
        return Aborted, length, readings;
      }
      space := Space(total, size);
      readTimeout := READ_TIMEOUT;
    }
    length := total;
    status := Success;
  }

  /** Reads packets until one carries MessageComplete. `packets` are the ones read. The status is that of the receipt,
      and a receipt says nothing of the caller's buffer. */
  method HeciReceive(dev: Device, blocking: bool, buf: array<Byte>, size: Word)
    returns (status: EfiStatus, length: Word, ghost packets: seq<Packet>, ghost receipt: Receipt)
    requires size <= buf.Length
    modifies dev`trace, dev`talk, buf
    ensures dev.Sent() == old(dev.Sent()) && old(dev.trace) <= dev.trace
    ensures ReceiveLeaves(old(dev.trace), dev.trace, receipt, blocking)
    ensures status == ReceiveStatus(receipt)
    ensures !blocking ==> status != Success && |dev.trace| == |old(dev.trace)| + 1
    ensures status == Success ==>
      && packets == PacketsOf(receipt.readings) && IsMessage(packets)
      && dev.Got() == old(dev.Got()) + Flatten(packets)
      && Rx(buf[..], length) == Reassemble(Rx(old(buf[..]), 0), size, packets)
      && length == TotalLength(packets) % TWO_32
    ensures status != Success ==> length == size
    ensures buf[size..] == old(buf[size..])
    ensures dev.Waited() <= old(dev.Waited()) + ReceiptStalls(receipt)
  {
    packets := [];
    status, length, receipt := ReceiveRecorded(dev, blocking, buf, size);
    ReceiptCounts(old(dev.trace), dev.trace, receipt, blocking);
    if status == Success {
      packets := PacketsOf(receipt.readings);
      TotalIsSum(Rx(old(buf[..]), 0), size, packets);
    }
  }

  method ReceiveRecorded(dev: Device, blocking: bool, buf: array<Byte>, size: Word)
    returns (status: EfiStatus, length: Word, ghost receipt: Receipt)
    requires size <= buf.Length
    modifies dev`trace, dev`talk, buf
    ensures ReceiveLeaves(old(dev.trace), dev.trace, receipt, blocking)
    ensures status == ReceiveStatus(receipt)
    ensures status == Success ==> Gathered(old(buf[..]), buf[..], size, length, receipt.readings)
    ensures status != Success ==> length == size
    ensures buf[size..] == old(buf[size..])
  {
    length, receipt := size, Receipt.NoAccess;
    var ok := dev.CheckAndFixForAccess();
    if !ok {
      return DeviceError, length, receipt;
    }
    var initTimeout: Word, readTimeout: Word := 0, 0;
    if blocking {
      initTimeout, readTimeout := INIT_TIMEOUT, READ_TIMEOUT;
    }
    var ready;
    ghost var wait, readings;
    ready, wait := IsMeReady(dev, initTimeout);
    if !ready {
      NotUpLeaves(old(dev.trace), dev.trace, wait, blocking);
      return Aborted, length, Receipt.NotUp(wait);
    }
    ghost var now := dev.trace;
    status, length, readings := ReceivePackets(dev, readTimeout, buf, size);
    UpLeaves(old(dev.trace), now, dev.trace, wait, readings, blocking);
    receipt := Receipt(wait, readings);
  }

  // ---------- sending ----------

  /** Writes one packet: waits for room, then the header and the dwords of `mem` from `off` on. */
  method HeciPacketWrite(dev: Device, header: Header, mem: seq<Byte>, off: nat) returns (status: EfiStatus, ghost writing: Writing)
    requires off + PadTo4(header.length) <= |mem|
    modifies dev`trace
    ensures dev.Got() == old(dev.Got())
    ensures WriteLeaves(old(dev.trace), dev.trace, writing, [PackHeader(header)] + LoadWords(mem, off, Dwords(header.length)))
    ensures status == WriteStatus(writing)
    ensures dev.Sent() == old(dev.Sent()) + (if writing.Written? then writing.words else [])
    ensures dev.Waited() == old(dev.Waited()) + |writing.full|
  {
    var dwords := Dwords(header.length);
    ghost var words := [PackHeader(header)] + LoadWords(mem, off, dwords);
    var ok;
    ghost var full, look, host, me;
    ok, full, look := WaitForRoom(dev, dwords + 1);
    ghost var now := dev.trace;
    if !ok {
      NeverRoom(old(dev.trace), now, full, look, words);
      return Timeout, NoRoom(full, look);
    }
    dev.WriteWord(PackHeader(header));
    WriteWords(dev, mem, off, dwords);
    HeaderPut(now, PackHeader(header), LoadWords(mem, off, dwords));
    Associates(old(dev.Sent()), [PackHeader(header)], LoadWords(mem, off, dwords));
    var ready;
    ready, host, me := SignalFirmware(dev);
    WordsPut(old(dev.trace), now, full, look, words, host, me);
    writing := Written(full, look, words, host, me);
    status := if ready then Success else NotReady;
  }

  method SignalFirmware(dev: Device) returns (ready: bool, ghost seen: Csr, ghost me: Csr)
    modifies dev`trace
    ensures NoData(dev) && dev.Waited() == old(dev.Waited())
    ensures dev.trace == old(dev.trace) + Signal(seen, me) && ready == me.ready
  {
    var host := dev.ReadHostCsr();
    seen := host;
    dev.WriteHostCsr(host.(intGenerate := true));
    var csr := dev.ReadMeCsr();
    ready, me := csr.ready, csr;
  }

  method WriteWords(dev: Device, mem: seq<Byte>, off: nat, dwords: nat)
    requires off + 4 * dwords <= |mem| && dev.Credit().write >= dwords
    modifies dev`trace
    ensures dev.Got() == old(dev.Got()) && dev.Waited() == old(dev.Waited())
    ensures dev.trace == old(dev.trace) + Put(LoadWords(mem, off, dwords))
    ensures dev.Sent() == old(dev.Sent()) + LoadWords(mem, off, dwords)
  {
    var index := 0;
    while index < dwords
      invariant index <= dwords
      invariant dev.Credit().write >= dwords - index
      invariant dev.trace == old(dev.trace) + Put(LoadWords(mem, off, index))
    {
      var word := LoadWord(mem, off + 4 * index);
      dev.WriteWord(word);
      LoadOneMore(mem, off, index);
      PutMore(old(dev.trace), LoadWords(mem, off, index), word);
      index := index + 1;
    }
    PutCounts(old(dev.trace), LoadWords(mem, off, dwords));
  }

  lemma LoadOneMore(mem: seq<Byte>, off: nat, n: nat)
    requires off + 4 * (n + 1) <= |mem|
    ensures LoadWords(mem, off, n + 1) == LoadWords(mem, off, n) + [LoadWord(mem, off + 4 * n)]
  {}

  method WaitForRoom(dev: Device, needed: nat) returns (ok: bool, ghost full: seq<Csr>, ghost look: Csr)
    modifies dev`trace
    ensures NoData(dev) && dev.Waited() == old(dev.Waited()) + |full|
    ensures Sought(old(dev.trace), dev.trace, full, look, needed)
    ensures ok <==> Room(look) >= needed
    ensures dev.Credit().write == Room(look)
  {
    var left: Word := SEND_TIMEOUT;
    var host := dev.ReadHostCsr();
    full := [];
    while needed > Room(host)
      invariant NoData(dev) && dev.Waited() == old(dev.Waited()) + |full|
      invariant SeekingRoom(old(dev.trace), dev.trace, full, host, needed, left)
      invariant dev.Credit().write == Room(host)
      decreases left
    {
      if left < TIMER_STEP {
        SeekIsOver(old(dev.trace), dev.trace, full, host, needed, left);
        return false, full, host;
      }
      ghost var now, seen := dev.trace, host;
      dev.Delay();
      left := left - TIMER_STEP;
      host := dev.ReadHostCsr();
      SeekAgain(old(dev.trace), now, full, seen, host, needed, left + TIMER_STEP);
      full := full + [seen];
    }
    SeekIsOver(old(dev.trace), dev.trace, full, host, needed, left);
    ok, look := true, host;
  }

  function IoStalls(packets: nat): nat {
    5_000 * packets
  }

  lemma CountPackets(depth: Byte, host: Byte, fw: Byte, mem: seq<Byte>, length: nat)
    requires SendArea(depth, mem, 0, length)
    ensures |Fragments(depth, host, fw, mem, 0, length)| == NumPackets(depth, length)
  {
    if length > 0 {
      FragmentsFormMessage(depth, host, fw, mem, 0, length);
    } else {
      QuotientUnique(ChunkSize(depth) - 1, ChunkSize(depth), 0, ChunkSize(depth) - 1);
    }
  }

  /** One turn of the send loop: as much of the rest of the message as fits the ring. */
  method SendPacket(dev: Device, mem: seq<Byte>, off: nat, end: nat, host: Byte, fw: Byte)
    returns (status: EfiStatus, ghost writing: Writing)
    requires Readable(mem, off, end) && off < end
    modifies dev`trace
    ensures dev.Got() == old(dev.Got())
    ensures WriteLeaves(old(dev.trace), dev.trace, writing, PacketWords(Fragment(dev.hostDepth, host, fw, mem, off, end)))
    ensures status == WriteStatus(writing)
    ensures dev.Sent() == old(dev.Sent()) + (if writing.Written? then writing.words else [])
    ensures dev.Waited() == old(dev.Waited()) + |writing.full|
  {
    var left := end - off;
    var header := Header(fw, host, 0, 0, false);
    if left <= ChunkSize(dev.hostDepth) {
      header := header.(complete := true);
    }
    var sendLength := Min(ChunkSize(dev.hostDepth), left);
    header := header.(length := sendLength % 512);
    FragmentWords(dev.hostDepth, host, fw, mem, off, end, header);
    status, writing := HeciPacketWrite(dev, header, mem, off);
  }

  lemma FragmentWords(depth: Byte, host: Byte, fw: Byte, mem: seq<Byte>, off: nat, end: nat, header: Header)
    requires Readable(mem, off, end) && off < end && header == Fragment(depth, host, fw, mem, off, end).header
    ensures off + PadTo4(header.length) <= |mem|
    ensures PacketWords(Fragment(depth, host, fw, mem, off, end)) == [PackHeader(header)] + LoadWords(mem, off, Dwords(header.length))
  {
    LoadsStayReadable(depth, mem, off, end);
  }

  lemma Prefixes(sent: seq<Packet>, p: Packet, rest: seq<Packet>)
    ensures sent + ([p] + rest) == (sent + [p]) + rest
    ensures sent + [p] <= sent + ([p] + rest)
  {}

  lemma SentOneMore(start: seq<Word>, sent: seq<Word>, sent': seq<Word>, ps: seq<Packet>, p: Packet)
    requires sent == start + Flatten(ps) && sent' == sent + ([PackHeader(p.header)] + p.payload)
    ensures sent' == start + Flatten(ps + [p])
  {
    FlattenOneMore(ps, p);
    Associates(start, Flatten(ps), [PackHeader(p.header)] + p.payload);
  }

  /** What is left to send, and what it makes with the packets already sent. */
  ghost predicate Remains(depth: Byte, host: Byte, fw: Byte, mem: seq<Byte>, off: nat, end: nat, packets: seq<Packet>, all: seq<Packet>) {
    SendArea(depth, mem, off, end) && all == packets + Fragments(depth, host, fw, mem, off, end)
  }

  lemma LessRemains(depth: Byte, host: Byte, fw: Byte, mem: seq<Byte>, off: nat, end: nat, packets: seq<Packet>, all: seq<Packet>)
    requires Remains(depth, host, fw, mem, off, end, packets, all) && off < end
    ensures var packet := Fragment(depth, host, fw, mem, off, end);
      && packets <= all && packets + [packet] <= all
      && Remains(depth, host, fw, mem, NextOffset(depth, off, end), end, packets + [packet], all)
  {
    SendAreaShrinks(depth, mem, off, end);
    Prefixes(packets, Fragment(depth, host, fw, mem, off, end), Fragments(depth, host, fw, mem, NextOffset(depth, off, end), end));
  }

  lemma NothingRemains(depth: Byte, host: Byte, fw: Byte, mem: seq<Byte>, end: nat, packets: seq<Packet>, all: seq<Packet>)
    requires Remains(depth, host, fw, mem, end, end, packets, all)
    ensures packets == all
  {}

  lemma LeftAfter(depth: Byte, length: nat, left: nat)
    requires left <= length
    ensures NextOffset(depth, length - left, length) == length - (left - Min(ChunkSize(depth), left))
  {}

  /** Where the send loop stands between two packets, at `off`: `packets` are those sent since `before`, when the ring's
      record was `start`, and `all` those of the whole message. */
  ghost predicate SendOn(depth: Byte, host: Byte, fw: Byte, mem: seq<Byte>, off: nat, end: nat, packets: seq<Packet>,
                         all: seq<Packet>, before: Trace, now: Trace, start: seq<Word>, writings: seq<Writing>) {
    && Remains(depth, host, fw, mem, off, end, packets, all)
    && Sending(before, now, writings, packets)
    && WordsWritten(now) == start + Flatten(packets)
  }

  lemma SendStarts(depth: Byte, host: Byte, fw: Byte, mem: seq<Byte>, end: nat, all: seq<Packet>, now: Trace)
    requires SendArea(depth, mem, 0, end) && all == Fragments(depth, host, fw, mem, 0, end)
    ensures SendOn(depth, host, fw, mem, 0, end, [], all, now, now, WordsWritten(now), [])
  {
    assert [] + all == all && now + [] == now && WordsWritten(now) + [] == WordsWritten(now);
  }

  lemma SentNext(depth: Byte, host: Byte, fw: Byte, mem: seq<Byte>, off: nat, end: nat, packets: seq<Packet>, all: seq<Packet>,
                 before: Trace, now: Trace, after: Trace, start: seq<Word>, writings: seq<Writing>, w: Writing)
    requires SendOn(depth, host, fw, mem, off, end, packets, all, before, now, start, writings) && off < end
    requires WriteLeaves(now, after, w, PacketWords(Fragment(depth, host, fw, mem, off, end)))
    requires WordsWritten(after) == WordsWritten(now) + (if w.Written? then w.words else [])
    ensures var packet := Fragment(depth, host, fw, mem, off, end);
      && packets + [packet] <= all
      && (w.Written? ==> WordsWritten(after) == start + Flatten(packets + [packet]))
      && if WriteStatus(w) == Success then
           SendOn(depth, host, fw, mem, NextOffset(depth, off, end), end, packets + [packet], all, before, after, start, writings + [w])
         else
           WritingsLeave(before, after, writings + [w], all) && WritingsStatus(writings + [w]) == Aborted
  {
    var packet := Fragment(depth, host, fw, mem, off, end);
    LessRemains(depth, host, fw, mem, off, end, packets, all);
    WritingMore(before, now, after, writings, packets, all, w, packet);
    if w.Written? {
      SentOneMore(start, WordsWritten(now), WordsWritten(after), packets, packet);
    }
  }

  /** The same turn, accounted for. */
  method SendNext(dev: Device, mem: seq<Byte>, off: nat, end: nat, host: Byte, fw: Byte, ghost before: Trace,
                  ghost start: seq<Word>, ghost packets: seq<Packet>, ghost all: seq<Packet>, ghost writings: seq<Writing>)
    returns (status: EfiStatus, ghost off': nat, ghost packets': seq<Packet>, ghost writings': seq<Writing>)
    requires SendOn(dev.hostDepth, host, fw, mem, off, end, packets, all, before, dev.trace, start, writings) && off < end
    modifies dev`trace
    ensures dev.Got() == old(dev.Got())
    ensures dev.Sent() == start + Flatten(packets') && packets' <= all && writings' != [] && |packets'| <= |packets| + 1
    ensures off' == NextOffset(dev.hostDepth, off, end)
    ensures status == Success ==>
      |packets'| == |packets| + 1
      && SendOn(dev.hostDepth, host, fw, mem, off', end, packets', all, before, dev.trace, start, writings')
    ensures status != Success ==> WritingsLeave(before, dev.trace, writings', all) && WritingsStatus(writings') == Aborted
    ensures dev.Waited() <= old(dev.Waited()) + IO_STALLS
  {
    ghost var writing;
    ghost var now := dev.trace;
    status, writing := SendPacket(dev, mem, off, end, host, fw);
    SentNext(dev.hostDepth, host, fw, mem, off, end, packets, all, before, now, dev.trace, start, writings, writing);
    off', packets', writings' := NextOffset(dev.hostDepth, off, end), packets, writings + [writing];
    if writing.Written? {
      packets' := packets + [Fragment(dev.hostDepth, host, fw, mem, off, end)];
    }
  }

  /** What the loads of a message find in memory: the caller's buffer, and after it, if the last dword reaches further,
      whatever follows there. */
  method MemoryAt(mem: array<Byte>, length: nat) returns (seen: seq<Byte>)
    requires length <= mem.Length
    ensures mem[..] <= seen && Readable(seen, 0, length)
    ensures PadTo4(length) <= mem.Length ==> seen == mem[..]
  {
    seen := mem[..];
    if mem.Length < PadTo4(length) {
      var count := PadTo4(length) - mem.Length;
      var past: seq<Byte> := seq(count, k => 0);
      assert |past| == count;
      past :| |past| == count;
      seen := seen + past;
    }
  }

  /** Sends a message of any length. `packets` are the ones that reached the ring, and `seen` is the memory they were
      loaded from. The status is that of the dispatch. */
  method HeciSend(dev: Device, mem: array<Byte>, length: Word, host: Byte, fw: Byte)
    returns (status: EfiStatus, ghost packets: seq<Packet>, ghost seen: seq<Byte>, ghost dispatch: Dispatch)
    requires MakesProgress(dev.hostDepth) && length <= mem.Length
    modifies dev`trace
    ensures mem[..] <= seen && SendArea(dev.hostDepth, seen, 0, length)
    ensures dev.Got() == old(dev.Got()) && old(dev.trace) <= dev.trace
    ensures SendLeaves(old(dev.trace), dev.trace, dispatch, Fragments(dev.hostDepth, host, fw, seen, 0, length))
    ensures status == SendStatus(dispatch)
    ensures status == Unsupported ==> length == 0
    ensures status == Success ==> length > 0
    ensures dev.Sent() == old(dev.Sent()) + Flatten(packets)
    ensures packets <= Fragments(dev.hostDepth, host, fw, seen, 0, length)
    ensures status == Success ==> packets == Fragments(dev.hostDepth, host, fw, seen, 0, length)
    ensures dev.Waited() <= old(dev.Waited()) + (INIT_STALLS - 1) + IoStalls(NumPackets(dev.hostDepth, length))
  {
    var memory := MemoryAt(mem, length);
    seen, packets, dispatch := memory, [], Dispatch.NoAccess;
    ghost var all := Fragments(dev.hostDepth, host, fw, seen, 0, length);
    var ok := dev.CheckAndFixForAccess();
    if !ok {
      return DeviceError, packets, seen, dispatch;
    }
    var ready;
    ghost var wait, look, writings;
    ready, wait := IsMeReady(dev, INIT_TIMEOUT);
    ghost var now := dev.trace;
    if !ready {
      NotUpSends(old(dev.trace), now, wait, all);
      return Aborted, packets, seen, Dispatch.NotUp(wait);
    }
    status, packets, look, writings := SendPackets(dev, memory, length, host, fw);
    UpSends(old(dev.trace), now, dev.trace, wait, look, writings, all);
    dispatch := Dispatch(wait, look, writings);
  }

  /** The send loop: the ring depth is read once, before the first packet. */
  method SendPackets(dev: Device, mem: seq<Byte>, length: Word, host: Byte, fw: Byte)
    returns (status: EfiStatus, ghost packets: seq<Packet>, ghost look: Csr, ghost writings: seq<Writing>)
    requires SendArea(dev.hostDepth, mem, 0, length)
    modifies dev`trace
    ensures dev.Got() == old(dev.Got())
    ensures WritingsLeave(old(dev.trace) + [ReadHost(look)], dev.trace, writings, Fragments(dev.hostDepth, host, fw, mem, 0, length))
    ensures status == if length == 0 then Unsupported else WritingsStatus(writings)
    ensures length == 0 <==> writings == []
    ensures dev.Sent() == old(dev.Sent()) + Flatten(packets)
    ensures packets <= Fragments(dev.hostDepth, host, fw, mem, 0, length)
    ensures status == Success ==> packets == Fragments(dev.hostDepth, host, fw, mem, 0, length)
    ensures dev.Waited() <= old(dev.Waited()) + IoStalls(NumPackets(dev.hostDepth, length))
  {
    packets, writings := [], [];
    var csr := dev.ReadHostCsr();
    look := csr;
    var left := length;
    status := Unsupported;
    ghost var off, all, before := 0, Fragments(dev.hostDepth, host, fw, mem, 0, length), dev.trace;
    CountPackets(dev.hostDepth, host, fw, mem, length);
    SendStarts(dev.hostDepth, host, fw, mem, length, all, before);
    while left != 0
      invariant dev.Got() == old(dev.Got())
      invariant 0 <= left <= length && off == length - left
      invariant SendOn(dev.hostDepth, host, fw, mem, off, length, packets, all, before, dev.trace, old(dev.Sent()), writings)
      invariant if left == length then status == Unsupported && writings == [] else status == Success && writings != []
      invariant dev.Waited() <= old(dev.Waited()) + IoStalls(|packets|)
      decreases left
    {
      SendAreaShrinks(dev.hostDepth, mem, off, length);
      LeftAfter(dev.hostDepth, length, left);
      status, off, packets, writings :=
        SendNext(dev, mem, length - left, length, host, fw, before, old(dev.Sent()), packets, all, writings);
      if IsError(status) {
        return Aborted, packets, look, writings;
      }
      left := left - Min(ChunkSize(csr.depth), left);
    }
    NothingRemains(dev.hostDepth, host, fw, mem, length, packets, all);
    SendingIsOver(before, dev.trace, writings, all);
  }

  /** The packets of `n` turns on a ring of one dword. */
  function EmptyPackets(n: nat, host: Byte, fw: Byte): seq<Packet> {
    if n == 0 then [] else EmptyPackets(n - 1, host, fw) + [Packet(Header(fw, host, 0, 0, false), [])]
  }

  lemma {:induction false} EmptyPrefix(n: nat, m: nat, host: Byte, fw: Byte)
    requires n < m
    ensures |EmptyPackets(n, host, fw)| == n
    ensures EmptyPackets(n, host, fw) + [Packet(Header(fw, host, 0, 0, false), [])] <= EmptyPackets(m, host, fw)
    decreases m
  {
    if n > 0 {
      EmptyPrefix(n - 1, n, host, fw);
    }
    if n + 1 < m {
      EmptyPrefix(n, m - 1, host, fw);
    }
  }

  method SendEmpty(dev: Device, mem: seq<Byte>, off: nat, end: nat, host: Byte, fw: Byte, ghost before: Trace,
                   ghost start: seq<Word>, ghost sent: nat, ghost turns: nat, ghost writings: seq<Writing>)
    returns (status: EfiStatus, ghost sent': nat, ghost writings': seq<Writing>)
    requires dev.hostDepth == 1 && Readable(mem, off, end) && off < end && sent < turns
    requires dev.Sent() == start + Flatten(EmptyPackets(sent, host, fw))
    requires Sending(before, dev.trace, writings, EmptyPackets(sent, host, fw))
    modifies dev`trace
    ensures dev.Got() == old(dev.Got())
    ensures dev.Sent() == start + Flatten(EmptyPackets(sent', host, fw)) && sent <= sent' <= sent + 1 && writings' != []
    ensures status == Success ==> sent' == sent + 1 && Sending(before, dev.trace, writings', EmptyPackets(sent', host, fw))
    ensures status != Success ==>
      WritingsLeave(before, dev.trace, writings', EmptyPackets(turns, host, fw)) && WritingsStatus(writings') == Aborted
  {
    DepthOneMakesNoProgress(host, fw, mem, off, end);
    EmptyPrefix(sent, turns, host, fw);
    ghost var packet, now, got := Packet(Header(fw, host, 0, 0, false), []), dev.trace, dev.Sent();
    ghost var writing;
    status, writing := SendPacket(dev, mem, off, end, host, fw);
    WritingMore(before, now, dev.trace, writings, EmptyPackets(sent, host, fw), EmptyPackets(turns, host, fw), writing, packet);
    sent', writings' := sent, writings + [writing];
    if writing.Written? {
      SentOneMore(start, got, dev.Sent(), EmptyPackets(sent, host, fw), packet);
      sent' := sent + 1;
    }
  }

  /** The send loop on a ring of one dword, for any number of turns: it ends only by a failure, and all it ever puts on the
      ring are headers without payload and without MessageComplete. A message is never sent. */
  method SendTurnsAtDepthOne(dev: Device, mem: seq<Byte>, length: Word, host: Byte, fw: Byte, turns: nat)
    returns (status: EfiStatus, left: Word, ghost sent: nat, ghost writings: seq<Writing>)
    requires dev.hostDepth == 1 && Readable(mem, 0, length) && length > 0
    modifies dev`trace
    ensures dev.Got() == old(dev.Got())
    ensures dev.Sent() == old(dev.Sent()) + Flatten(EmptyPackets(sent, host, fw))
    ensures WritingsLeave(old(dev.trace), dev.trace, writings, EmptyPackets(turns, host, fw)) && status == WritingsStatus(writings)
    ensures left == length && (status == Aborted || sent == turns) && sent <= turns
  {
    left, sent, writings := length, 0, [];
    status := Unsupported;
    var turn := 0;
    while left != 0 && turn < turns
      invariant dev.Got() == old(dev.Got())
      invariant left == length && turn == sent <= turns
      invariant if writings == [] then status == Unsupported else status == Success
      invariant Sending(old(dev.trace), dev.trace, writings, EmptyPackets(sent, host, fw))
      invariant dev.Sent() == old(dev.Sent()) + Flatten(EmptyPackets(sent, host, fw))
      decreases turns - turn
    {
      status, sent, writings :=
        SendEmpty(dev, mem, length - left, length, host, fw, old(dev.trace), old(dev.Sent()), sent, turns, writings);
      if IsError(status) {
        return Aborted, left, sent, writings;
      }
      left := left - Min(ChunkSize(dev.hostDepth), left);
      turn := turn + 1;
    }
    assert sent == turns;
    SendingIsOver(old(dev.trace), dev.trace, writings, EmptyPackets(sent, host, fw));
  }
}
