/** What a device was asked to do, call by call, and what each call meant on the wire: the log that the session layer
    leaves (src/uefi/heci_efi.c:118-207). */
module HeciWire {
  import opened HeciRegisters
  import opened HeciPackets
  import HeciHandshake
  import HeciReadings
  import HeciWritings

  /** One call of the transport, with the status it returned. `size` is the room the caller gave a receive, `content` its
      buffer afterwards, `hosts` the host addresses that the packets received were meant for, which the source never looks
      at. */
  datatype Exchange =
    | Reset(outcome: EfiStatus)
    | Sent(hostAddress: Byte, fwAddress: Byte, payload: seq<Byte>, outcome: EfiStatus)
    | Received(size: Word, length: Word, content: seq<Byte>, hosts: seq<Byte>, outcome: EfiStatus)

  /** The words written are the packets of the message, and no word was read. */
  ghost predicate WentOut(depth: Byte, t: Trace, t': Trace, mem: seq<Byte>, e: Exchange)
    requires e.Sent?
  {
    && e.payload <= mem && SendArea(depth, mem, 0, |e.payload|)
    && WordsRead(t') == WordsRead(t)
    && WordsWritten(t') == WordsWritten(t) + Flatten(Fragments(depth, e.hostAddress, e.fwAddress, mem, 0, |e.payload|))
  }

  /** The words read are the packets of one message, put together in the buffer, and no word was written. */
  ghost predicate CameIn(t: Trace, t': Trace, buf: seq<Byte>, packets: seq<Packet>, e: Exchange)
    requires e.Received?
  {
    && e.size <= |buf| && IsMessage(packets)
    && WordsWritten(t') == WordsWritten(t)
    && WordsRead(t') == WordsRead(t) + Flatten(packets)
    && Rx(e.content, e.length) == Reassemble(Rx(buf, 0), e.size, packets) && e.hosts == Hosts(packets)
  }

  /** The status of an exchange is the one that the accesses of its call, and the answers to them, bring about. */
  ghost predicate Explained(depth: Byte, e: Exchange, t: Trace, t': Trace) {
    match e
    case Reset(outcome) => HeciHandshake.ResetLeaves(t, t', outcome)
    case Sent(host, fw, payload, outcome) => exists mem, dispatch :: Dispatched(depth, host, fw, payload, outcome, t, t', mem, dispatch)
    case Received(_, _, _, _, outcome) => exists receipt :: TookIn(outcome, t, t', receipt)
  }

  ghost predicate Dispatched(depth: Byte, host: Byte, fw: Byte, payload: seq<Byte>, outcome: EfiStatus, t: Trace, t': Trace,
                             mem: seq<Byte>, dispatch: HeciWritings.Dispatch) {
    && payload <= mem && SendArea(depth, mem, 0, |payload|)
    && HeciWritings.SendLeaves(t, t', dispatch, Fragments(depth, host, fw, mem, 0, |payload|))
    && outcome == HeciWritings.SendStatus(dispatch)
  }

  ghost predicate TookIn(outcome: EfiStatus, t: Trace, t': Trace, receipt: HeciReadings.Receipt) {
    HeciReadings.ReceiveLeaves(t, t', receipt, true) && outcome == HeciReadings.ReceiveStatus(receipt)
  }

  /** What exchange `e` did to the device, whose record went from `t` to `t'`. */
  ghost predicate OnWire(depth: Byte, e: Exchange, t: Trace, t': Trace) {
    && t <= t'
    && match e
       case Reset(_) => WordsRead(t') == WordsRead(t) && WordsWritten(t') == WordsWritten(t)
       case Sent(_, _, _, outcome) =>
         WordsRead(t') == WordsRead(t) && (outcome == Success ==> exists mem :: WentOut(depth, t, t', mem, e))
       case Received(_, _, _, _, outcome) =>
         WordsWritten(t') == WordsWritten(t) && (outcome == Success ==> exists buf, packets :: CameIn(t, t', buf, packets, e))
  }

  ghost predicate EntryOnWire(depth: Byte, log: seq<Exchange>, marks: seq<Trace>, j: int) {
    0 <= j < |log| && j + 1 < |marks| && OnWire(depth, log[j], marks[j], marks[j + 1])
  }

  /** `marks` are the states of the record before, between and after the exchanges of `log`. */
  ghost predicate Wire(depth: Byte, log: seq<Exchange>, marks: seq<Trace>) {
    |marks| == |log| + 1 && forall j :: 0 <= j < |log| ==> EntryOnWire(depth, log, marks, j)
  }

  ghost predicate Recorded(depth: Byte, log: seq<Exchange>, marks: seq<Trace>, t: Trace) {
    Wire(depth, log, marks) && marks[|log|] == t
  }

  lemma RecordedGrows(depth: Byte, log: seq<Exchange>, marks: seq<Trace>, t: Trace, e: Exchange, t': Trace)
    requires Recorded(depth, log, marks, t) && OnWire(depth, e, t, t')
    ensures Recorded(depth, log + [e], marks + [t'], t')
  {
    forall j | 0 <= j < |log + [e]|
      ensures EntryOnWire(depth, log + [e], marks + [t'], j)
    {
      assert j < |log| ==> EntryOnWire(depth, log, marks, j);
    }
  }

  /** A stretch of the log is on the wire by itself. */
  lemma WireSlice(depth: Byte, log: seq<Exchange>, marks: seq<Trace>, i: nat, j: nat)
    requires Wire(depth, log, marks) && i <= j <= |log|
    ensures Wire(depth, log[i..j], marks[i..j + 1])
  {
    var part, partMarks := log[i..j], marks[i..j + 1];
    forall k | 0 <= k < |part|
      ensures EntryOnWire(depth, part, partMarks, k)
    {
      assert EntryOnWire(depth, log, marks, i + k);
    }
  }
}
