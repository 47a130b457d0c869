/** A message on its whole way: cut up by HeciSend, carried over a ring, put together by HeciReceive
    (src/uefi/heci_core.c:451-761). */
module HeciLoopback {
  import opened HeciRegisters
  import opened HeciDevice
  import opened HeciPackets
  import opened HeciCore
  import HeciRing

  /** The round trip in terms of the caller's bytes, which the loads of the last dword may reach past. */
  lemma LoopbackOf(depth: Byte, host: Byte, fw: Byte, bytes: seq<Byte>, seen: seq<Byte>, length: Word,
                   buf: seq<Byte>, size: Word, received: seq<Packet>)
    requires bytes <= seen && SendArea(depth, seen, 0, length) && 0 < length <= |bytes|
    requires length <= size <= |buf|
    requires IsMessage(received) && Flatten(received) == Flatten(Fragments(depth, host, fw, seen, 0, length))
    ensures Delivered(Reassemble(Rx(buf, 0), size, received), bytes, length) <==> LengthsFit(depth, length)
  {
    LoopbackRoundTrip(depth, host, fw, seen, length, buf, size, received);
    assert seen[..|bytes|][..length] == seen[..length];
  }

  /** Send on one device and receive on another. When both succeed and the receiver read exactly the dwords that the
      sender wrote, the message has arrived whole, except on a ring of more than 128 dwords with 512 bytes or more. */
  method Loopback(a: Device, b: Device, mem: array<Byte>, length: Word, host: Byte, fw: Byte, buf: array<Byte>, size: Word)
    returns (sent: EfiStatus, received: EfiStatus, count: Word)
    requires a != b && mem != buf
    requires MakesProgress(a.hostDepth) && length <= mem.Length && length <= size <= buf.Length
    modifies a`trace, b`trace, b`talk, buf
    ensures old(a.Sent()) <= a.Sent() && (received == Success ==> old(b.Got()) <= b.Got())
    ensures sent == Success && received == Success ==>
      a.Sent()[|old(a.Sent())|..] == b.Got()[|old(b.Got())|..] ==>
        (Delivered(Rx(buf[..], count), mem[..], length) <==> LengthsFit(a.hostDepth, length))
  {
    ghost var out, into, seen, receipt, dispatch;
    sent, out, seen, dispatch := HeciSend(a, mem, length, host, fw);
    assert a.Sent()[|old(a.Sent())|..] == Flatten(out);
    received, count, into, receipt := HeciReceive(b, true, buf, size);
    if sent == Success && received == Success {
      assert b.Got()[|old(b.Got())|..] == Flatten(into);
      if Flatten(out) == Flatten(into) {
        LoopbackOf(a.hostDepth, host, fw, mem[..], seen, length, old(buf[..]), size, into);
      }
    }
  }

  /** Over the ring, under every interleaving: once the firmware has drained what the host wrote for one message, what
      it holds reads as packets in one way only, and those packets carry the message. */
  lemma MessageCrossesRing(start: HeciRing.Link, run: seq<HeciRing.Step>, host: Byte, fw: Byte, mem: seq<Byte>, length: Word,
                           received: seq<Packet>, buf: seq<Byte>, size: Word)
    requires HeciRing.Fresh(start) && HeciRing.Feasible(start, run) && HeciRing.NoResetSince(run, 0)
    requires HeciRing.Licensed(run)
    requires SendArea(start.h.depth, mem, 0, length) && 0 < length <= size <= |buf|
    requires WordsWritten(HeciRing.HostTrace(run)) == Flatten(Fragments(start.h.depth, host, fw, mem, 0, length))
    requires |HeciRing.After(start, run).h.taken| == |WordsWritten(HeciRing.HostTrace(run))|
    requires IsMessage(received) && Flatten(received) == HeciRing.After(start, run).h.taken
    ensures received == Fragments(start.h.depth, host, fw, mem, 0, length)
    ensures Delivered(Reassemble(Rx(buf, 0), size, received), mem, length) <==> LengthsFit(start.h.depth, length)
  {
    HeciRing.EndToEnd(start, run);
    FragmentsFormMessage(start.h.depth, host, fw, mem, 0, length);
    PacketsUnique(received, Fragments(start.h.depth, host, fw, mem, 0, length));
    LoopbackRoundTrip(start.h.depth, host, fw, mem, length, buf, size, received);
  }
}
