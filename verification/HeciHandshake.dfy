/** The reset handshake as the record of register accesses shows it (src/uefi/heci_core.c:138-256). */
module HeciHandshake {
  import opened HeciRegisters
  import opened HeciPolling

  /** Where the record of register accesses has got to in the reset algorithm. */
  datatype Phase = Idle | ResetRequested | HostDown | FirmwareUp | Enabled

  function NextPhase(p: Phase, e: Event): Phase {
    match (p, e)
    case (Idle, ReadHost(c)) => if c.reset then ResetRequested else Idle
    case (Idle, WriteHost(c)) => if c.reset && c.intGenerate then ResetRequested else Idle
    case (ResetRequested, ReadHost(c)) => if c.ready then ResetRequested else HostDown
    case (HostDown, ReadMe(c)) => if c.ready then FirmwareUp else HostDown
    case (FirmwareUp, ReadMe(c)) => if c.ready then FirmwareUp else HostDown
    case (FirmwareUp, WriteHost(c)) => if !c.reset && c.ready && c.intGenerate then Enabled else FirmwareUp
    case _ => p
  }

  /** The phase reached by the accesses from `start` on. */
  function PhaseSince(t: Trace, start: nat): Phase {
    if |t| <= start then Idle else NextPhase(PhaseSince(t[..|t| - 1], start), t[|t| - 1])
  }

  lemma PhaseStep(t: Trace, start: nat, e: Event)
    requires start <= |t|
    ensures PhaseSince(t + [e], start) == NextPhase(PhaseSince(t, start), e)
  {
    assert (t + [e])[..|t|] == t;
  }

  /** From `at` on a reset is asked for, unless one is under way: of what was read, just the two bits are changed. */
  predicate RequestedAt(t: Trace, at: nat) {
    && at < |t| && t[at].ReadHost?
    && (!t[at].csr.reset ==> at + 1 < |t| && t[at + 1] == WriteHost(t[at].csr.(reset := true, intGenerate := true)))
  }

  lemma RequestStays(t: Trace, t': Trace, at: nat)
    requires RequestedAt(t, at) && t <= t'
    ensures RequestedAt(t', at)
  {}

  /** And at the end the host side is brought up, again on top of what was read. */
  predicate EnabledAt(t: Trace, at: nat) {
    at + 1 < |t| && t[at].ReadHost? && t[at + 1] == WriteHost(t[at].csr.(reset := false, intGenerate := true, ready := true))
  }

  /** What a reset leaves, by the status it returns: the whole handshake, or a device that cannot be reached, or a budget
      used up before it was through. */
  predicate ResetLeaves(before: Trace, after: Trace, status: EfiStatus) {
    && before <= after
    && (status == Success <==> PhaseSince(after, |before|) == Enabled)
    && (status != DeviceError ==> RequestedAt(after, |before| + 1))
    && (status == Success ==> |after| >= |before| + 2 && EnabledAt(after, |after| - 2))
    && (status == DeviceError <==> after == before + [Probe(false)])
    && Stalls(after) <= Stalls(before) + INIT_STALLS
    && (status == Timeout ==> Stalls(after) == Stalls(before) + INIT_STALLS)
    && (status == Success || status == DeviceError || status == Timeout)
  }
}
