/** The device as the host sees it. Every register read returns an arbitrary value, so whatever is proved
    of the code that calls these methods holds for every device behaviour. */
module HeciDevice {
  import opened HeciRegisters
  import opened HeciWire

  /** An arbitrary register value. */
  method AnyCsr() returns (csr: Csr) {
    var enable: bool, status: bool, generate: bool := *, *, *;
    var ready: bool, reset: bool := *, *;
    var reserved: Reserved3 :| 0 <= reserved < 8;
    var r: Byte :| 0 <= r < 0x100;
    var w: Byte :| 0 <= w < 0x100;
    var d: Byte :| 0 <= d < 0x100;
    csr := Csr(enable, status, generate, ready, reset, reserved, r, w, d);
  }

  class Device {
    /** The depth field of H_CSR is a property of the hardware. */
    const hostDepth: Byte

    /** How many more words with the top bit clear the firmware will produce. A header without its
        MessageComplete bit is such a word, so each run of the receive loop that returns is a run with
        some initial value of `talk`, and the runs that never return are the ones left out. */
    var talk: nat

    /** Its type says it: the host moves no dword without a credit. */
    ghost var trace: DisciplinedTrace

    /** The transport calls made on the device so far, by all its handles, and the states of `trace` between them. */
    ghost var log: seq<Exchange>
    ghost var marks: seq<Trace>

    /** The log accounts for all that was done to the device. */
    ghost predicate InStep()
      reads this
    {
      Recorded(hostDepth, log, marks, trace)
    }

    ghost method Enter(e: Exchange, before: Trace)
      requires Recorded(hostDepth, log, marks, before) && OnWire(hostDepth, e, before, trace)
      modifies `log, `marks
      ensures InStep() && log == old(log) + [e] && marks == old(marks) + [trace]
    {
      RecordedGrows(hostDepth, log, marks, before, e, trace);
      log, marks := log + [e], marks + [trace];
    }

    ghost function Sent(): seq<Word>
      reads this
    {
      WordsWritten(trace)
    }

    ghost function Got(): seq<Word>
      reads this
    {
      WordsRead(trace)
    }

    ghost function Waited(): nat
      reads this
    {
      Stalls(trace)
    }

    ghost function Credit(): Credits
      reads this
    {
      CreditsAfter(trace)
    }

    constructor (depth: Byte, talk: nat)
      ensures trace == [] && log == [] && InStep() && hostDepth == depth && this.talk == talk
    {
      hostDepth := depth;
      this.talk := talk;
      trace, log, marks := [], [], [[]];
    }

    ghost method Record(e: Event)
      requires Covered(Credit(), e)
      modifies `trace
      ensures trace == old(trace) + [e] && Credit() == Advance(old(Credit()), e)
      ensures Sent() == old(Sent()) + (match e case WriteData(w) => [w] case _ => [])
      ensures Got() == old(Got()) + (match e case ReadData(w) => [w] case _ => [])
      ensures Waited() == old(Waited()) + (if e.Stall? then 1 else 0)
    {
      trace := trace + [e];
      assert trace[..|trace| - 1] == old(trace);
    }

    method CheckAndFixForAccess() returns (ok: bool)
      modifies `trace
      ensures trace == old(trace) + [Probe(ok)]
      ensures Sent() == old(Sent()) && Got() == old(Got()) && Waited() == old(Waited())
    {
      ok := *;
      Record(Probe(ok));
    }

    method ReadHostCsr() returns (csr: Csr)
      modifies `trace
      ensures trace == old(trace) + [ReadHost(csr)] && Credit() == Advance(old(Credit()), ReadHost(csr))
      ensures Sent() == old(Sent()) && Got() == old(Got()) && Waited() == old(Waited())
      ensures csr.depth == hostDepth
    {
      csr := AnyCsr();
      csr := csr.(depth := hostDepth);
      Record(ReadHost(csr));
    }

    method ReadMeCsr() returns (csr: Csr)
      modifies `trace
      ensures trace == old(trace) + [ReadMe(csr)] && Credit() == Advance(old(Credit()), ReadMe(csr))
      ensures Sent() == old(Sent()) && Got() == old(Got()) && Waited() == old(Waited())
    {
      csr := AnyCsr();
      Record(ReadMe(csr));
    }

    method WriteHostCsr(csr: Csr)
      modifies `trace
      ensures trace == old(trace) + [WriteHost(csr)] && Credit() == Advance(old(Credit()), WriteHost(csr))
      ensures Sent() == old(Sent()) && Got() == old(Got()) && Waited() == old(Waited())
    {
      Record(WriteHost(csr));
    }

    method WriteWord(w: Word)
      requires Credit().write > 0
      modifies `trace
      ensures trace == old(trace) + [WriteData(w)] && Credit() == Advance(old(Credit()), WriteData(w))
      ensures Sent() == old(Sent()) + [w] && Got() == old(Got()) && Waited() == old(Waited())
    {
      Record(WriteData(w));
    }

    method ReadWord() returns (w: Word)
      requires Credit().read > 0
      modifies `trace, `talk
      ensures trace == old(trace) + [ReadData(w)] && Credit() == Advance(old(Credit()), ReadData(w))
      ensures Sent() == old(Sent()) && Got() == old(Got()) + [w] && Waited() == old(Waited())
      ensures talk == if w < 0x8000_0000 then old(talk) - 1 else old(talk)
    {
      w :| 0 <= w < 0x1_0000_0000;
      if w < 0x8000_0000 {
        if talk == 0 {
          w := w + 0x8000_0000;
        } else {
          talk := talk - 1;
        }
      }
      Record(ReadData(w));
    }

    method Delay()
      modifies `trace
      ensures trace == old(trace) + [Stall] && Credit() == old(Credit())
      ensures Sent() == old(Sent()) && Got() == old(Got()) && Waited() == old(Waited()) + 1
    {
      Record(Stall);
    }
  }
}
