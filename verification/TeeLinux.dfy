/** The Linux back end: the libmei client (src/linux/mei.c) and the handle over it (src/linux/metee_linux.c).
    The kernel is free: every system call may succeed, or fail with any error number above zero. */
module TeeLinux {
  import opened HeciRegisters
  import opened TeeSession
  import opened Wrappers

  // error numbers, as Linux defines them
  const ENOENT := 2
  const ENOMEM := 12
  const EACCES := 13
  const EBUSY := 16
  const ENODEV := 19
  const EINVAL := 22
  const ENOTTY := 25
  const ENOSPC := 28
  const ENAMETOOLONG := 36
  const ENODATA := 61
  const ETIME := 62
  const EOPNOTSUPP := 95
  const ECANCELED := 125

  const INT_MAX := 0x7FFF_FFFF
  const CANCEL_BYTES := 2 // "X" and its terminator

  type Errno = e: int | 0 < e witness 1

  /** A failed call answers with its error number negated. */
  function Rc(errno: Errno): int {
    0 - errno
  }

  datatype ClientState = Zero | Initialized | Connected | Disconnected | NotPresent | VersionMismatch | Failed | Disabled

  /** The state that a failed system call leaves behind. */
  function StateAfter(errno: nat, state: ClientState): ClientState {
    if errno == 0 then state
    else if errno == ENOTTY then NotPresent
    else if errno == EBUSY || errno == ENODEV then Disconnected
    else if errno == EOPNOTSUPP then state
    else Failed
  }

  function StatusOf(rc: int): TeeStatus {
    if rc == 0 then TeeSuccess
    else if rc == -ENOTTY then TeeClientNotFound
    else if rc == -EBUSY then TeeBusy
    else if rc == -ENODEV then TeeDisconnected
    else if rc == -ETIME then TeeTimeout
    else if rc == -EACCES then TeePermissionDenied
    else if rc == -EOPNOTSUPP || rc == -ENODATA then TeeNotSupported
    else if rc == -ECANCELED then TeeUnableToComplete
    else if rc == -ENOSPC then TeeInsufficientBuffer
    else TeeInternalError
  }

  function InitStatusOf(rc: int): TeeStatus {
    if rc == 0 then TeeSuccess
    else if rc == -ENOENT || rc == -ENAMETOOLONG then TeeDeviceNotFound
    else if rc == -EBUSY then TeeBusy
    else if rc == -ENODEV then TeeDeviceNotReady
    else if rc == -ETIME then TeeTimeout
    else if rc == -EACCES then TeePermissionDenied
    else TeeInternalError
  }

  /** What the device was asked to do, with the kernel's answer. */
  datatype Op =
    | Connects(reply: Outcome<ClientInfo, Errno>)
    | Reads(got: Outcome<seq<Byte>, Errno>)
    | Writes(taken: Outcome<seq<Byte>, Errno>)

  /** How poll ended; Woken says whether the cancel pipe was among the ready descriptors. */
  datatype Poll = Broken(errno: Errno) | Silent | Woken(pipe: bool)

  datatype Event =
    | Refused(call: Call)
    | ConnectEvent(reply: Outcome<ClientInfo, Errno>)
    | ReadEvent(poll: Poll, got: Outcome<seq<Byte>, Errno>)
    | WriteEvent(poll: Poll, taken: Outcome<seq<Byte>, Errno>)
    | CancelEvent(written: bool)

  /** The libmei client, with all it has asked of the device. */
  datatype Client = Client(state: ClientState, bufSize: nat, protVer: Byte, ops: seq<Op>)

  datatype LinuxState = LinuxState(client: Client, maxMsgLen: nat, protocolVer: Byte, pipeBytes: nat)

  /** poll cannot miss a byte that lies in the pipe. */
  predicate Feasible(s: LinuxState, e: Event) {
    match e
    case ReadEvent(poll, _) => CanEnd(poll, s.pipeBytes)
    case WriteEvent(poll, _) => CanEnd(poll, s.pipeBytes)
    case _ => true
  }

  predicate CanEnd(poll: Poll, pipeBytes: nat) {
    pipeBytes > 0 ==> poll.Broken? || poll == Woken(true)
  }

  function AfterPoll(poll: Poll): int {
    match poll
    case Broken(errno) => Rc(errno)
    case Silent => -ETIME
    case Woken(pipe) => if pipe then -ECANCELED else 0
  }

  /** mei_connect: a firmware client older than the last one accepted is turned away. */
  function ClientConnect(c: Client, reply: Outcome<ClientInfo, Errno>): (Client, int) {
    if c.state == Connected || c.state == Disabled then (c, -EINVAL)
    else
      var ops := c.ops + [Connects(reply)];
      match reply
      case Err(errno) => (c.(state := StateAfter(errno, c.state), ops := ops), Rc(errno))
      case Ok(info) =>
        if c.protVer > 0 && info.protocolVer < c.protVer then (c.(state := VersionMismatch, ops := ops), -EINVAL)
        else (Client(Connected, info.maxMsgLen, info.protocolVer, ops), 0)
  }

  /** mei_recv_msg and mei_send_msg: a transfer that the kernel answered with `r`. */
  function ClientTransfer(c: Client, op: Op, r: Outcome<seq<Byte>, Errno>): (Client, int) {
    if c.state != Connected then (c, -EINVAL)
    else if r.Ok? then (c.(ops := c.ops + [op]), |r.value|)
    else (c.(state := StateAfter(r.error, c.state), ops := c.ops + [op]), Rc(r.error))
  }

  function AfterTransfer(s: LinuxState, poll: Poll, op: Op, r: Outcome<seq<Byte>, Errno>): (LinuxState, TeeStatus) {
    if s.client.state != Connected then (s, TeeDisconnected)
    else if AfterPoll(poll) != 0 then (s, StatusOf(AfterPoll(poll)))
    else
      var (c, rc) := ClientTransfer(s.client, op, r);
      (s.(client := c), if rc < 0 then StatusOf(rc) else TeeSuccess)
  }

  function After(s: LinuxState, e: Event): (LinuxState, TeeStatus) {
    match e
    case Refused(_) => (s, TeeInvalidParameter)
    case ConnectEvent(reply) =>
      var (c, rc) := ClientConnect(s.client, reply);
      if rc != 0 then (s.(client := c), StatusOf(rc))
      else (s.(client := c, maxMsgLen := c.bufSize, protocolVer := c.protVer), TeeSuccess)
    case ReadEvent(poll, got) => AfterTransfer(s, poll, Reads(got), got)
    case WriteEvent(poll, taken) => AfterTransfer(s, poll, Writes(taken), taken)
    case CancelEvent(written) => (if written then s.(pipeBytes := s.pipeBytes + CANCEL_BYTES) else s, TeeSuccess)
  }

  // ---- runs ----

  /** The state after the first `n` events. */
  function At(s: LinuxState, es: seq<Event>, n: nat): LinuxState
    requires n <= |es|
  {
    if n == 0 then s else After(At(s, es, n - 1), es[n - 1]).0
  }

  ghost predicate IsLinuxRun(s: LinuxState, es: seq<Event>) {
    forall n :: 0 <= n < |es| ==> Feasible(At(s, es, n), es[n])
  }

  function Abstract(s: LinuxState): Session {
    Session(s.client.state == Connected, s.maxMsgLen, s.protocolVer)
  }

  function StepOf(s: LinuxState, e: Event): Step {
    var (s', status) := After(s, e);
    var call := match e
      case Refused(c) => c
      case ConnectEvent(_) => Call.Connect
      case ReadEvent(_, _) => Call.Read
      case WriteEvent(_, _) => Call.Write
      case CancelEvent(_) => Call.Query;
    Step(call, !e.Refused?, status, s'.client.ops != s.client.ops)
  }

  lemma StepIsAllowed(s: LinuxState, e: Event)
    requires Feasible(s, e)
    ensures Allowed(Abstract(s), StepOf(s, e), Abstract(After(s, e).0))
  {}

  ghost function AbstractRun(s: LinuxState, es: seq<Event>): Run {
    Run(seq(|es| + 1, n requires 0 <= n <= |es| => Abstract(At(s, es, n))),
        seq(|es|, n requires 0 <= n < |es| => StepOf(At(s, es, n), es[n])))
  }

  /** Every run of the Linux back end is a run of the two-state session. */
  lemma LinuxRefinesSession(s: LinuxState, es: seq<Event>)
    requires IsLinuxRun(s, es)
    ensures IsRun(AbstractRun(s, es))
  {
    forall n | 0 <= n < |es|
      ensures Allowed(Abstract(At(s, es, n)), StepOf(At(s, es, n), es[n]), Abstract(At(s, es, n + 1)))
    {
      StepIsAllowed(At(s, es, n), es[n]);
    }
  }

  /** A handle as TeeInit leaves it. */
  predicate JustOpened(s: LinuxState) {
    && (s.client.state == Initialized || s.client.state == Disabled)
    && s == LinuxState(Client(s.client.state, 0, 0, []), 0, 0, 0)
  }

  /** What the handle reports of its client is what the client holds, at every point of every run. */
  lemma {:induction false} HandleMirrorsClient(s: LinuxState, es: seq<Event>, n: nat)
    requires JustOpened(s) && n <= |es|
    ensures At(s, es, n).maxMsgLen == At(s, es, n).client.bufSize && At(s, es, n).protocolVer == At(s, es, n).client.protVer
  {
    if n == 0 {
    } else {
      HandleMirrorsClient(s, es, n - 1);
    }
  }

  /** The answer to the last connect that succeeded, among the first `n` events. */
  function LastInfo(s: LinuxState, es: seq<Event>, n: nat): ClientInfo
    requires n <= |es|
  {
    if n == 0 then ClientInfo(s.maxMsgLen, s.protocolVer)
    else if Answered(es[n - 1]) && StepOf(At(s, es, n - 1), es[n - 1]).status == TeeSuccess then es[n - 1].reply.value
    else LastInfo(s, es, n - 1)
  }

  predicate Answered(e: Event) {
    e.ConnectEvent? && e.reply.Ok?
  }

  lemma ReportStep(s: LinuxState, e: Event)
    ensures var s' := After(s, e).0;
      if Answered(e) && StepOf(s, e).status == TeeSuccess
      then s'.maxMsgLen == e.reply.value.maxMsgLen && s'.protocolVer == e.reply.value.protocolVer
      else s'.maxMsgLen == s.maxMsgLen && s'.protocolVer == s.protocolVer
  {}

  /** The length and version that the handle reports are those the kernel gave with the last connect that succeeded. */
  lemma {:induction false} ReportsLastConnect(s: LinuxState, es: seq<Event>, n: nat)
    requires n <= |es|
    ensures At(s, es, n).maxMsgLen == LastInfo(s, es, n).maxMsgLen
    ensures At(s, es, n).protocolVer == LastInfo(s, es, n).protocolVer
  {
    if n == 0 {
    } else {
      ReportsLastConnect(s, es, n - 1);
      ReportStep(At(s, es, n - 1), es[n - 1]);
    }
  }

  /** A client that was not disabled at init never is: whatever failed before, a connect outside a connection reaches the
      device, and succeeds exactly when the kernel accepts it and the firmware is not older than the last one accepted. */
  lemma {:induction false} ReconnectIsOpen(s: LinuxState, es: seq<Event>, n: nat)
    requires s.client.state != Disabled && n <= |es|
    ensures At(s, es, n).client.state != Disabled
    ensures n < |es| && es[n].ConnectEvent? && At(s, es, n).client.state != Connected ==>
      var t, e := At(s, es, n), es[n];
      && After(t, e).0.client.ops == t.client.ops + [Connects(e.reply)]
      && (After(t, e).1 == TeeSuccess <==> e.reply.Ok? && e.reply.value.protocolVer >= t.client.protVer)
      && (After(t, e).1 == TeeSuccess <==> After(t, e).0.client.state == Connected)
  {
    if n == 0 {
    } else {
      ReconnectIsOpen(s, es, n - 1);
    }
  }

  lemma {:induction false} VersionNeverDecreases(s: LinuxState, es: seq<Event>, n: nat, m: nat)
    requires n <= m <= |es|
    ensures At(s, es, n).client.protVer <= At(s, es, m).client.protVer
    decreases m
  {
    if n == m {
    } else {
      VersionNeverDecreases(s, es, n, m - 1);
    }
  }

  /** A reconnect to firmware older than any client accepted before it fails, and says so only as an internal error. */
  lemma OlderFirmwareIsTurnedAway(s: LinuxState, es: seq<Event>, n: nat, m: nat)
    requires n < m < |es| && es[n].ConnectEvent? && es[m].ConnectEvent? && es[n].reply.Ok? && es[m].reply.Ok?
    requires StepOf(At(s, es, n), es[n]).status == TeeSuccess
    requires es[m].reply.value.protocolVer < es[n].reply.value.protocolVer
    ensures StepOf(At(s, es, m), es[m]).status == TeeInternalError
    ensures At(s, es, m).client.state != Connected ==> At(s, es, m + 1).client.state != Connected
  {
    VersionNeverDecreases(s, es, n + 1, m);
  }

  /** A client disabled at init stays so: no connect, read or write on the handle ever succeeds or reaches the device. */
  lemma {:induction false} DisabledForever(s: LinuxState, es: seq<Event>, n: nat)
    requires s.client.state == Disabled && n <= |es|
    ensures At(s, es, n).client == s.client
    ensures n < |es| && !es[n].CancelEvent? ==> After(At(s, es, n), es[n]).1 != TeeSuccess
  {
    if n == 0 {
    } else {
      DisabledForever(s, es, n - 1);
    }
  }

  predicate IsTransfer(e: Event) {
    e.ReadEvent? || e.WriteEvent?
  }

  predicate OnlyConnects(ops: seq<Op>, ops': seq<Op>) {
    ops <= ops' && forall k :: |ops| <= k < |ops'| ==> ops'[k].Connects?
  }

  lemma OnlyConnectsOnly(a: seq<Op>, b: seq<Op>, c: seq<Op>)
    requires OnlyConnects(a, b) && OnlyConnects(b, c)
    ensures OnlyConnects(a, c)
  {
    assert c[..|b|][..|a|] == c[..|a|];
    assert forall k :: |a| <= k < |b| ==> c[k] == c[..|b|][k];
  }

  lemma CancelledStep(s: LinuxState, e: Event)
    requires Feasible(s, e) && s.pipeBytes > 0
    ensures After(s, e).0.pipeBytes > 0 && OnlyConnects(s.client.ops, After(s, e).0.client.ops)
    ensures IsTransfer(e) ==> After(s, e).0 == s && After(s, e).1 != TeeSuccess
  {}

  /** Cancelling is sticky: nothing drains the pipe, so once a cancel has written to it no read or write
      reaches the device or succeeds again, whatever reconnects come between. */
  lemma {:induction false} CancelIsSticky(s: LinuxState, es: seq<Event>, n: nat)
    requires IsLinuxRun(s, es) && s.pipeBytes > 0 && n <= |es|
    ensures At(s, es, n).pipeBytes > 0
    ensures OnlyConnects(s.client.ops, At(s, es, n).client.ops)
    ensures n < |es| && IsTransfer(es[n]) ==>
      && At(s, es, n + 1) == At(s, es, n)
      && After(At(s, es, n), es[n]).1 != TeeSuccess
  {
    if n == 0 {
    } else {
      CancelIsSticky(s, es, n - 1);
      var t := At(s, es, n - 1);
      CancelledStep(t, es[n - 1]);
      OnlyConnectsOnly(s.client.ops, t.client.ops, At(s, es, n).client.ops);
    }
    if n < |es| {
      CancelledStep(At(s, es, n), es[n]);
    }
  }

  /** So from the cancel on that was written, at whatever point of a run, no transfer succeeds or reaches the device. */
  lemma CancelEndsTransfers(s: LinuxState, es: seq<Event>, k: nat, n: nat)
    requires IsLinuxRun(s, es) && k < n < |es| && es[k] == CancelEvent(true) && IsTransfer(es[n])
    ensures At(s, es, n + 1) == At(s, es, n) && After(At(s, es, n), es[n]).1 != TeeSuccess
  {
    PipeFills(s, es, k, n);
    CancelledStep(At(s, es, n), es[n]);
  }

  lemma {:induction false} PipeFills(s: LinuxState, es: seq<Event>, k: nat, n: nat)
    requires IsLinuxRun(s, es) && k < n <= |es| && es[k] == CancelEvent(true)
    ensures At(s, es, n).pipeBytes > 0
    decreases n
  {
    if n == k + 1 {
      assert At(s, es, n) == After(At(s, es, k), es[k]).0;
    } else {
      PipeFills(s, es, k, n - 1);
      CancelledStep(At(s, es, n - 1), es[n - 1]);
    }
  }

  lemma InitStatusIsExact(rc: int)
    ensures var status := InitStatusOf(rc);
      && (status == TeeSuccess <==> rc == 0)
      && (status == TeeDeviceNotFound <==> rc == -ENOENT || rc == -ENAMETOOLONG)
      && (status == TeeDeviceNotReady <==> rc == -ENODEV)
      && (status == TeeBusy <==> rc == -EBUSY) && (status == TeePermissionDenied <==> rc == -EACCES)
  {}

  /** A connection is lost exactly when a transfer reached the device and failed with anything but EOPNOTSUPP. */
  lemma LossIsExact(s: LinuxState, e: Event)
    requires s.client.state == Connected
    ensures After(s, e).0.client.state != Connected <==>
      match e
      case ReadEvent(poll, got) => poll == Woken(false) && got.Err? && got.error != EOPNOTSUPP
      case WriteEvent(poll, taken) => poll == Woken(false) && taken.Err? && taken.error != EOPNOTSUPP
      case _ => false
  {}

  /** The poll or the transfer behind it failed with this error number. */
  predicate FailedWith(e: Event, errno: Errno) {
    match e
    case ReadEvent(poll, got) => poll == Broken(errno) || (poll == Woken(false) && got == Err(errno))
    case WriteEvent(poll, taken) => poll == Broken(errno) || (poll == Woken(false) && taken == Err(errno))
    case ConnectEvent(reply) => reply == Err(errno)
    case _ => false
  }

  predicate PolledAs(e: Event, poll: Poll) {
    (e.ReadEvent? || e.WriteEvent?) && e.poll == poll
  }

  predicate TransferFailedWith(e: Event, errno: Errno) {
    match e
    case ReadEvent(poll, got) => poll == Woken(false) && got == Err(errno)
    case WriteEvent(poll, taken) => poll == Woken(false) && taken == Err(errno)
    case _ => false
  }

  /** Which state a connection is lost to: a poll that fails loses nothing. */
  lemma LostStateIsExact(s: LinuxState, e: Event)
    requires s.client.state == Connected
    ensures var state := After(s, e).0.client.state;
      && (state == NotPresent <==> TransferFailedWith(e, ENOTTY))
      && (state == Disconnected <==> TransferFailedWith(e, EBUSY) || TransferFailedWith(e, ENODEV))
      && (state == Connected || state == NotPresent || state == Disconnected || state == Failed)
  {}

  /** What each status of a read or write on a connected client tells its caller. */
  lemma TransferStatusIsExact(s: LinuxState, e: Event)
    requires s.client.state == Connected && IsTransfer(e)
    ensures var status := After(s, e).1;
      && (status == TeeSuccess <==> e.poll == Woken(false) && (if e.ReadEvent? then e.got.Ok? else e.taken.Ok?))
      && (status == TeeTimeout <==> PolledAs(e, Silent) || FailedWith(e, ETIME))
      && (status == TeeUnableToComplete <==> PolledAs(e, Woken(true)) || FailedWith(e, ECANCELED))
      && (status == TeeDisconnected <==> FailedWith(e, ENODEV))
  {}

  lemma ErrorNumbersAreExact(s: LinuxState, e: Event)
    requires s.client.state == Connected && IsTransfer(e)
    ensures var status := After(s, e).1;
      && (status == TeeBusy <==> FailedWith(e, EBUSY))
      && (status == TeeClientNotFound <==> FailedWith(e, ENOTTY))
  {}

  lemma OtherErrorsAreExact(s: LinuxState, e: Event)
    requires s.client.state == Connected && IsTransfer(e)
    ensures var status := After(s, e).1;
      && (status == TeePermissionDenied <==> FailedWith(e, EACCES))
      && (status == TeeNotSupported <==> FailedWith(e, EOPNOTSUPP) || FailedWith(e, ENODATA))
      && (status == TeeInsufficientBuffer <==> FailedWith(e, ENOSPC))
  {}

  /** A connect reports a missing client, or a busy one, exactly when the kernel said so. */
  lemma ConnectStatusIsExact(s: LinuxState, e: Event)
    requires s.client.state != Connected && s.client.state != Disabled && e.ConnectEvent?
    ensures var status := After(s, e).1;
      && (status == TeeClientNotFound <==> FailedWith(e, ENOTTY))
      && (status == TeeBusy <==> FailedWith(e, EBUSY))
      && (status == TeeDisconnected <==> FailedWith(e, ENODEV))
  {}

  // ---- the libmei client ----

  datatype FdEvent = Opened(fd: int) | Closed(fd: int)

  class Mei {
    var fd: int
    var closeOnExit: bool
    var named: bool // device != NULL
    var state: ClientState
    var lastErr: nat
    var bufSize: nat
    var protVer: Byte
    ghost var ops: seq<Op>
    ghost var fds: seq<FdEvent> // the descriptors opened and closed so far

    /** Memory fresh from malloc: the fields of the structure hold anything. */
    constructor ()
      ensures ops == [] && fds == []
    {
      ops, fds := [], [];
    }

    ghost function View(): Client
      reads this
    {
      Client(state, bufSize, protVer, ops)
    }

    method Deinit()
      modifies this
      ensures fd == -1 && View() == Client(Zero, 0, 0, old(ops)) && lastErr == 0 && !named
      ensures fds == old(fds) + (if old(closeOnExit) && old(fd) != -1 then [Closed(old(fd))] else [])
      ensures closeOnExit == old(closeOnExit)
    {
      if closeOnExit && fd != -1 {
        fds := fds + [Closed(fd)];
      }
      fd, bufSize, protVer, state, lastErr, named := -1, 0, 0, Zero, 0, false;
    }

    method Open() returns (rc: int)
      modifies `fd, `lastErr, `fds
      ensures rc >= 0 ==> fd == rc && fds == old(fds) + [Opened(rc)]
      ensures rc < 0 ==> fd == -1 && lastErr == -rc && fds == old(fds)
    {
      var granted: bool := *;
      if granted {
        var newFd: nat :| true;
        fd := newFd;
        fds := fds + [Opened(fd)];
        return fd;
      }
      var errno: Errno :| true;
      fd, lastErr := -1, errno;
      rc := Rc(errno);
    }

    /** Open the device by path. Whatever the structure held before, the only descriptor that may be closed is the one
        just opened; a device that is absent is not an error but leaves the client disabled. */
    method Init(reqVer: Byte) returns (rc: int)
      modifies this
      ensures ops == old(ops) && closeOnExit && rc <= 0
      ensures rc == 0 ==> View() == Client(if fd == -1 then Disabled else Initialized, 0, reqVer, ops)
      ensures rc == 0 ==> named && fds == old(fds) + (if fd == -1 then [] else [Opened(fd)])
      ensures rc < 0 ==> fd == -1 && View() == Client(Zero, 0, 0, ops)
      ensures rc < 0 ==> fds == old(fds) || exists f :: fds == old(fds) + [Opened(f), Closed(f)]
      ensures rc != -ENODEV
    {
      fd, closeOnExit, named := -1, true, false;
      Deinit();
      rc := Open();
      ghost var f := rc;
      if rc < 0 {
        if rc != -ENODEV {
          return;
        }
        state := Disabled;
      } else {
        state := Initialized;
      }
      protVer := reqVer;
      named := *;
      if !named {
        Deinit();
        assert f >= 0 ==> fds == old(fds) + [Opened(f), Closed(f)];
        return -ENOMEM;
      }
      rc := 0;
    }

    /** Adopt a descriptor of the caller's: nothing is closed here, nor by a later Deinit. */
    method InitFd(newFd: int, reqVer: Byte) returns (rc: int)
      modifies this
      ensures ops == old(ops) && fds == old(fds) && rc <= 0
      ensures newFd < 0 ==> rc == -EINVAL
      ensures newFd >= 0 ==> !closeOnExit && fd == newFd && (rc == 0 <==> state == Initialized)
      ensures rc == 0 ==> newFd >= 0 && named && View() == Client(Initialized, 0, reqVer, ops)
    {
      if newFd < 0 {
        return -EINVAL;
      }
      closeOnExit, named := false, false;
      Deinit();
      fd, protVer := newFd, reqVer;
      rc := DeviceName();
      if rc != 0 {
        return;
      }
      state := Initialized;
    }

    /** readlink and strdup may fail in several ways. */
    method DeviceName() returns (rc: int)
      modifies `named
      ensures rc <= 0 && (rc == 0 ==> named)
    {
      named := *;
      if named {
        return 0;
      }
      var errno: Errno :| true;
      rc := Rc(errno);
    }

    method Connect() returns (rc: int, ghost reply: Outcome<ClientInfo, Errno>)
      modifies `state, `lastErr, `bufSize, `protVer, `ops
      ensures (View(), rc) == ClientConnect(old(View()), reply)
      ensures ops != old(ops) && reply.Err? ==> lastErr == reply.error
    {
      reply := Err(EINVAL);
      if state == Connected || state == Disabled {
        return -EINVAL, reply;
      }
      var answer: Outcome<ClientInfo, Errno> :| true;
      reply := answer;
      ops := ops + [Connects(answer)];
      if answer.Err? {
        lastErr := answer.error;
        state := StateAfter(lastErr, state);
        return Rc(answer.error), reply;
      }
      var info := answer.value;
      if protVer > 0 && info.protocolVer < protVer {
        state := VersionMismatch;
        return -EINVAL, reply;
      }
      bufSize, protVer, state := info.maxMsgLen, info.protocolVer, Connected;
      rc := 0;
    }

    method Receive(buffer: array<Byte>, len: nat) returns (rc: int, ghost got: Outcome<seq<Byte>, Errno>)
      requires len <= buffer.Length
      modifies `state, `lastErr, `ops, buffer
      ensures (View(), rc) == ClientTransfer(old(View()), Reads(got), got)
      ensures ops != old(ops) && got.Err? ==> lastErr == got.error
      ensures rc >= 0 ==> got.Ok? && rc == |got.value| <= len && buffer[..] == got.value + old(buffer[rc..])
      ensures rc < 0 ==> buffer[..] == old(buffer[..])
    {
      got := Err(EINVAL);
      if state != Connected {
        return -EINVAL, got;
      }
      var failed: bool := *;
      if failed {
        var errno: Errno :| true;
        got := Err(errno);
        ops := ops + [Reads(got)];
        lastErr := errno;
        state := StateAfter(lastErr, state);
        return Rc(errno), got;
      }
      var data: seq<Byte> := [];
      assert |data| <= len;
      data :| |data| <= len;
      got := Ok(data);
      ops := ops + [Reads(got)];
      forall i | 0 <= i < |data| {
        buffer[i] := data[i];
      }
      rc := |data|;
    }

    method Send(buffer: array<Byte>, len: nat) returns (rc: int, ghost taken: Outcome<seq<Byte>, Errno>)
      requires len <= buffer.Length
      modifies `state, `lastErr, `ops
      ensures (View(), rc) == ClientTransfer(old(View()), Writes(taken), taken)
      ensures ops != old(ops) && taken.Err? ==> lastErr == taken.error
      ensures rc >= 0 ==> taken.Ok? && rc <= len && taken.value == buffer[..rc]
    {
      taken := Err(EINVAL);
      if state != Connected {
        return -EINVAL, taken;
      }
      var n: int :| n <= len;
      if n >= 0 {
        taken := Ok(buffer[..n]);
        ops := ops + [Writes(taken)];
        return n, taken;
      }
      taken := Err(-n);
      ops := ops + [Writes(taken)];
      lastErr := -n;
      state := StateAfter(lastErr, state);
      rc := n;
    }
  }

  // ---- the handle ----

  datatype Address = Default(pathGiven: bool) | ByPath(pathGiven: bool) | ByDescriptor(fd: int) | ByGuid | Unknown

  predicate Acceptable(device: Address) {
    device == Default(false) || device == ByPath(true) || (device.ByDescriptor? && device.fd != -1)
  }

  class LinuxHandle {
    var mei: Mei?
    var maxMsgLen: nat
    var protocolVer: Byte
    var pipeBytes: nat // unread bytes in the cancel pipe
    var readEnd: int
    var writeEnd: int
    ghost var pipeFds: seq<FdEvent> // the ends of pipes opened and closed so far

    constructor ()
      ensures mei == null && pipeFds == []
    {
      mei, pipeFds := null, [];
    }

    ghost function View(): LinuxState
      requires mei != null
      reads this, mei
    {
      LinuxState(mei.View(), maxMsgLen, protocolVer, pipeBytes)
    }

    /** __mei_select: poll the device and the cancel pipe. */
    method Select(timeout: int) returns (rc: int, ghost poll: Poll)
      ensures rc == AfterPoll(poll) && CanEnd(poll, pipeBytes)
      ensures timeout < 0 ==> poll != Silent
    {
      assert CanEnd(Broken(EINVAL), pipeBytes);
      var answer: Poll :| CanEnd(answer, pipeBytes) && (timeout < 0 ==> answer != Silent);
      poll := answer;
      match answer {
        case Broken(errno) => rc := Rc(errno);
        case Silent => rc := -ETIME;
        case Woken(pipe) => rc := if pipe then -ECANCELED else 0;
      }
    }

    method TeeConnect() returns (status: TeeStatus, ghost e: Event)
      modifies this, mei
      ensures mei == old(mei) && pipeBytes == old(pipeBytes)
      ensures if mei == null then status == TeeInvalidParameter
              else Feasible(old(View()), e) && (View(), status) == After(old(View()), e) && e.ConnectEvent?
    {
      e := Refused(Call.Connect);
      if mei == null {
        return TeeInvalidParameter, e;
      }
      var rc;
      ghost var reply;
      rc, reply := mei.Connect();
      e := ConnectEvent(reply);
      if rc != 0 {
        return StatusOf(rc), e;
      }
      maxMsgLen, protocolVer := mei.bufSize, mei.protVer;
      status := TeeSuccess;
    }

    method TeeRead(buffer: array?<Byte>, size: nat, timeout: Word)
      returns (status: TeeStatus, bytesRead: nat, ghost e: Event)
      requires buffer != null ==> size <= buffer.Length
      modifies mei, buffer
      ensures if mei == null then status == TeeInvalidParameter
              else Feasible(old(View()), e) && (View(), status) == After(old(View()), e)
      ensures e.Refused? <==> mei == null || buffer == null || size == 0 || timeout > INT_MAX
      ensures !e.Refused? ==> e.ReadEvent? && (timeout == 0 ==> e.poll != Silent)
      ensures status == TeeSuccess ==> bytesRead <= size && buffer[..] == e.got.value + old(buffer[bytesRead..])
      ensures status != TeeSuccess && buffer != null ==> buffer[..] == old(buffer[..])
    {
      e, bytesRead := Refused(Call.Read), 0;
      if mei == null || buffer == null || size == 0 || timeout > INT_MAX {
        return TeeInvalidParameter, bytesRead, e;
      }
      e := ReadEvent(Broken(EINVAL), Err(EINVAL));
      if mei.state != Connected {
        return TeeDisconnected, bytesRead, e;
      }
      var rc;
      ghost var poll, got;
      rc, poll := Select(if timeout != 0 then timeout else -1);
      e := ReadEvent(poll, Err(EINVAL));
      if rc != 0 {
        return StatusOf(rc), bytesRead, e;
      }
      rc, got := mei.Receive(buffer, size);
      e := ReadEvent(poll, got);
      if rc < 0 {
        return StatusOf(rc), bytesRead, e;
      }
      bytesRead := rc;
      status := TeeSuccess;
    }

    method TeeWrite(buffer: array?<Byte>, size: nat, timeout: Word)
      returns (status: TeeStatus, bytesWritten: nat, ghost e: Event)
      requires buffer != null ==> size <= buffer.Length
      modifies mei
      ensures if mei == null then status == TeeInvalidParameter
              else Feasible(old(View()), e) && (View(), status) == After(old(View()), e)
      ensures e.Refused? <==> mei == null || buffer == null || size == 0 || timeout > INT_MAX
      ensures !e.Refused? ==> e.WriteEvent? && (timeout == 0 ==> e.poll != Silent)
      ensures status == TeeSuccess ==> bytesWritten <= size && e.taken == Ok(buffer[..bytesWritten])
    {
      e, bytesWritten := Refused(Call.Write), 0;
      if mei == null || buffer == null || size == 0 || timeout > INT_MAX {
        return TeeInvalidParameter, bytesWritten, e;
      }
      e := WriteEvent(Broken(EINVAL), Err(EINVAL));
      if mei.state != Connected {
        return TeeDisconnected, bytesWritten, e;
      }
      var rc;
      ghost var poll, taken;
      rc, poll := Select(if timeout != 0 then timeout else -1);
      e := WriteEvent(poll, Err(EINVAL));
      if rc != 0 {
        return StatusOf(rc), bytesWritten, e;
      }
      rc, taken := mei.Send(buffer, size);
      e := WriteEvent(poll, taken);
      if rc < 0 {
        return StatusOf(rc), bytesWritten, e;
      }
      bytesWritten := rc;
      status := TeeSuccess;
    }

    method TeeCancelIO() returns (ghost e: Event)
      modifies `pipeBytes
      ensures mei != null ==> Feasible(old(View()), e) && e.CancelEvent? && View() == After(old(View()), e).0
    {
      e := CancelEvent(false);
      if mei != null {
        var written: bool := *;
        if written {
          pipeBytes := pipeBytes + CANCEL_BYTES;
          e := CancelEvent(true);
        }
      }
    }

    /** The session ends: both ends of the pipe are closed, and the device's descriptor exactly when the library opened it
        itself. */
    method TeeDisconnect()
      modifies this, mei
      ensures mei == null
      ensures pipeFds == old(pipeFds) + (if old(mei) != null then [Closed(old(readEnd)), Closed(old(writeEnd))] else [])
      ensures old(mei) != null ==>
        var m := old(mei); m.fds == old(m.fds) + (if old(m.closeOnExit) && old(m.fd) != -1 then [Closed(old(m.fd))] else [])
    {
      if mei != null {
        ghost var e := TeeCancelIO();
        mei.Deinit();
        pipeFds := pipeFds + [Closed(readEnd), Closed(writeEnd)];
        mei := null;
      }
    }

    /** `rc` is what failed: an error number of the device or of memory, or the -1 of pipe, which is not one. `fds` are the
        device's descriptors opened and closed by the call. */
    method TeeInit(device: Address) returns (status: TeeStatus, ghost rc: int, ghost fds: seq<FdEvent>)
      modifies this
      ensures !Acceptable(device) ==> status == TeeInvalidParameter && rc == 0
      ensures Acceptable(device) ==> status == InitStatusOf(rc) && rc <= 0
      ensures rc == -ENODEV ==> device.ByDescriptor?
      ensures pipeFds == old(pipeFds) + (if status == TeeSuccess then [Opened(readEnd), Opened(writeEnd)] else [])
      ensures status == TeeSuccess <==> mei != null
      ensures mei != null ==> fresh(mei) && JustOpened(View())
      ensures mei != null ==> Acceptable(device) && mei.closeOnExit == !device.ByDescriptor?
      ensures mei != null ==> mei.fds == fds == if mei.closeOnExit && mei.fd != -1 then [Opened(mei.fd)] else []
      ensures mei == null ==> fds == [] || (!device.ByDescriptor? && exists f :: fds == [Opened(f), Closed(f)])
    {
      mei, maxMsgLen, protocolVer, pipeBytes, rc, fds := null, 0, 0, 0, 0, [];
      if !Acceptable(device) {
        return TeeInvalidParameter, rc, fds;
      }
      var memory: bool := *;
      if !memory {
        return TeeInternalError, -ENOMEM, fds;
      }
      var m := new Mei();
      var failed;
      if device.ByDescriptor? {
        failed := m.InitFd(device.fd, 0);
      } else {
        failed := m.Init(0);
      }
      if failed != 0 {
        return InitStatusOf(failed), failed, m.fds;
      }
      var piped: bool := *;
      if !piped {
        m.Deinit();
        return InitStatusOf(-1), -1, m.fds;
      }
      fds := m.fds;
      var r: nat, w: nat :| true;
      readEnd, writeEnd := r, w;
      pipeFds := pipeFds + [Opened(r), Opened(w)];
      mei := m;
      status := TeeSuccess;
    }
  }
}
