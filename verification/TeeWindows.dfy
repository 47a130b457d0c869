/** The Windows back end (src/Windows/metee_win.c:62-592). The driver is free: a request may succeed or fail with any
    status that Win32ErrorToTee can give. */
module TeeWindows {
  import opened HeciRegisters
  import opened TeeSession
  import opened Wrappers

  const INVALID_HANDLE: int := -1
  const NULL_HANDLE := 0
  const INT_MAX := 0x7FFF_FFFF
  const MAX_DWORD := 0xFFFF_FFFF

  /** SendIOCTL answers an invalid handle with a Win32 error number where a TEE status belongs. */
  const ERROR_INVALID_PARAMETER := 87

  datatype ClientState = None | Connected | Failed

  /** The statuses of Win32ErrorToTee (metee_winhelpers.c:427-447). */
  predicate FromWin32(s: TeeStatus) {
    s == TeeInvalidParameter || s == TeeInsufficientBuffer || s == TeeUnableToComplete || s == TeeDeviceNotReady
    || s == TeeClientNotFound || s == TeePermissionDenied || s == TeeInternalError
  }

  type Win32Failure = s: TeeStatus | FromWin32(s) witness TeeInternalError
  type WaitFailure = s: TeeStatus | FromWin32(s) || s == TeeTimeout witness TeeTimeout
  type OpenFailure = s: TeeStatus | s == TeeDeviceNotFound || s == TeePermissionDenied || s == TeeDeviceNotReady
    witness TeeDeviceNotReady
  type OpenHandle = h: int | h != INVALID_HANDLE && h != NULL_HANDLE witness 1

  /** How an overlapped read or write ends: done; refused at the start; given up while the driver still holds it, because
      time ran out or the wait failed; or completed with an error. */
  datatype Transfer =
    | Done(data: seq<Byte>)
    | NotBegun(why: Win32Failure)
    | Unfinished(cause: WaitFailure)
    | Broken(why: Win32Failure)

  function StatusOf(t: Transfer): TeeStatus {
    match t
    case Done(_) => TeeSuccess
    case NotBegun(why) => why
    case Unfinished(cause) => cause
    case Broken(why) => why
  }

  /** What the driver was asked to do, with its answer. */
  datatype Op =
    | Connects(reply: Outcome<ClientInfo, Win32Failure>)
    | Reads(got: Transfer)
    | Writes(taken: Transfer)
    | Queries(answer: Outcome<Word, Win32Failure>)

  datatype Event =
    | Refused(call: Call)
    | ConnectEvent(reopened: Outcome<OpenHandle, OpenFailure>, reply: Outcome<ClientInfo, Win32Failure>)
    | ReadEvent(size: nat, got: Transfer)
    | WriteEvent(size: nat, taken: Transfer)
    | QueryEvent(answer: Outcome<Word, Win32Failure>)

  /** `held` are the device handles that the library opened and has not closed, `strays` those it closed without holding
      them, `opens` counts its successful opens, and `pending` the requests given up on the present handle while the driver
      still held them. */
  datatype WinState = WinState(
    state: ClientState, handle: int, closeOnExit: bool, maxMsgLen: nat, protocolVer: Byte,
    held: set<int>, strays: seq<int>, opens: nat, pending: nat, ops: seq<Op>)

  function CloseIn(s: WinState): WinState {
    if s.handle in s.held then s.(held := s.held - {s.handle}) else s.(strays := s.strays + [s.handle])
  }

  function Reopen(s: WinState, reopened: Outcome<OpenHandle, OpenFailure>): WinState {
    match reopened
    case Ok(h) => CloseIn(s).(handle := h, held := CloseIn(s).held + {h}, opens := s.opens + 1, pending := 0)
    case Err(_) => CloseIn(s).(handle := INVALID_HANDLE, pending := 0)
  }

  predicate MustReopen(s: WinState) {
    s.state == Failed && s.closeOnExit
  }

  function AfterConnect(s: WinState, reply: Outcome<ClientInfo, Win32Failure>): (WinState, TeeStatus) {
    if s.handle == INVALID_HANDLE then (s, Unlisted(ERROR_INVALID_PARAMETER))
    else
      var t := s.(ops := s.ops + [Connects(reply)]);
      match reply
      case Ok(info) => (t.(state := Connected, maxMsgLen := info.maxMsgLen, protocolVer := info.protocolVer), TeeSuccess)
      case Err(failure) => (t, if failure == TeeInvalidParameter then TeeClientNotFound else failure)
  }

  function AfterTransfer(s: WinState, size: nat, op: Op, r: Transfer): (WinState, TeeStatus) {
    if s.state != Connected then (s, TeeDisconnected)
    else if s.handle == INVALID_HANDLE || size > MAX_DWORD then (s.(state := Failed), TeeInvalidParameter)
    else
      var t := s.(ops := s.ops + [op]);
      if r.Done? then (t, TeeSuccess)
      else (t.(state := Failed, pending := if r.Unfinished? then s.pending + 1 else s.pending), StatusOf(r))
  }

  function After(s: WinState, e: Event): (WinState, TeeStatus) {
    match e
    case Refused(_) => (s, TeeInvalidParameter)
    case ConnectEvent(reopened, reply) =>
      if s.state == Connected then (s, TeeInternalError)
      else if MustReopen(s) then
        if reopened.Err? then (Reopen(s, reopened), reopened.error) else AfterConnect(Reopen(s, reopened), reply)
      else AfterConnect(s, reply)
    case ReadEvent(size, got) => AfterTransfer(s, size, Reads(got), got)
    case WriteEvent(size, taken) => AfterTransfer(s, size, Writes(taken), taken)
    case QueryEvent(answer) =>
      if s.handle == INVALID_HANDLE then (s.(state := Failed), Unlisted(ERROR_INVALID_PARAMETER))
      else
        var t := s.(ops := s.ops + [Queries(answer)]);
        if answer.Ok? then (t, TeeSuccess) else (t.(state := Failed), answer.error)
  }

  // ---- runs ----

  function At(s: WinState, es: seq<Event>, n: nat): WinState
    requires n <= |es|
  {
    if n == 0 then s else After(At(s, es, n - 1), es[n - 1]).0
  }

  function Abstract(s: WinState): Session {
    Session(s.state == Connected, s.maxMsgLen, s.protocolVer)
  }

  function StepOf(s: WinState, e: Event): Step {
    var (s', status) := After(s, e);
    var call := match e
      case Refused(c) => c
      case ConnectEvent(_, _) => Call.Connect
      case ReadEvent(_, _) => Call.Read
      case WriteEvent(_, _) => Call.Write
      case QueryEvent(_) => Call.Query;
    Step(call, !e.Refused?, status, s'.ops != s.ops)
  }

  ghost function AbstractRun(s: WinState, es: seq<Event>): Run {
    Run(seq(|es| + 1, n requires 0 <= n <= |es| => Abstract(At(s, es, n))),
        seq(|es|, n requires 0 <= n < |es| => StepOf(At(s, es, n), es[n])))
  }

  lemma StepIsAllowed(s: WinState, e: Event)
    ensures Allowed(Abstract(s), StepOf(s, e), Abstract(After(s, e).0))
  {}

  /** Every run of the Windows back end is a run of the two-state session. */
  lemma WindowsRefinesSession(s: WinState, es: seq<Event>)
    ensures IsRun(AbstractRun(s, es))
  {
    forall n | 0 <= n < |es|
      ensures Allowed(Abstract(At(s, es, n)), StepOf(At(s, es, n), es[n]), Abstract(At(s, es, n + 1)))
    {
      StepIsAllowed(At(s, es, n), es[n]);
    }
  }

  /** The answer to the last connect that succeeded, among the first `n` events. */
  function LastInfo(s: WinState, es: seq<Event>, n: nat): ClientInfo
    requires n <= |es|
  {
    if n == 0 then ClientInfo(s.maxMsgLen, s.protocolVer)
    else if Answered(es[n - 1]) && StepOf(At(s, es, n - 1), es[n - 1]).status == TeeSuccess then es[n - 1].reply.value
    else LastInfo(s, es, n - 1)
  }

  predicate Answered(e: Event) {
    e.ConnectEvent? && e.reply.Ok?
  }

  lemma ReportStep(s: WinState, e: Event)
    ensures var s' := After(s, e).0;
      if Answered(e) && StepOf(s, e).status == TeeSuccess
      then s'.maxMsgLen == e.reply.value.maxMsgLen && s'.protocolVer == e.reply.value.protocolVer
      else s'.maxMsgLen == s.maxMsgLen && s'.protocolVer == s.protocolVer
  {}

  /** The length and version that the handle reports are those the driver gave with the last connect that succeeded. */
  lemma {:induction false} ReportsLastConnect(s: WinState, es: seq<Event>, n: nat)
    requires n <= |es|
    ensures At(s, es, n).maxMsgLen == LastInfo(s, es, n).maxMsgLen && At(s, es, n).protocolVer == LastInfo(s, es, n).protocolVer
  {
    if n == 0 {
    } else {
      ReportsLastConnect(s, es, n - 1);
      ReportStep(At(s, es, n - 1), es[n - 1]);
    }
  }

  /** A connect outside a connection succeeds exactly when the device could be reopened, where it had to be, and the driver
      accepted; and an unknown client is what the driver calls an invalid parameter. */
  lemma ConnectStatusIsExact(s: WinState, e: Event)
    requires s.state != Connected && e.ConnectEvent?
    ensures var (s', status) := After(s, e);
      var reached := if MustReopen(s) then e.reopened.Ok? else s.handle != INVALID_HANDLE;
      && (status == TeeSuccess <==> reached && e.reply.Ok?)
      && (status == TeeSuccess <==> s'.state == Connected)
      && (status == TeeClientNotFound <==>
            reached && e.reply.Err? && (e.reply.error == TeeInvalidParameter || e.reply.error == TeeClientNotFound))
      && (reached <==> s'.ops == s.ops + [Connects(e.reply)])
  {}

  /** A transfer in a session fails with the driver's own status, and any failure ends the session. */
  lemma TransferStatusIsExact(s: WinState, e: Event)
    requires s.state == Connected && s.handle != INVALID_HANDLE && (e.ReadEvent? || e.WriteEvent?) && e.size <= MAX_DWORD
    ensures var (s', status) := After(s, e);
      var how := if e.ReadEvent? then e.got else e.taken;
      && (status == TeeSuccess <==> how.Done?) && (status == TeeSuccess <==> s'.state == Connected)
      && (status == TeeTimeout <==> how == Unfinished(TeeTimeout))
      && s'.handle == s.handle
  {}

  /** The library holds its own handle and nothing else; what it closed besides was the invalid handle of a failed reopen. */
  predicate HandlesOk(s: WinState) {
    && (if s.closeOnExit && s.handle != INVALID_HANDLE then s.held == {s.handle} else s.held == {})
    && (forall h <- s.strays :: s.closeOnExit && h == INVALID_HANDLE)
    && (s.state == Connected ==> s.handle != INVALID_HANDLE)
    && (s.closeOnExit && s.handle == INVALID_HANDLE ==> s.state == Failed)
    && s.handle != NULL_HANDLE
  }

  lemma StepKeepsHandles(s: WinState, e: Event)
    requires HandlesOk(s)
    ensures HandlesOk(After(s, e).0)
    ensures After(s, e).0.closeOnExit == s.closeOnExit
    ensures !s.closeOnExit ==> After(s, e).0.handle == s.handle && After(s, e).0.strays == s.strays
  {
    if e.ConnectEvent? && s.state != Connected && MustReopen(s) && s.handle != INVALID_HANDLE {
      assert s.held - {s.handle} == {};
    }
  }

  /** In every run the library neither leaks a handle it opened nor closes one twice, and never closes the caller's. */
  lemma {:induction false} HandlesBalance(s: WinState, es: seq<Event>, n: nat)
    requires HandlesOk(s) && n <= |es|
    ensures HandlesOk(At(s, es, n)) && At(s, es, n).closeOnExit == s.closeOnExit
    ensures !s.closeOnExit ==> At(s, es, n).handle == s.handle && At(s, es, n).strays == s.strays
  {
    if n == 0 {
    } else {
      HandlesBalance(s, es, n - 1);
      StepKeepsHandles(At(s, es, n - 1), es[n - 1]);
    }
  }

  /** After a failure the session comes back only over a handle opened since. */
  lemma {:induction false} RecoveryNeedsFreshHandle(s: WinState, es: seq<Event>, n: nat, m: nat)
    requires n <= m <= |es| && At(s, es, n).state == Failed && At(s, es, n).closeOnExit
    ensures At(s, es, m).closeOnExit && At(s, es, m).opens >= At(s, es, n).opens
    ensures At(s, es, m).state == Failed || At(s, es, m).opens > At(s, es, n).opens
    decreases m
  {
    if n == m {
    } else {
      RecoveryNeedsFreshHandle(s, es, n, m - 1);
    }
  }

  /** On its own handle the library never runs a session while a request of an earlier one is pending: giving one up fails
      the session, and the reconnect opens another handle. */
  lemma {:induction false} NothingPendingWhileConnected(s: WinState, es: seq<Event>, n: nat)
    requires n <= |es| && s.closeOnExit && (s.pending > 0 ==> s.state == Failed)
    ensures At(s, es, n).closeOnExit && (At(s, es, n).pending > 0 ==> At(s, es, n).state == Failed)
  {
    if n == 0 {
    } else {
      NothingPendingWhileConnected(s, es, n - 1);
    }
  }

  /** A session runs beside a request of an earlier one that the driver still holds. */
  predicate Beside(s: WinState) {
    s.pending > 0 && s.state == Connected
  }

  /** Exactly when one call brings that about: a connect that succeeds on the caller's handle while a request is pending. */
  lemma BesideStep(s: WinState, e: Event)
    requires s.pending > 0 ==> s.state == Failed
    ensures Beside(After(s, e).0) <==>
            s.pending > 0 && !s.closeOnExit && s.handle != INVALID_HANDLE && e.ConnectEvent? && e.reply.Ok?
  {}

  /** Call `k` gives up a request that the driver has accepted. */
  predicate GivesUp(s: WinState, es: seq<Event>, k: int) {
    0 <= k < |es| &&
    var t := At(s, es, k);
    && t.state == Connected && t.handle != INVALID_HANDLE
    && match es[k]
       case ReadEvent(size, got) => size <= MAX_DWORD && got.Unfinished?
       case WriteEvent(size, taken) => size <= MAX_DWORD && taken.Unfinished?
       case _ => false
  }

  ghost predicate GaveUpBefore(s: WinState, es: seq<Event>, n: nat) {
    exists k :: 0 <= k < n && GivesUp(s, es, k)
  }

  lemma GaveUpOneMore(s: WinState, es: seq<Event>, n: nat)
    requires n < |es|
    ensures GaveUpBefore(s, es, n + 1) <==> GaveUpBefore(s, es, n) || GivesUp(s, es, n)
  {
    if GaveUpBefore(s, es, n) {
      var k :| 0 <= k < n && GivesUp(s, es, k);
      assert 0 <= k < n + 1 && GivesUp(s, es, k);
    }
  }

  /** On the caller's handle nothing ever ends such a request. */
  lemma {:induction false} PendingForEver(s: WinState, es: seq<Event>, n: nat)
    requires n <= |es| && !s.closeOnExit && s.pending == 0
    ensures !At(s, es, n).closeOnExit
    ensures At(s, es, n).pending > 0 <==> GaveUpBefore(s, es, n)
  {
    if n == 0 {
    } else {
      PendingForEver(s, es, n - 1);
      GaveUpOneMore(s, es, n - 1);
    }
  }

  /** The exact condition, over every run: a session runs beside an earlier request if and only if the handle is the caller's
      and some earlier call gave a request up. */
  lemma BesideExact(s: WinState, es: seq<Event>, n: nat)
    requires n <= |es| && s.pending == 0 && At(s, es, n).state == Connected
    ensures Beside(At(s, es, n)) <==> !s.closeOnExit && GaveUpBefore(s, es, n)
  {
    if s.closeOnExit {
      NothingPendingWhileConnected(s, es, n);
    } else {
      PendingForEver(s, es, n);
    }
  }

  /** A handle of the caller's, as TeeInit adopts it. */
  function Adopted(handle: int): WinState {
    WinState(ClientState.None, handle, false, 0, 0, {}, [], 0, 0, [])
  }

  function Resumed(info: ClientInfo): seq<Event> {
    [ConnectEvent(Err(TeeDeviceNotReady), Ok(info)), ReadEvent(1, Unfinished(TeeTimeout)),
     ConnectEvent(Err(TeeDeviceNotReady), Ok(info))]
  }

  /** It happens: connect, a read that times out, connect again. */
  lemma PendingBesideSession(handle: OpenHandle, info: ClientInfo)
    ensures var s, es := Adopted(handle), Resumed(info);
      && HandlesOk(s)
      && After(At(s, es, 0), es[0]).1 == TeeSuccess && After(At(s, es, 1), es[1]).1 == TeeTimeout
      && After(At(s, es, 2), es[2]).1 == TeeSuccess
      && Beside(At(s, es, 3)) && At(s, es, 3).pending == 1
  {
    var s, es := Adopted(handle), Resumed(info);
    assert At(s, es, 0) == s;
    assert At(s, es, 1) == After(At(s, es, 0), es[0]).0;
    assert At(s, es, 2) == After(At(s, es, 1), es[1]).0;
  }

  /** Exactly when a call answers with a number that is no TEE status: it needed the device and the handle was invalid. */
  lemma UnlistedIsExact(s: WinState, e: Event)
    ensures After(s, e).1.Unlisted? <==>
      && s.handle == INVALID_HANDLE
      && (e.QueryEvent? || (e.ConnectEvent? && s.state != Connected && !MustReopen(s)))
  {}

  /** On a handle that the library opened itself, such a number means that a query came after a reopen that failed. */
  lemma {:induction false} UnlistedFollowsFailedReopen(s: WinState, es: seq<Event>, n: nat)
    requires HandlesOk(s) && s.closeOnExit && s.handle != INVALID_HANDLE && n < |es|
    requires After(At(s, es, n), es[n]).1.Unlisted?
    ensures es[n].QueryEvent? && exists k :: FailedReopen(s, es, k, n)
  {
    HandlesBalance(s, es, n);
    UnlistedIsExact(At(s, es, n), es[n]);
    InvalidFollowsFailedReopen(s, es, n);
  }

  ghost predicate FailedReopen(s: WinState, es: seq<Event>, k: int, n: nat) {
    && 0 <= k < n <= |es|
    && es[k].ConnectEvent? && es[k].reopened.Err? && MustReopen(At(s, es, k))
    && After(At(s, es, k), es[k]).1 == es[k].reopened.error
  }

  lemma {:induction false} InvalidFollowsFailedReopen(s: WinState, es: seq<Event>, n: nat)
    requires s.handle != INVALID_HANDLE && n <= |es| && At(s, es, n).handle == INVALID_HANDLE
    ensures exists k :: FailedReopen(s, es, k, n)
  {
    if n == 0 {
    } else {
      var t, e := At(s, es, n - 1), es[n - 1];
      if t.handle == INVALID_HANDLE {
        InvalidFollowsFailedReopen(s, es, n - 1);
        var k :| FailedReopen(s, es, k, n - 1);
        assert FailedReopen(s, es, k, n);
      } else {
        assert FailedReopen(s, es, n - 1, n);
      }
    }
  }

  // ---- the handle ----

  datatype Address =
    | Default(pathGiven: bool)
    | ByPath(pathGiven: bool)
    | ByHandle(handle: int)
    | ByGuid(guidGiven: bool)
    | Unknown

  predicate Acceptable(device: Address) {
    match device
    case Default(given) => !given
    case ByPath(given) => given
    case ByHandle(h) => h != NULL_HANDLE
    case ByGuid(given) => given
    case Unknown => false
  }

  /** The ways an init can end: refused for its address; no path for the device, or no device; no memory; the device not
      opened; an event or a copy not made; or a session. */
  datatype InitEnd = BadAddress | NoPath(searched: bool) | NoMemory | NotOpened(why: OpenFailure) | Unmade | Ready

  function InitStatus(end: InitEnd): TeeStatus {
    match end
    case BadAddress => TeeInvalidParameter
    case NoPath(searched) => if searched then TeeDeviceNotFound else TeeInternalError
    case NoMemory => TeeInternalError
    case NotOpened(why) => why
    case Unmade => TeeUnableToComplete
    case Ready => TeeSuccess
  }

  class WinImpl {
    var handle: int
    const closeOnExit: bool
    var state: ClientState
    ghost var held: set<int>
    ghost var strays: seq<int>
    ghost var opens: nat
    ghost var pending: nat
    ghost var ops: seq<Op>

    constructor (handle: int, closeOnExit: bool)
      ensures this.handle == handle && this.closeOnExit == closeOnExit && state == ClientState.None && strays == [] && ops == [] && pending == 0
      ensures if closeOnExit then held == {handle} && opens == 1 else held == {} && opens == 0
    {
      this.handle, this.closeOnExit, state, strays, ops, pending := handle, closeOnExit, ClientState.None, [], [], 0;
      held, opens := if closeOnExit then {handle} else {}, if closeOnExit then 1 else 0;
    }

    method CloseHandle()
      modifies `held, `strays, `pending
      ensures pending == 0
      ensures if handle in old(held) then held == old(held) - {handle} && strays == old(strays)
              else held == old(held) && strays == old(strays) + [handle]
    {
      if handle in held {
        held := held - {handle};
      } else {
        strays := strays + [handle];
      }
      pending := 0;
    }

    method CreateFile() returns (status: TeeStatus, ghost result: Outcome<OpenHandle, OpenFailure>)
      modifies `handle, `held, `opens
      ensures match result
              case Ok(h) => status == TeeSuccess && handle == h && held == old(held) + {h} && opens == old(opens) + 1
              case Err(failure) => status == failure && handle == INVALID_HANDLE && held == old(held) && opens == old(opens)
    {
      var granted: bool := *;
      if granted {
        var h: OpenHandle :| true;
        handle, held, opens := h, held + {h}, opens + 1;
        return TeeSuccess, Ok(h);
      }
      var failure: OpenFailure :| true;
      handle := INVALID_HANDLE;
      status, result := failure, Err(failure);
    }
  }

  class WinHandle {
    var impl: WinImpl?
    var maxMsgLen: nat
    var protocolVer: Byte

    constructor ()
      ensures impl == null
    {
      impl := null;
    }

    ghost function View(): WinState
      requires impl != null
      reads this, impl
    {
      WinState(impl.state, impl.handle, impl.closeOnExit, maxMsgLen, protocolVer, impl.held, impl.strays, impl.opens, impl.pending, impl.ops)
    }

    /** Opens a session. A failure closes the handle that was being set up even when it is the caller's own. */
    method TeeInit(device: Address) returns (status: TeeStatus, ghost end: InitEnd, ghost taken: seq<int>, ghost closed: seq<int>)
      modifies this
      ensures status == InitStatus(end)
      ensures end.BadAddress? <==> !Acceptable(device)
      ensures (end.NoPath? ==> device.Default? || device.ByGuid?) && (end.NotOpened? ==> !device.ByHandle?)
      ensures taken != [] <==> (end.Unmade? || end.Ready?) && !device.ByHandle?
      // the handles opened, and the handles closed, by this call
      ensures |taken| <= 1 && (taken != [] ==> Acceptable(device) && !device.ByHandle? && taken[0] != INVALID_HANDLE)
      ensures impl != null && impl.closeOnExit ==> taken == [impl.handle]
      ensures impl == null ==>
        closed == if taken != [] then taken else if device.ByHandle? && Acceptable(device) then [device.handle] else [INVALID_HANDLE]
      ensures status == TeeSuccess <==> impl != null
      ensures impl != null ==> fresh(impl) && Acceptable(device) && closed == [] && HandlesOk(View())
      ensures impl != null ==> View().state == ClientState.None && maxMsgLen == 0 && protocolVer == 0 && impl.ops == []
      ensures impl != null ==> impl.closeOnExit == !device.ByHandle? && (device.ByHandle? ==> impl.handle == device.handle)
      ensures impl != null && impl.closeOnExit ==> impl.handle != INVALID_HANDLE
      ensures impl == null ==> |closed| == 1 && (device.ByHandle? && Acceptable(device) ==> closed == [device.handle])
    {
      impl, maxMsgLen, protocolVer := null, 0, 0;
      taken, closed := [], [INVALID_HANDLE];
      if !Acceptable(device) {
        return TeeInvalidParameter, BadAddress, taken, closed;
      }
      var deviceHandle := INVALID_HANDLE;
      if device.ByHandle? {
        deviceHandle := device.handle;
        closed := [deviceHandle];
      } else if !device.ByPath? {
        var listed: bool, searched: bool := *, *;
        if !listed {
          return if searched then TeeDeviceNotFound else TeeInternalError, NoPath(searched), taken, closed;
        }
      }
      var memory: bool := *;
      if !memory {
        return TeeInternalError, NoMemory, taken, closed;
      }
      if !device.ByHandle? {
        var granted: bool := *;
        if !granted {
          var failure: OpenFailure :| true;
          return failure, NotOpened(failure), taken, closed;
        }
        var h: OpenHandle :| true;
        deviceHandle := h;
        taken, closed := [h], [h];
      }
      var eventsMade: bool := *;
      if !eventsMade {
        return TeeUnableToComplete, Unmade, taken, closed;
      }
      impl := new WinImpl(deviceHandle, !device.ByHandle?);
      closed := [];
      status, end := TeeSuccess, Ready;
    }

    method TeeConnect() returns (status: TeeStatus, ghost e: Event)
      modifies this, impl
      ensures impl == old(impl)
      ensures if impl == null then status == TeeInvalidParameter
              else e.ConnectEvent? && (View(), status) == After(old(View()), e)
    {
      e := Refused(Call.Connect);
      if impl == null {
        return TeeInvalidParameter, e;
      }
      ghost var reopened: Outcome<OpenHandle, OpenFailure> := Err(TeeDeviceNotReady);
      ghost var noReply: Outcome<ClientInfo, Win32Failure> := Err(TeeInternalError);
      e := ConnectEvent(reopened, noReply);
      if impl.state == Connected {
        return TeeInternalError, e;
      }
      if impl.state == Failed && impl.closeOnExit {
        impl.CloseHandle();
        impl.handle := NULL_HANDLE;
        status, reopened := impl.CreateFile();
        e := ConnectEvent(reopened, noReply);
        if status != TeeSuccess {
          return;
        }
      }
      if impl.handle == INVALID_HANDLE {
        return Unlisted(ERROR_INVALID_PARAMETER), e;
      }
      var reply: Outcome<ClientInfo, Win32Failure> :| true;
      e := ConnectEvent(reopened, reply);
      impl.ops := impl.ops + [Connects(reply)];
      if reply.Err? {
        // the driver answers with an invalid handle when it knows no such client
        return if reply.error == TeeInvalidParameter then TeeClientNotFound else reply.error, e;
      }
      impl.state := Connected;
      maxMsgLen, protocolVer := reply.value.maxMsgLen, reply.value.protocolVer;
      status := TeeSuccess;
    }

    method TeeRead(buffer: array?<Byte>, size: nat, timeout: Word) returns (status: TeeStatus, bytesRead: nat, ghost e: Event)
      requires buffer != null ==> size <= buffer.Length
      modifies impl, buffer
      ensures if impl == null then status == TeeInvalidParameter else (View(), status) == After(old(View()), e)
      ensures e.Refused? <==> impl == null || buffer == null || size == 0 || timeout > INT_MAX
      ensures !e.Refused? ==> e.ReadEvent? && e.size == size && (timeout == 0 ==> e.got != Unfinished(TeeTimeout))
      ensures status == TeeSuccess ==> bytesRead <= size && buffer[..] == e.got.data + old(buffer[bytesRead..])
    {
      e, bytesRead := Refused(Call.Read), 0;
      if impl == null || buffer == null || size == 0 || timeout > INT_MAX {
        return TeeInvalidParameter, bytesRead, e;
      }
      e := ReadEvent(size, Broken(TeeInternalError));
      if impl.state != Connected {
        return TeeDisconnected, bytesRead, e;
      }
      if impl.handle == INVALID_HANDLE || size > MAX_DWORD {
        impl.state := Failed;
        return TeeInvalidParameter, bytesRead, e;
      }
      var failed: bool := *;
      if failed {
        ghost var how;
        status, how := Fail(timeout);
        e := ReadEvent(size, how);
        impl.ops := impl.ops + [Reads(e.got)];
        impl.pending := if how.Unfinished? then impl.pending + 1 else impl.pending;
        impl.state := Failed;
        return;
      }
      var data: seq<Byte> := [];
      assert |data| <= size;
      data :| |data| <= size;
      e := ReadEvent(size, Done(data));
      impl.ops := impl.ops + [Reads(e.got)];
      forall i | 0 <= i < |data| {
        buffer[i] := data[i];
      }
      bytesRead := |data|;
      status := TeeSuccess;
    }

    method TeeWrite(buffer: array?<Byte>, size: nat, timeout: Word) returns (status: TeeStatus, bytesWritten: nat, ghost e: Event)
      requires buffer != null ==> size <= buffer.Length
      modifies impl
      ensures if impl == null then status == TeeInvalidParameter else (View(), status) == After(old(View()), e)
      ensures e.Refused? <==> impl == null || buffer == null || size == 0 || timeout > INT_MAX
      ensures !e.Refused? ==> e.WriteEvent? && e.size == size && (timeout == 0 ==> e.taken != Unfinished(TeeTimeout))
      ensures status == TeeSuccess ==> bytesWritten <= size && e.taken == Done(buffer[..bytesWritten])
    {
      e, bytesWritten := Refused(Call.Write), 0;
      if impl == null || buffer == null || size == 0 || timeout > INT_MAX {
        return TeeInvalidParameter, bytesWritten, e;
      }
      e := WriteEvent(size, Broken(TeeInternalError));
      if impl.state != Connected {
        return TeeDisconnected, bytesWritten, e;
      }
      if impl.handle == INVALID_HANDLE || size > MAX_DWORD {
        impl.state := Failed;
        return TeeInvalidParameter, bytesWritten, e;
      }
      var failed: bool := *;
      if failed {
        ghost var how;
        status, how := Fail(timeout);
        e := WriteEvent(size, how);
        impl.ops := impl.ops + [Writes(e.taken)];
        impl.pending := if how.Unfinished? then impl.pending + 1 else impl.pending;
        impl.state := Failed;
        return;
      }
      var n: nat :| n <= size;
      e := WriteEvent(size, Done(buffer[..n]));
      impl.ops := impl.ops + [Writes(e.taken)];
      bytesWritten := n;
      status := TeeSuccess;
    }

    /** A transfer fails at once, while it is waited for, or at its end. */
    method Fail(timeout: Word) returns (status: TeeStatus, ghost how: Transfer)
      ensures !how.Done? && status == StatusOf(how) && (timeout == 0 ==> how != Unfinished(TeeTimeout))
    {
      var win32: Win32Failure :| true;
      status := win32;
      var begun: bool, waited: bool := *, *;
      if !begun {
        how := NotBegun(win32);
      } else if waited {
        how := Broken(win32);
      } else {
        var late: bool := *;
        if late && timeout != 0 {
          status := TeeTimeout;
        }
        how := Unfinished(status);
      }
    }

    method TeeFWStatus(num: nat, wanted: bool) returns (status: TeeStatus, fwStatus: Word, ghost e: Event)
      modifies impl
      ensures if impl == null then status == TeeInvalidParameter else (View(), status) == After(old(View()), e)
      ensures e.Refused? <==> impl == null || !wanted || num > 5
      ensures status == TeeSuccess ==> e == QueryEvent(Ok(fwStatus))
    {
      e, fwStatus := Refused(Call.Query), 0;
      if impl == null || !wanted || num > 5 {
        return TeeInvalidParameter, fwStatus, e;
      }
      var answer: Outcome<Word, Win32Failure> :| true;
      e := QueryEvent(answer);
      if impl.handle == INVALID_HANDLE {
        impl.state := Failed;
        return Unlisted(ERROR_INVALID_PARAMETER), fwStatus, e;
      }
      impl.ops := impl.ops + [Queries(answer)];
      if answer.Err? {
        impl.state := Failed;
        return answer.error, fwStatus, e;
      }
      fwStatus := answer.value;
      status := TeeSuccess;
    }

    /** Ends the session: the library's own handle is closed and the caller's is left open. */
    method TeeDisconnect()
      requires impl != null ==> HandlesOk(View())
      modifies this, impl
      ensures impl == null
      ensures old(impl) != null ==> old(impl).held == {}
      ensures old(impl) != null && !old(impl).closeOnExit ==> old(impl).strays == old(impl.strays)
    {
      if impl != null {
        if impl.closeOnExit {
          impl.CloseHandle();
        }
        impl := null;
      }
    }
  }
}
