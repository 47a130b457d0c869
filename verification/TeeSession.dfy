/** The session that all three back ends offer (include/metee.h), as one two-state machine, and what holds over its runs. */
module TeeSession {
  import opened HeciRegisters

  datatype TeeStatus =
    | TeeSuccess
    | TeeInternalError
    | TeeDeviceNotFound
    | TeeDeviceNotReady
    | TeeInvalidParameter
    | TeeUnableToComplete
    | TeeTimeout
    | TeeNotSupported
    | TeeClientNotFound
    | TeeBusy
    | TeeDisconnected
    | TeeInsufficientBuffer
    | TeePermissionDenied
    | Unlisted(code: nat) // a number outside the list in the header

  /** What a connect learns of its firmware client. */
  datatype ClientInfo = ClientInfo(maxMsgLen: nat, protocolVer: Byte)

  datatype Session = Session(connected: bool, maxMsgLen: nat, protocolVer: nat)

  datatype Call = Connect | Read | Write | Query

  /** A finished call: `valid` says its parameters passed the checks, `touched` that it reached the device. */
  datatype Step = Step(call: Call, valid: bool, status: TeeStatus, touched: bool)

  predicate Allowed(s: Session, e: Step, s': Session) {
    // only a successful connect changes what the handle reports of the client
    && ((s'.maxMsgLen != s.maxMsgLen || s'.protocolVer != s.protocolVer) ==> e.call == Connect && e.status == TeeSuccess)
    && (!e.valid ==> e.status == TeeInvalidParameter && !e.touched && s' == s)
    && (e.valid ==>
          match e.call
          case Connect =>
            if s.connected then e.status == TeeInternalError && !e.touched && s' == s
            else s'.connected <==> e.status == TeeSuccess
          case Query =>
            && (s'.connected ==> s.connected)
            && (s.connected && !s'.connected ==> e.status != TeeSuccess)
          case _ =>
            if !s.connected then e.status == TeeDisconnected && !e.touched && s' == s
            else !s'.connected ==> e.status != TeeSuccess)
  }

  datatype Run = Run(sessions: seq<Session>, steps: seq<Step>)

  ghost predicate IsRun(r: Run) {
    && |r.sessions| == |r.steps| + 1
    && forall i :: 0 <= i < |r.steps| ==> Allowed(r.sessions[i], r.steps[i], r.sessions[i + 1])
  }

  predicate Connects(e: Step) {
    e.valid && e.call == Connect && e.status == TeeSuccess
  }

  /** Outside a connection every read and write is refused without touching the device, until a connect succeeds. */
  lemma {:induction false} NothingGetsThroughWhileDisconnected(r: Run, n: nat, m: nat)
    requires IsRun(r) && n <= m <= |r.steps| && !r.sessions[n].connected
    requires forall k :: n <= k < m ==> !Connects(r.steps[k])
    ensures !r.sessions[m].connected
    ensures forall k :: n <= k < m && (r.steps[k].call == Read || r.steps[k].call == Write) ==>
              r.steps[k].status != TeeSuccess && !r.steps[k].touched
    decreases m
  {
    if n == m {
    } else {
      NothingGetsThroughWhileDisconnected(r, n, m - 1);
      assert Allowed(r.sessions[m - 1], r.steps[m - 1], r.sessions[m]);
    }
  }

  lemma {:induction false} StaysConnected(r: Run, n: nat, m: nat)
    requires IsRun(r) && n <= m <= |r.steps| && r.sessions[n].connected
    requires forall k :: n <= k < m ==> r.steps[k].status == TeeSuccess
    ensures r.sessions[m].connected
    decreases m
  {
    if n == m {
    } else {
      StaysConnected(r, n, m - 1);
      assert Allowed(r.sessions[m - 1], r.steps[m - 1], r.sessions[m]);
    }
  }

  /** Between two successful connects some call has failed. */
  lemma FailureBetweenConnects(r: Run, n: nat, m: nat)
    requires IsRun(r) && n < m < |r.steps| && Connects(r.steps[n]) && Connects(r.steps[m])
    ensures exists k :: n < k < m && r.steps[k].status != TeeSuccess
  {
    assert Allowed(r.sessions[n], r.steps[n], r.sessions[n + 1]);
    assert Allowed(r.sessions[m], r.steps[m], r.sessions[m + 1]);
    if forall k :: n < k < m ==> r.steps[k].status == TeeSuccess {
      StaysConnected(r, n + 1, m);
      assert false;
    }
  }

  /** What the handle reports of its client is what the last successful connect found. */
  lemma {:induction false} ReportIsFromLastConnect(r: Run, n: nat, m: nat)
    requires IsRun(r) && n <= m <= |r.steps|
    requires forall k :: n <= k < m ==> !Connects(r.steps[k])
    ensures r.sessions[m].maxMsgLen == r.sessions[n].maxMsgLen && r.sessions[m].protocolVer == r.sessions[n].protocolVer
    decreases m
  {
    if n == m {
    } else {
      ReportIsFromLastConnect(r, n, m - 1);
      assert Allowed(r.sessions[m - 1], r.steps[m - 1], r.sessions[m]);
    }
  }

  // ---- histories ----

  ghost predicate IsHistory(r: Run, s: Session) {
    IsRun(r) && r.sessions[|r.steps|] == s
  }

  function Extended(r: Run, e: Step, s: Session): Run {
    Run(r.sessions + [s], r.steps + [e])
  }

  predicate IsTransfer(e: Step) {
    e.call == Read || e.call == Write
  }

  /** Call `i` was a transfer on a connected session that answered that the session is gone. */
  predicate LosesAt(r: Run, i: int) {
    && 0 <= i < |r.steps| && i < |r.sessions|
    && r.sessions[i].connected && IsTransfer(r.steps[i]) && r.steps[i].status == TeeDisconnected
  }

  ghost predicate HasLoss(r: Run) {
    exists i :: LosesAt(r, i)
  }

  /** Once lost, always lost: no later call succeeds or touches the device. */
  ghost predicate Absorbed(r: Run) {
    forall i, j :: 0 <= i < j < |r.steps| && LosesAt(r, i) ==> r.steps[j].status != TeeSuccess && !r.steps[j].touched
  }

  lemma ExtendHistory(r: Run, s: Session, e: Step, s': Session)
    requires IsHistory(r, s) && Allowed(s, e, s')
    ensures IsHistory(Extended(r, e, s'), s')
    ensures HasLoss(Extended(r, e, s')) <==>
      HasLoss(r) || (s.connected && IsTransfer(e) && e.status == TeeDisconnected)
    ensures Absorbed(r) && (HasLoss(r) ==> e.status != TeeSuccess && !e.touched) ==> Absorbed(Extended(r, e, s'))
  {
    var r' := Extended(r, e, s');
    assert forall i :: 0 <= i < |r.steps| ==> r'.steps[i] == r.steps[i] && r'.sessions[i] == r.sessions[i];
    assert forall i :: 0 <= i < |r.steps| ==> (LosesAt(r', i) <==> LosesAt(r, i));
    if HasLoss(r) {
      var i :| LosesAt(r, i);
      assert LosesAt(r', i);
    }
    if s.connected && IsTransfer(e) && e.status == TeeDisconnected {
      assert LosesAt(r', |r.steps|);
    }
  }
}
