/** The states of the diagnostic-driver transaction: the transitions its journal may take, how
    far the second durable image may lag behind, and the plan recovery makes of the two. */
module DriverStates {
  import opened Text

  datatype State =
    | Begun
    | Authenticated
    | PrestopAborted
    | HostStopInitiated
    | HostStopped
    | PriorDriverRetained
    | CandidatePublished
    | CoreAudioReloaded
    | DriverValidated
    | HostBootstrapped
    | ReadyVerified
    | Committed
    | RollbackStarted
    | FailedDriverArchived
    | PriorDriverRestored
    | RollbackCoreAudioReloadInitiated
    | RollbackCoreAudioReloaded
    | HostRebootstrapped
    | RolledBack
    | CriticalFailure

  function Token(s: State): string {
    match s
    case Begun => "BEGUN"
    case Authenticated => "AUTHENTICATED"
    case PrestopAborted => "PRESTOP_ABORTED"
    case HostStopInitiated => "HOST_STOP_INITIATED"
    case HostStopped => "HOST_STOPPED"
    case PriorDriverRetained => "PRIOR_DRIVER_RETAINED"
    case CandidatePublished => "CANDIDATE_PUBLISHED"
    case CoreAudioReloaded => "COREAUDIO_RELOADED"
    case DriverValidated => "DRIVER_VALIDATED"
    case HostBootstrapped => "HOST_BOOTSTRAPPED"
    case ReadyVerified => "READY_VERIFIED"
    case Committed => "COMMITTED"
    case RollbackStarted => "ROLLBACK_STARTED"
    case FailedDriverArchived => "FAILED_DRIVER_ARCHIVED"
    case PriorDriverRestored => "PRIOR_DRIVER_RESTORED"
    case RollbackCoreAudioReloadInitiated => "ROLLBACK_COREAUDIO_RELOAD_INITIATED"
    case RollbackCoreAudioReloaded => "ROLLBACK_COREAUDIO_RELOADED"
    case HostRebootstrapped => "HOST_REBOOTSTRAPPED"
    case RolledBack => "ROLLED_BACK"
    case CriticalFailure => "CRITICAL_FAILURE"
  }

  const ALL_STATES: seq<State> := [
    Begun, Authenticated, PrestopAborted, HostStopInitiated, HostStopped, PriorDriverRetained,
    CandidatePublished, CoreAudioReloaded, DriverValidated, HostBootstrapped, ReadyVerified,
    Committed, RollbackStarted, FailedDriverArchived, PriorDriverRestored,
    RollbackCoreAudioReloadInitiated, RollbackCoreAudioReloaded, HostRebootstrapped, RolledBack,
    CriticalFailure
  ]

  /** The state whose token `value` is. */
  function ParseToken(value: string): Option<State> {
    FindToken(ALL_STATES, value)
  }

  function FindToken(states: seq<State>, value: string): Option<State> {
    if states == [] then None
    else if Token(states[0]) == value then Some(states[0])
    else FindToken(states[1..], value)
  }

  lemma {:induction false} FindTokenFinds(states: seq<State>, value: string)
    ensures FindToken(states, value).Some? ==> value == Token(FindToken(states, value).value)
    ensures FindToken(states, value).None? ==> forall s :: s in states ==> Token(s) != value
  {
    hide Token;
    if states != [] {
      FindTokenFinds(states[1..], value);
    }
  }

  /** A token's length; eight tokens share theirs with another one. */
  function TokenLength(s: State): nat {
    match s
    case Begun => 5
    case Authenticated => 13
    case PrestopAborted => 15
    case HostStopInitiated => 19
    case HostStopped => 12
    case PriorDriverRetained => 21
    case CandidatePublished => 19
    case CoreAudioReloaded => 18
    case DriverValidated => 16
    case HostBootstrapped => 17
    case ReadyVerified => 14
    case Committed => 9
    case RollbackStarted => 16
    case FailedDriverArchived => 22
    case PriorDriverRestored => 21
    case RollbackCoreAudioReloadInitiated => 35
    case RollbackCoreAudioReloaded => 27
    case HostRebootstrapped => 19
    case RolledBack => 11
    case CriticalFailure => 16
  }

  lemma TokenHasLength(s: State)
    ensures |Token(s)| == TokenLength(s)
  {
  }

  /** One character that tells tokens of equal length apart. */
  function TokenMark(s: State): char {
    match s
    case DriverValidated => 'R'
    case RollbackStarted => 'A'
    case CriticalFailure => 'C'
    case HostStopInitiated => 'S'
    case CandidatePublished => 'D'
    case HostRebootstrapped => 'R'
    case PriorDriverRetained => 'T'
    case _ => 'S'
  }

  lemma TokenHasMark(s: State)
    requires TokenLength(s) == 16 || TokenLength(s) == 19
    ensures |Token(s)| > 5 && Token(s)[5] == TokenMark(s)
  {
  }

  lemma PriorTokenHasMark(s: State)
    requires TokenLength(s) == 21
    ensures |Token(s)| > 15 && Token(s)[15] == TokenMark(s)
  {
  }

  lemma TokensDiffer(s: State, t: State)
    requires Token(s) == Token(t)
    ensures s == t
  {
    hide Token;
    TokenHasLength(s);
    TokenHasLength(t);
    if TokenLength(s) == 21 {
      PriorTokenHasMark(s);
      PriorTokenHasMark(t);
    } else if TokenLength(s) == 16 || TokenLength(s) == 19 {
      TokenHasMark(s);
      TokenHasMark(t);
    }
  }

  lemma AllStates(s: State)
    ensures s in ALL_STATES
  {
    var i :=
      match s
      case Begun => 0
      case Authenticated => 1
      case PrestopAborted => 2
      case HostStopInitiated => 3
      case HostStopped => 4
      case PriorDriverRetained => 5
      case CandidatePublished => 6
      case CoreAudioReloaded => 7
      case DriverValidated => 8
      case HostBootstrapped => 9
      case ReadyVerified => 10
      case Committed => 11
      case RollbackStarted => 12
      case FailedDriverArchived => 13
      case PriorDriverRestored => 14
      case RollbackCoreAudioReloadInitiated => 15
      case RollbackCoreAudioReloaded => 16
      case HostRebootstrapped => 17
      case RolledBack => 18
      case CriticalFailure => 19;
    assert ALL_STATES[i] == s;
  }

  /** Parsing a token is exact: it gives a state precisely for that state's token. */
  lemma ParseTokenIff(value: string, s: State)
    ensures ParseToken(value) == Some(s) <==> value == Token(s)
  {
    hide Token;
    FindTokenFinds(ALL_STATES, value);
    AllStates(s);
    if value == Token(s) {
      TokensDiffer(s, ParseToken(value).value);
    }
  }

  // ------------------------------------------------------------------ transitions

  predicate ValidTransition(from: State, to: State) {
    match from
    case Begun => to == Authenticated || to == PrestopAborted
    case Authenticated => to == PrestopAborted || to == HostStopInitiated || to == CriticalFailure
    case PrestopAborted => false
    case HostStopInitiated => to == HostStopped || to == RollbackStarted || to == CriticalFailure
    case HostStopped => to == PriorDriverRetained || to == RollbackStarted || to == CriticalFailure
    case PriorDriverRetained => to == CandidatePublished || to == RollbackStarted || to == CriticalFailure
    case CandidatePublished => to == CoreAudioReloaded || to == RollbackStarted || to == CriticalFailure
    case CoreAudioReloaded => to == DriverValidated || to == RollbackStarted || to == CriticalFailure
    case DriverValidated => to == HostBootstrapped || to == RollbackStarted || to == CriticalFailure
    case HostBootstrapped => to == ReadyVerified || to == RollbackStarted || to == CriticalFailure
    case ReadyVerified => to == Committed || to == RollbackStarted || to == CriticalFailure
    case Committed => false
    case RollbackStarted => to == FailedDriverArchived || to == PriorDriverRestored || to == CriticalFailure
    case FailedDriverArchived => to == PriorDriverRestored || to == CriticalFailure
    case PriorDriverRestored => to == RollbackCoreAudioReloadInitiated || to == CriticalFailure
    case RollbackCoreAudioReloadInitiated => to == RollbackCoreAudioReloaded || to == CriticalFailure
    case RollbackCoreAudioReloaded => to == HostRebootstrapped || to == CriticalFailure
    case HostRebootstrapped => to == RolledBack || to == CriticalFailure
    case RolledBack => false
    case CriticalFailure => to == RollbackStarted
  }

  /** A history of states that starts at BEGUN and only takes allowed transitions. */
  predicate LegalHistory(history: seq<State>) {
    && |history| > 0
    && history[0] == Begun
    && forall i :: 1 <= i < |history| ==> ValidTransition(history[i - 1], history[i])
  }

  function Last(history: seq<State>): State
    requires |history| > 0
  {
    history[|history| - 1]
  }

  const FORWARD: seq<State> := [
    Begun, Authenticated, HostStopInitiated, HostStopped, PriorDriverRetained, CandidatePublished,
    CoreAudioReloaded, DriverValidated, HostBootstrapped, ReadyVerified, Committed
  ]

  const ROLLBACK_TAIL: seq<State> := [
    PriorDriverRestored, RollbackCoreAudioReloadInitiated, RollbackCoreAudioReloaded,
    HostRebootstrapped, RolledBack
  ]

  predicate IsTerminal(s: State) {
    s == Committed || s == RolledBack || s == PrestopAborted
  }

  lemma ForwardPredecessor(from: State, k: nat)
    requires k < |FORWARD| && ValidTransition(from, FORWARD[k])
    ensures k > 0 && from == FORWARD[k - 1]
  {
  }

  lemma {:induction false} ForwardHistory(history: seq<State>, k: nat)
    requires LegalHistory(history) && k < |FORWARD| && Last(history) == FORWARD[k]
    ensures history == FORWARD[..k + 1]
  {
    var n := |history|;
    if n > 1 {
      var before := history[..n - 1];
      assert ValidTransition(history[n - 2], history[n - 1]);
      ForwardPredecessor(history[n - 2], k);
      hide ValidTransition;
      assert LegalHistory(before);
      ForwardHistory(before, k - 1);
      assert history == before + [FORWARD[k]];
    } else {
      BegunIsFirst(k);
      assert history == [Begun];
    }
  }

  lemma BegunIsFirst(k: nat)
    requires k < |FORWARD| && FORWARD[k] == Begun
    ensures k == 0
  {
  }

  lemma RollbackPredecessor(from: State, k: nat)
    requires 0 < k < |ROLLBACK_TAIL| && ValidTransition(from, ROLLBACK_TAIL[k])
    ensures from == ROLLBACK_TAIL[k - 1]
  {
  }

  lemma {:induction false} RollbackHistory(history: seq<State>, k: nat)
    requires LegalHistory(history) && k < |ROLLBACK_TAIL| && Last(history) == ROLLBACK_TAIL[k]
    ensures |history| > k + 1 && history[|history| - k - 1..] == ROLLBACK_TAIL[..k + 1]
  {
    var n := |history|;
    assert ROLLBACK_TAIL[k] != Begun;
    assert ValidTransition(history[n - 2], history[n - 1]);
    if k == 0 {
      assert history[n - 1..] == [history[n - 1]];
    } else {
      var before := history[..n - 1];
      RollbackPredecessor(history[n - 2], k);
      hide ValidTransition;
      assert LegalHistory(before);
      RollbackHistory(before, k - 1);
      assert history[n - k - 1..] == before[n - 1 - k..] + [history[n - 1]];
      assert ROLLBACK_TAIL[..k + 1] == ROLLBACK_TAIL[..k] + [ROLLBACK_TAIL[k]];
    }
  }

  /** What a history of any length must look like, given how it ends.  A commit has exactly the
      eleven forward states behind it; a rollback ends with the unbroken restore tail, after any
      number of failures and restarts before it; and nothing follows a terminal state. */
  lemma HistoryTheorem(history: seq<State>)
    requires LegalHistory(history)
    ensures Last(history) == Committed <==> history == FORWARD
    ensures Last(history) == RolledBack <==>
            |history| > 5 && history[|history| - 5..] == ROLLBACK_TAIL
    ensures Last(history) == PrestopAborted <==>
            history == [Begun, PrestopAborted] || history == [Begun, Authenticated, PrestopAborted]
    ensures forall i :: 0 <= i < |history| - 1 ==> !IsTerminal(history[i])
  {
    var n := |history|;
    if Last(history) == Committed {
      ForwardHistory(history, 10);
      assert FORWARD[..11] == FORWARD;
    }
    if Last(history) == RolledBack {
      RollbackHistory(history, 4);
      assert ROLLBACK_TAIL[..5] == ROLLBACK_TAIL;
    }
    if Last(history) == PrestopAborted {
      assert ValidTransition(history[n - 2], history[n - 1]);
      var k := if history[n - 2] == Begun then 0 else 1;
      ForwardHistory(history[..n - 1], k);
      assert history == history[..n - 1] + [PrestopAborted];
    }
    forall i | 0 <= i < n - 1 ensures !IsTerminal(history[i]) {
      assert ValidTransition(history[i + 1 - 1], history[i + 1]);
    }
  }

  // -------------------------------------------------------------- recovery planning

  /** `journal_and_root_state_are_crash_coherent` */
  predicate CrashCoherent(journal: State, state: State) {
    match journal
    case Begun => false
    case Authenticated => state == Authenticated || state == HostStopInitiated
    case PrestopAborted => state == PrestopAborted
    case HostStopInitiated => state == HostStopInitiated
    case HostStopped => state == HostStopInitiated || state == HostStopped
    case PriorDriverRetained => state == HostStopped
    case CandidatePublished => state == HostStopped || state == CandidatePublished
    case CoreAudioReloaded => state == CandidatePublished || state == CoreAudioReloaded
    case DriverValidated => state == CoreAudioReloaded || state == DriverValidated
    case HostBootstrapped => state == DriverValidated || state == HostBootstrapped
    case ReadyVerified => state == HostBootstrapped || state == ReadyVerified
    case Committed => state == ReadyVerified || state == Committed
    case RollbackStarted =>
      IsForwardImage(state) || state == CriticalFailure || state == RollbackStarted
    case FailedDriverArchived => state == RollbackStarted || state == FailedDriverArchived
    case PriorDriverRestored =>
      state == RollbackStarted || state == FailedDriverArchived || state == PriorDriverRestored
    case RollbackCoreAudioReloadInitiated =>
      state == PriorDriverRestored || state == RollbackCoreAudioReloadInitiated
    case RollbackCoreAudioReloaded =>
      || state == RollbackCoreAudioReloadInitiated || state == PriorDriverRestored
      || state == RollbackCoreAudioReloaded
    case HostRebootstrapped => state == RollbackCoreAudioReloaded || state == HostRebootstrapped
    case RolledBack => state == HostRebootstrapped || state == RolledBack
    case CriticalFailure =>
      || IsForwardImage(state) || state == RollbackStarted || state == FailedDriverArchived
      || state == PriorDriverRestored || state == RollbackCoreAudioReloadInitiated
      || state == RollbackCoreAudioReloaded || state == HostRebootstrapped || state == CriticalFailure
  }

  /** The images the forward run leaves between its stop intent and its commit. */
  predicate IsForwardImage(state: State) {
    || state == HostStopInitiated || state == HostStopped || state == CandidatePublished
    || state == CoreAudioReloaded || state == DriverValidated || state == HostBootstrapped
    || state == ReadyVerified
  }

  datatype ResumeAction = ContinueRecovery | FinalizePreservingHost | AlreadyComplete | Refuse

  /** `rollback_resume_action` */
  function RollbackResumeAction(state: State): ResumeAction {
    match state
    case HostRebootstrapped => FinalizePreservingHost
    case RolledBack => AlreadyComplete
    case Begun => Refuse
    case Authenticated => Refuse
    case PrestopAborted => Refuse
    case Committed => Refuse
    case _ => ContinueRecovery
  }

  datatype Plan =
    | PrestopPreserveHost
    | ResumeRollback
    | RepairCommittedState
    | ReportCommitted
    | RepairRolledBackState
    | ReportRolledBack
    | ReportPrestopAborted
    | Reject

  /** `root_recovery_plan` */
  function RecoveryPlan(journal: State, durable: Option<State>): Plan {
    match (journal, durable)
    case (Begun, None) => PrestopPreserveHost
    case (Authenticated, None) => PrestopPreserveHost
    case (Authenticated, Some(Authenticated)) => PrestopPreserveHost
    case (PrestopAborted, None) => PrestopPreserveHost
    case (PrestopAborted, Some(Authenticated)) => PrestopPreserveHost
    case (Authenticated, Some(HostStopInitiated)) => ResumeRollback
    case (Committed, Some(ReadyVerified)) => RepairCommittedState
    case (Committed, Some(Committed)) => ReportCommitted
    case (RolledBack, Some(HostRebootstrapped)) => RepairRolledBackState
    case (RolledBack, Some(RolledBack)) => ReportRolledBack
    case (PrestopAborted, Some(PrestopAborted)) => ReportPrestopAborted
    case (_, Some(state)) =>
      if CrashCoherent(journal, state) && RollbackResumeAction(journal) != Refuse
      then ResumeRollback else Reject
    case _ => Reject
  }

  /** The plan hands recovery a pair it can act on: rejection means that the pair is incoherent
      or that nothing was authorised yet, and a rollback is only ever resumed from a coherent
      pair whose journal has crossed the stop intent. */
  lemma PlanMeaning(journal: State, durable: Option<State>)
    ensures RecoveryPlan(journal, durable) == Reject <==>
            match durable
            case None => journal != Begun && journal != Authenticated && journal != PrestopAborted
            case Some(state) =>
              !CrashCoherent(journal, state) && !(journal == PrestopAborted && state == Authenticated)
    ensures RecoveryPlan(journal, durable) == ResumeRollback ==>
            && durable.Some? && CrashCoherent(journal, durable.value)
            && (|| RollbackResumeAction(journal) != Refuse
                || (journal, durable.value) == (Authenticated, HostStopInitiated))
  {
  }

  /** The state image is so far behind the journal that the rollback's next record, unless it is
      a failure record, must not be the last thing it does. */
  predicate Lags(journal: State, durable: Option<State>) {
    && durable.Some?
    && match journal
       case CriticalFailure =>
         !IsForwardImage(durable.value) && durable.value != CriticalFailure && durable.value != RollbackStarted
       case RollbackStarted => durable.value != RollbackStarted
       case PriorDriverRestored => durable.value != PriorDriverRestored
       case RollbackCoreAudioReloaded => durable.value != RollbackCoreAudioReloaded
       case HostRebootstrapped => durable.value != HostRebootstrapped
       case _ => false
  }

  /** The record a rollback adds to a pair it resumes leaves recovery without a plan exactly when
      the image lagged and the record is not of a failure. */
  lemma LagsIff(from: State, to: State, durable: Option<State>)
    requires RecoveryPlan(from, durable) == ResumeRollback && ValidTransition(from, to)
    requires to !in FORWARD && to != PrestopAborted
    ensures RecoveryPlan(to, durable) == Reject <==> Lags(from, durable) && to != CriticalFailure
  {
  }
}
