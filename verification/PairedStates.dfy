/** The journal states of the paired-host updater and the transitions between them. */
module PairedStates {
  import opened Text

  datatype State =
    | Begun
    | SourceExported
    | BuildVerified
    | StopInitiated
    | InstallHoldVerified
    | CurrentStopped
    | CurrentHeld
    | NewPublished
    | PersistentBootstrapped
    | ReadyVerified
    | Committed
    | RollbackStarted
    | FailedNewArchived
    | CurrentRestored
    | CurrentBootstrapped
    | RolledBack
    | CriticalFailure

  /** The declaration order, which the source compares states by. */
  function Rank(s: State): nat {
    match s
    case Begun => 0
    case SourceExported => 1
    case BuildVerified => 2
    case StopInitiated => 3
    case InstallHoldVerified => 4
    case CurrentStopped => 5
    case CurrentHeld => 6
    case NewPublished => 7
    case PersistentBootstrapped => 8
    case ReadyVerified => 9
    case Committed => 10
    case RollbackStarted => 11
    case FailedNewArchived => 12
    case CurrentRestored => 13
    case CurrentBootstrapped => 14
    case RolledBack => 15
    case CriticalFailure => 16
  }

  function Token(s: State): string {
    match s
    case Begun => "BEGUN"
    case SourceExported => "SOURCE_EXPORTED"
    case BuildVerified => "BUILD_VERIFIED"
    case StopInitiated => "STOP_INITIATED"
    case InstallHoldVerified => "INSTALL_HOLD_VERIFIED"
    case CurrentStopped => "CURRENT_STOPPED"
    case CurrentHeld => "CURRENT_HELD"
    case NewPublished => "NEW_PUBLISHED"
    case PersistentBootstrapped => "PERSISTENT_BOOTSTRAPPED"
    case ReadyVerified => "READY_VERIFIED"
    case Committed => "COMMITTED"
    case RollbackStarted => "ROLLBACK_STARTED"
    case FailedNewArchived => "FAILED_NEW_ARCHIVED"
    case CurrentRestored => "CURRENT_RESTORED"
    case CurrentBootstrapped => "CURRENT_BOOTSTRAPPED"
    case RolledBack => "ROLLED_BACK"
    case CriticalFailure => "CRITICAL_FAILURE"
  }

  const ALL_STATES: seq<State> := [
    Begun, SourceExported, BuildVerified, StopInitiated, InstallHoldVerified, CurrentStopped,
    CurrentHeld, NewPublished, PersistentBootstrapped, ReadyVerified, Committed, RollbackStarted,
    FailedNewArchived, CurrentRestored, CurrentBootstrapped, RolledBack, CriticalFailure
  ]

  /** The state whose token `value` is. */
  function ParseToken(value: string): Option<State> {
    FindToken(ALL_STATES, value)
  }

  function FindToken(states: seq<State>, value: string): Option<State> {
    if states == [] then None
    else if Token(states[0]) == value then Some(states[0])
    else FindToken(states[1..], value)
  }

  lemma {:induction false} FindTokenFinds(states: seq<State>, value: string)
    ensures FindToken(states, value).Some? ==> value == Token(FindToken(states, value).value)
    ensures FindToken(states, value).None? ==> forall s :: s in states ==> Token(s) != value
  {
    if states != [] {
      FindTokenFinds(states[1..], value);
    }
  }

  lemma TokensDiffer(s: State, t: State)
    requires |Token(s)| == |Token(t)| && Token(s)[1] == Token(t)[1]
    ensures s == t
  {
  }

  lemma AllStates(s: State)
    ensures s in ALL_STATES
  {
    assert ALL_STATES[Rank(s)] == s;
  }

  /** Parsing a token is exact: it gives a state precisely for that state's token. */
  lemma ParseTokenIff(value: string, s: State)
    ensures ParseToken(value) == Some(s) <==> value == Token(s)
  {
    FindTokenFinds(ALL_STATES, value);
    AllStates(s);
    if value == Token(s) {
      TokensDiffer(s, ParseToken(value).value);
    }
  }

  predicate IsSafeChar(c: char) {
    'a' <= c <= 'z' || 'A' <= c <= 'Z' || '0' <= c <= '9'
    || c == '.' || c == '_' || c == '-' || c == ':' || c == '/'
  }

  predicate AllSafe(value: string) {
    forall i :: 0 <= i < |value| ==> IsSafeChar(value[i])
  }

  predicate IsSafeValue(value: string) {
    value != "" && AllSafe(value)
  }

  function Schema(s: State): seq<string> {
    match s
    case SourceExported => ["commit", "tree", "initial_pid"]
    case BuildVerified => ["executable_sha256"]
    case StopInitiated => ["reserve_device", "reserve_inode", "reserve_bytes"]
    case ReadyVerified => ["pid", "runs", "nonce"]
    case CriticalFailure => ["phase"]
    case _ => []
  }

  predicate ValidTransition(previous: State, next: State) {
    || (previous == Begun && next == Begun)
    || IsForward(previous, next)
    || (&& next == RollbackStarted
        && (Rank(StopInitiated) <= Rank(previous) <= Rank(Committed) || previous == CriticalFailure)
        && previous != RollbackStarted)
    || IsRollback(previous, next)
    || (&& next == CriticalFailure
        && Rank(RollbackStarted) <= Rank(previous) < Rank(RolledBack))
  }

  predicate IsForward(previous: State, next: State) {
    match (previous, next)
    case (Begun, SourceExported) => true
    case (SourceExported, BuildVerified) => true
    case (BuildVerified, StopInitiated) => true
    case (StopInitiated, InstallHoldVerified) => true
    case (InstallHoldVerified, CurrentStopped) => true
    case (CurrentStopped, CurrentHeld) => true
    case (CurrentHeld, NewPublished) => true
    case (NewPublished, PersistentBootstrapped) => true
    case (PersistentBootstrapped, ReadyVerified) => true
    case (ReadyVerified, Committed) => true
    case _ => false
  }

  predicate IsRollback(previous: State, next: State) {
    match (previous, next)
    case (RollbackStarted, FailedNewArchived) => true
    case (RollbackStarted, CurrentRestored) => true
    case (FailedNewArchived, CurrentRestored) => true
    case (CurrentRestored, CurrentBootstrapped) => true
    case (CurrentBootstrapped, RolledBack) => true
    case _ => false
  }

  // ---------------------------------------------------------------- legal histories

  /** A history of states that starts at BEGUN and only takes allowed transitions. */
  predicate LegalHistory(history: seq<State>) {
    && |history| > 0
    && history[0] == Begun
    && forall i :: 1 <= i < |history| ==> ValidTransition(history[i - 1], history[i])
  }

  /** The states an update records after BEGUN. */
  const FORWARD_RECORDS: seq<State> := [
    SourceExported, BuildVerified, StopInitiated, InstallHoldVerified, CurrentStopped, CurrentHeld,
    NewPublished, PersistentBootstrapped, ReadyVerified, Committed
  ]

  /** The way forward as far as `state`, after `n` records of BEGUN. */
  function WayTo(n: nat, state: State): seq<State>
    requires Rank(state) <= Rank(Committed)
  {
    seq(n, _ => Begun) + FORWARD_RECORDS[..Rank(state)]
  }

  predicate IsWay(history: seq<State>, n: nat, state: State) {
    n >= 1 && Rank(state) <= Rank(Committed) && history == WayTo(n, state)
  }

  ghost predicate IsForwardHistory(history: seq<State>, state: State) {
    exists n: nat :: IsWay(history, n, state)
  }

  /** A rollback attempt is under way in `history` from place `k` on, and everything before it is
      the way forward past the stop intent. */
  ghost predicate TurnsBack(history: seq<State>, k: nat) {
    && 0 < k < |history| && history[k] == RollbackStarted
    && Rank(StopInitiated) <= Rank(history[k - 1]) <= Rank(Committed)
    && IsForwardHistory(history[..k], history[k - 1])
    && forall i :: k <= i < |history| ==> Rank(history[i]) > Rank(Committed)
  }

  lemma {:induction false} ForwardHistory(history: seq<State>) returns (n: nat)
    requires LegalHistory(history) && Rank(history[|history| - 1]) <= Rank(Committed)
    ensures IsWay(history, n, history[|history| - 1])
  {
    var last := |history| - 1;
    if last == 0 {
      n := 1;
      assert history == [Begun];
    } else {
      var before := history[..last];
      assert ValidTransition(history[last - 1], history[last]);
      n := ForwardHistory(before);
      assert history == before + [history[last]];
      if history[last] == Begun {
        n := n + 1;
      } else {
        ForwardStep(history[last - 1], history[last]);
      }
    }
  }

  lemma ForwardStep(from: State, to: State)
    requires ValidTransition(from, to) && Rank(to) <= Rank(Committed) && to != Begun
    ensures Rank(to) == Rank(from) + 1 && FORWARD_RECORDS[..Rank(to)] == FORWARD_RECORDS[..Rank(from)] + [to]
  {
    assert IsForward(from, to);
    assert FORWARD_RECORDS[Rank(from)] == to;
  }

  lemma {:induction false} RollbackHistory(history: seq<State>) returns (k: nat)
    requires LegalHistory(history) && Rank(history[|history| - 1]) > Rank(Committed)
    ensures TurnsBack(history, k)
  {
    hide ValidTransition, WayTo;
    var last := |history| - 1;
    var before := history[..last];
    assert ValidTransition(history[last - 1], history[last]);
    if Rank(history[last - 1]) <= Rank(Committed) {
      TurnIsAnnounced(history[last - 1], history[last]);
      k := last;
      var n := ForwardHistory(before);
    } else {
      k := RollbackHistory(before);
      assert history[..k] == before[..k];
    }
  }

  lemma TurnIsAnnounced(from: State, to: State)
    requires ValidTransition(from, to) && Rank(from) <= Rank(Committed) < Rank(to)
    ensures to == RollbackStarted && Rank(from) >= Rank(StopInitiated)
  {
  }

  /** What the last state says of all the states before it: the way forward is walked state by
      state; a rollback begins past the stop intent and never goes forward again; and a rollback
      that is complete has restored the baseline and bootstrapped it, in that order, at its very
      end. */
  lemma HistoryTheorem(history: seq<State>)
    requires LegalHistory(history)
    ensures var last := history[|history| - 1];
      && (Rank(last) <= Rank(Committed) <==> IsForwardHistory(history, last))
      && (Rank(last) > Rank(Committed) <==> exists k :: TurnsBack(history, k))
      && (last == RolledBack ==>
            && |history| >= 3 && history[|history| - 3..] == [CurrentRestored, CurrentBootstrapped, RolledBack])
    ensures forall i :: 0 <= i < |history| - 1 ==> history[i] != RolledBack
  {
    hide ValidTransition;
    var last := history[|history| - 1];
    if Rank(last) <= Rank(Committed) {
      var n := ForwardHistory(history);
    } else {
      var k := RollbackHistory(history);
      assert TurnsBack(history, k);
    }
    if last == RolledBack {
      CompleteRollback(history);
    }
    forall i | 0 <= i < |history| - 1 ensures history[i] != RolledBack {
      assert ValidTransition(history[i + 1 - 1], history[i + 1]);
      NothingAfterRolledBack(history[i], history[i + 1]);
    }
  }

  lemma NothingAfterRolledBack(from: State, to: State)
    requires ValidTransition(from, to)
    ensures from != RolledBack
  {
  }

  lemma CompleteRollback(history: seq<State>)
    requires LegalHistory(history) && history[|history| - 1] == RolledBack
    ensures |history| >= 3 && history[|history| - 3..] == [CurrentRestored, CurrentBootstrapped, RolledBack]
  {
    var n := |history|;
    assert ValidTransition(history[n - 2], history[n - 1]);
    assert history[n - 2] == CurrentBootstrapped;
    assert ValidTransition(history[n - 3], history[n - 2]);
  }
}
