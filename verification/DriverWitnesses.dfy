/** Runs that show the conditions on recovery to be needed: a second cut inside a rollback that
    leaves no plan, a reload intent that is journalled twice, a pending snapshot nobody gets past. */
module DriverWitnesses {
  import opened Text
  import opened DriverStates
  import opened DriverDisk
  import opened DriverUpdate
  import opened DriverRuns
  import opened DriverJournalText
  import opened DriverSnapshot
  import opened DriverJournal
  import opened DriverTexts
  import Faults

  // ---------------------------------------------------- a second cut leaves no plan

  /** A record of the way back whose image is never written: the run is cut right behind it. */
  method RecordAndDie(m: Machine, e: Entry)
    requires m.process.alive
    requires m.Back() && m.fates == [] && FitsBack(m.pids, m.disk, e) && Lags(Current(m.disk), m.disk.image)
    modifies m`fates, m`process, m`disk, m`memory
    ensures m.Valid() && Plans(m.disk, Reject)
    ensures m.disk.rollbacks == old(m.disk).rollbacks
  {
    hide Consistent, Intents, Lags, RecoveryPlan, Plans, PairAgrees, SlotsAgree, RestartFits, ValidTransition;
    BackFits(m.pids, m.disk, e);
    ghost var before := m.disk;
    hide FitsBack, Fits;
    var step := m.Record(e);
    PastLagging(before, m.disk, e);
  }

  /** One record past a pair that lags is a pair without a plan. */
  lemma PastLagging(before: Disk, after: Disk, e: Entry)
    requires Consistent(after) && |before.entries| > 0 && after.entries == before.entries + [e]
    requires after.image == before.image && Lags(Current(before), before.image)
    requires Plans(before, ResumeRollback) && e.state != CriticalFailure
    ensures Plans(after, Reject)
  {
    hide Consistent, Intents, Lags, RecoveryPlan;
    RejectionIsExact(after);
  }

  /** A rollback that resumes with a lagging image at ROLLBACK_STARTED. */
  method CutRestore(m: Machine)
    requires m.process.alive
    requires m.Back() && m.fates == [] && Current(m.disk) == RollbackStarted && Lags(RollbackStarted, m.disk.image)
    modifies m
    ensures m.Valid() && Plans(m.disk, Reject) && m.disk.rollbacks == old(m.disk).rollbacks
  {
    hide Consistent, Intents, FitsBack, RecoveryPlan, Lags;
    SlotsOfRestore(m.disk);
    var step := m.StopHostForRollback();
    if m.disk.slots.canonical == Candidate {
      step := m.MoveBack(Canonical, Failed);
      ArchivedFits(m.pids, m.disk);
      RecordAndDie(m, Plain(FailedDriverArchived));
    } else {
      hide SlotsAgree;
      if m.disk.slots.canonical == NoDriver {
        step := m.MoveBack(Prior, Canonical);
      }
      RestoredFits(m.pids, m.disk);
      RecordAndDie(m, Plain(PriorDriverRestored));
    }
  }

  /** The same at CRITICAL_FAILURE: the rollback is opened again, and cut behind its first record. */
  method CutOpening(m: Machine)
    requires m.process.alive
    requires m.Back() && m.fates == [] && Current(m.disk) == CriticalFailure && Lags(CriticalFailure, m.disk.image)
    modifies m
    ensures m.Valid() && Plans(m.disk, Reject) && m.disk.rollbacks == old(m.disk).rollbacks
  {
    hide Consistent, Intents, RecoveryPlan, Lags, PairAgrees, SlotsAgree, RestartFits, ValidTransition;
    StartFits(m.disk);
    FailurePlanIsResume(m.disk.image);
    ghost var before := m.disk;
    hide Fits;
    var step := m.Record(Plain(RollbackStarted));
    PastLagging(before, m.disk, Plain(RollbackStarted));
  }

  lemma FailurePlanIsResume(image: Option<State>)
    requires RecoveryPlan(CriticalFailure, image) != Reject
    ensures RecoveryPlan(CriticalFailure, image) == ResumeRollback
    ensures ValidTransition(CriticalFailure, RollbackStarted)
  {
  }

  /** The same before the reload intent. */
  method CutIntent(m: Machine)
    requires m.process.alive
    requires m.Back() && m.fates == [] && m.drifts == [] && Readable(m.pids, m.disk.starts)
    requires Current(m.disk) == PriorDriverRestored && Lags(PriorDriverRestored, m.disk.image)
    modifies m
    ensures m.Valid() && Plans(m.disk, Reject) && m.disk.rollbacks == old(m.disk).rollbacks
  {
    hide Consistent, Intents, FitsBack, RecoveryPlan, Lags;
    var step := m.StopHostForRollback();
    var seen;
    step, seen := m.Observe();
    var e := Entry(RollbackCoreAudioReloadInitiated, seen, NONE);
    IntentFits(m.pids, m.disk, e);
    RecordAndDie(m, e);
  }

  /** The same once the reload is on record. */
  method CutReturn(m: Machine)
    requires m.process.alive
    requires m.Back() && m.fates == []
    requires Current(m.disk) == RollbackCoreAudioReloaded && Lags(RollbackCoreAudioReloaded, m.disk.image)
    modifies m
    ensures m.Valid() && Plans(m.disk, Reject) && m.disk.rollbacks == old(m.disk).rollbacks
  {
    hide Consistent, Intents, FitsBack, RecoveryPlan, Lags;
    var step := m.StopHostForRollback();
    RollbackMayFinish(m.pids, m.disk);
    hide SlotsAgree;
    step := m.SetHost(true);
    RecordAndDie(m, Plain(HostRebootstrapped));
  }

  /** The condition is exact: every pair that recovery resumes with a lagging image is one cut
      away from a pair that every later recovery refuses. */
  method CutAgain(m: Machine)
    requires m.Valid() && ResumesLagging(m.disk) && m.disk.pending != Stuck
    requires Current(m.disk) == PriorDriverRestored ==> Readable(m.pids, m.disk.starts)
    modifies m
    ensures m.Valid() && Plans(m.disk, Reject) && m.disk.rollbacks == old(m.disk).rollbacks + 1
  {
    hide Consistent, Intents, FitsBack, RecoveryPlan;
    m.Open([], []);
    LaggingStates(Current(m.disk), m.disk.image);
    var found := Current(m.disk);
    var step := m.EnterRollback();
    hide Lags, RollbackResumeAction;
    if found == CriticalFailure {
      CutOpening(m);
    } else if found == RollbackStarted {
      CutRestore(m);
    } else if found == PriorDriverRestored {
      CutIntent(m);
    } else if found == RollbackCoreAudioReloaded {
      CutReturn(m);
    } else {
      RollbackMayFinish(m.pids, m.disk);
      RecordAndDie(m, Plain(RolledBack));
    }
  }

  lemma LaggingStates(s: State, image: Option<State>)
    requires Lags(s, image)
    ensures || s == CriticalFailure || s == RollbackStarted || s == PriorDriverRestored
            || s == RollbackCoreAudioReloaded || s == HostRebootstrapped
  {
  }

  /** A forward run that is cut right behind its stop intent. */
  method CutAfterStop() returns (m: Machine)
    ensures fresh(m) && m.At(HostStopInitiated, Some(HostStopInitiated), ORIGINAL, true)
    ensures m.fates == [] && m.drifts == [] && m.pids(1) == 301 && m.disk.starts == 1 && Intents(m.disk.entries) == []
  {
    hide Consistent, Intents;
    m := new Machine(n => n + 300, 1, 0, [], []);
    var step, baseline := m.Authenticate();
    step := m.IntendStop(baseline);
    ForwardHasNoIntent(m.disk);
  }

  lemma ForwardHasNoIntent(d: Disk)
    requires Consistent(d) && IsForward(Current(d))
    ensures Intents(d.entries) == []
  {
    hide SlotsAgree, PairAgrees, Accounts, AllBracketed, LegalHistory, Intents;
  }

  /** A recovery, as far as the open rollback. */
  method OpenRollback(m: Machine)
    requires m.Valid() && Current(m.disk) in {HostStopInitiated, CriticalFailure}
    requires m.disk.image == Some(Current(m.disk)) && m.disk.pending != Stuck
    modifies m
    ensures m.Back() && Current(m.disk) == RollbackStarted && m.disk.image == Some(RollbackStarted)
    ensures m.disk.slots == old(m.disk).slots && m.disk.rollbacks == old(m.disk).rollbacks + 1
    ensures m.fates == [] && m.drifts == [] && m.disk.starts == old(m.disk).starts
    ensures Intents(m.disk.entries) == Intents(old(m.disk).entries)
    ensures m.process.alive
  {
    hide Consistent, Intents, RecoveryPlan, SlotsAgree, Lags;
    m.Open([], []);
    Reenter(m);
    var step := m.BeginRollback();
    StartedImage(m.disk.image);
  }

  lemma StartedImage(image: Option<State>)
    ensures RecoveryPlan(RollbackStarted, image) != Reject && !Lags(RollbackStarted, image) ==>
      image == Some(RollbackStarted)
  {
  }

  method Reenter(m: Machine)
    requires m.process.alive
    requires m.Valid() && Current(m.disk) in {HostStopInitiated, CriticalFailure}
    requires m.disk.image == Some(Current(m.disk)) && m.disk.pending != Stuck && m.fates == []
    modifies m`fates, m`process, m`proved, m`disk, m`memory
    ensures m.Back() && m.memory == old(Current(m.disk)) && m.memory in {HostStopInitiated, CriticalFailure}
    ensures m.disk.slots == old(m.disk).slots && m.disk.rollbacks == old(m.disk).rollbacks + 1 && !m.disk.lagged
    ensures m.fates == [] && m.disk.starts == old(m.disk).starts
    ensures Intents(m.disk.entries) == Intents(old(m.disk).entries)
    ensures m.process.alive
  {
    hide Consistent, Intents, RecoveryPlan, SlotsAgree;
    StoppedPair(Current(m.disk));
    hide Lags;
    var step := m.EnterRollback();
  }

  lemma StoppedPair(s: State)
    requires s == HostStopInitiated || s == CriticalFailure
    ensures RecoveryPlan(s, Some(s)) != Reject && !Lags(s, Some(s))
  {
  }

  /** The first recovery is cut behind PRIOR_DRIVER_RESTORED, the second one behind its next
      record: recovery has no plan for what is left. */
  method SecondCut() returns (m: Machine)
    ensures m.Valid() && m.disk.rollbacks == 2 && Plans(m.disk, Reject)
  {
    hide Consistent, Intents, RecoveryPlan, Lags;
    m := CutAfterStop();
    OpenRollback(m);
    CutBehindRestored(m);
    CutAgain(m);
  }

  method CutBehindRestored(m: Machine)
    requires m.process.alive
    requires m.Back() && Current(m.disk) == RollbackStarted && m.disk.image == Some(RollbackStarted)
    requires m.disk.slots == ORIGINAL && m.fates == []
    modifies m`fates, m`process, m`disk, m`memory
    ensures m.Valid() && ResumesLagging(m.disk) && m.disk.pending == NoPending
    ensures m.disk.rollbacks == old(m.disk).rollbacks && m.disk.starts == old(m.disk).starts
  {
    hide Consistent, Intents, SlotsAgree, RecoveryPlan;
    var step := m.StopHostForRollback();
    RestoredFits(m.pids, m.disk);
    BackFits(m.pids, m.disk, Plain(PriorDriverRestored));
    hide FitsBack, Fits;
    step := m.Record(Plain(PriorDriverRestored));
    RestoredPair();
  }

  lemma RestoredPair()
    ensures RecoveryPlan(PriorDriverRestored, Some(RollbackStarted)) == ResumeRollback
  {
  }

  // ------------------------------------------------ a rollback that cannot complete

  /** From the open rollback to the reload intent. */
  method ReachIntent(m: Machine)
    requires m.process.alive
    requires m.Back() && Current(m.disk) == RollbackStarted && m.fates == [] && m.drifts == []
    requires Readable(m.pids, m.disk.starts)
    modifies m
    ensures m.Back() && Current(m.disk) == RollbackCoreAudioReloadInitiated && m.fates == [] && m.drifts == []
    ensures m.disk.starts == old(m.disk).starts && m.disk.rollbacks == old(m.disk).rollbacks
    ensures |Intents(m.disk.entries)| == |Intents(old(m.disk).entries)| + 1
    ensures m.process.alive
  {
    hide Consistent, Intents, SlotsAgree, RecoveryPlan, Lags;
    var step := m.StopAndRestore();
    step := m.IntendReload();
  }

  /** An error between the reload intent and the reload is journalled as a failure; the next
      rollback journals a second intent, and from then on none can complete. */
  method RepeatedIntent() returns (m: Machine)
    ensures m.Valid() && |Intents(m.disk.entries)| == 2 && m.disk.pending == NoPending
    ensures Plans(m.disk, ResumeRollback) && !RecoveryCompletes(m.pids, m.disk)
  {
    hide Consistent, Intents, RecoveryPlan, Lags;
    m := CutAfterStop();
    OpenRollback(m);
    ReachIntent(m);
    FailAtIntent(m);
    OpenRollback(m);
    ReachIntent(m);
  }

  method FailAtIntent(m: Machine)
    requires m.process.alive
    requires m.Back() && Current(m.disk) == RollbackCoreAudioReloadInitiated && m.fates == []
    modifies m
    ensures m.Valid() && Current(m.disk) == CriticalFailure && m.disk.image == Some(CriticalFailure)
    ensures m.disk.pending != Stuck && m.disk.starts == old(m.disk).starts
    ensures Intents(m.disk.entries) == Intents(old(m.disk).entries)
  {
    hide Consistent, Intents, RecoveryPlan, Lags;
    IntentMayFail();
    var step := m.JournalRollbackFailure();
  }

  lemma IntentMayFail()
    ensures ValidTransition(RollbackCoreAudioReloadInitiated, CriticalFailure)
  {
  }

  // --------------------------------------------- a pending snapshot nobody gets past

  const HEX_32: string := seq(32, _ => '0')
  const HEX_40: string := seq(40, _ => '0')

  const AUTHENTICATED_FIELDS := [
    Pair("host_pid", "1"), Pair("nonce", HEX_32), Pair("release_commit", HEX_40), Pair("release_tree", HEX_40)
  ]

  lemma HexIsClean()
    ensures LowerHex(HEX_32, 32) && LowerHex(HEX_40, 40)
    ensures AllDigits(HEX_32) && AllDigits(HEX_40)
  {
  }

  lemma CanonicalOne()
    ensures CanonicalPositive("1", U64_MAX).Some?
  {
  }

  lemma AuthenticatedIsRecordable()
    ensures Recordable(UserJournal, Authenticated, AUTHENTICATED_FIELDS)
  {
    hide Recordable, CanonicalPositive, LowerHex, Keys;
    KeysOfSix(AUTHENTICATED_FIELDS);
    HexIsClean();
    CanonicalOne();
    DistinctIsRecordable(UserJournal, Authenticated, AUTHENTICATED_FIELDS);
  }

  lemma {:induction false} JoinLength(parts: seq<string>)
    requires |parts| >= 1 && forall part :: part in parts ==> |part| <= 60
    ensures |Join(parts, ' ')| <= 61 * |parts|
  {
    assert parts[0] in parts;
    if |parts| > 1 {
      JoinLength(parts[1..]);
      assert |Join(parts, ' ')| == |parts[0]| + 1 + |Join(parts[1..], ' ')|;
    }
  }

  lemma SampleLength()
    ensures |RecordLine(Authenticated, AUTHENTICATED_FIELDS)| <= 366
    ensures |RecordLine(PrestopAborted, [])| <= 122
  {
    TokenHasLength(Authenticated);
    TokenHasLength(PrestopAborted);
    hide Token, Join;
    JoinLength(RecordWords(Authenticated, AUTHENTICATED_FIELDS));
    JoinLength(RecordWords(PrestopAborted, []));
  }

  lemma AbortIsRecordable()
    ensures Recordable(UserJournal, PrestopAborted, []) && ValidTransition(Authenticated, PrestopAborted)
    ensures ValidTransition(Begun, Authenticated)
  {
  }

  /** A journal of two records whose third is cut in the pending snapshot, behind the first one:
      no run gets past it. */
  method StuckRecord() returns (files: JournalFiles)
    ensures fresh(files) && JournalState(UserJournal, files.canonical) == Some(Authenticated)
    ensures files.pending == Some(FreshText(UserJournal)) && files.Effective(UserJournal) == None
  {
    hide JournalState, Recordable, RecordLine, Lines;
    files := new JournalFiles();
    var step, journal := Journal.Create(UserJournal, files, false, 0);
    FreshIsSmall();
    hide FreshText;
    var first := files.canonical;
    AuthenticatedIsRecordable();
    AbortIsRecordable();
    SampleLength();
    step := journal.Record(Authenticated, AUTHENTICATED_FIELDS, Published);
    FreshIsStuck(files.canonical);
    ghost var second := files.canonical;
    step := journal.Record(PrestopAborted, [], InPending(|first|, true));
    assert second[..|first|] == first;
    assert (second + (RecordLine(PrestopAborted, []) + "\n"))[..|first|] == first;
  }

  lemma FreshIsSmall()
    ensures |FreshText(UserJournal)| < 100
  {
    hide Header, RecordLine;
    HeaderIsPlain(UserJournal);
    BegunIsRecordable(UserJournal);
  }

  lemma FreshIsStuck(text: string)
    requires |text| > |FreshText(UserJournal)| && text[..|FreshText(UserJournal)|] == FreshText(UserJournal)
    ensures IsStuckCut(text, |FreshText(UserJournal)|)
  {
    hide Lines, RecordLine, Header;
    var start := FreshText(UserJournal);
    FreshCut(UserJournal, |start|);
    assert start[..|start|] == start;
    assert text[|start| - 1] == start[|start| - 1];
  }
}
