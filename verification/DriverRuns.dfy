/** What holds over whole runs of the diagnostic-driver transaction, and what the resume stager
    may conclude from the state one ends in. */
module DriverRuns {
  import opened Text
  import opened DriverStates
  import opened DriverDisk
  import opened DriverUpdate
  import Faults

  /** One run of the controller: where it is cut and what else restarts coreaudiod. */
  datatype Run = Run(fates: seq<Fate>, drifts: seq<nat>)

  // ----------------------------------------------------- what every reachable disk tells

  /** The old driver is in exactly one place, the staged candidate too, and both are where the
      journal says. */
  predicate DriversSafe(d: Disk)
    requires |d.entries| > 0
  {
    && Copies(d.slots, V7) == 1 && (d.slots.canonical == V7) != (d.slots.prior == V7)
    && (d.slots == UNSTAGED || Copies(d.slots, Candidate) == 1)
    && (Current(d) in {CandidatePublished, CoreAudioReloaded, DriverValidated, HostBootstrapped, ReadyVerified,
                       Committed}
        ==> d.slots == SWAPPED)
    && (Current(d) in {PriorDriverRestored, RollbackCoreAudioReloadInitiated, RollbackCoreAudioReloaded,
                       HostRebootstrapped, RolledBack}
        ==> d.slots.canonical == V7 && d.slots.prior == NoDriver)
    && (IsTerminal(Current(d)) ==> d.hostUp)
    && (Current(d) == Committed ==> States(d.entries) == FORWARD)
    && (Current(d) == RolledBack ==>
          |d.entries| > 5 && States(d.entries)[|d.entries| - 5..] == ROLLBACK_TAIL)
  }

  lemma DriversAreSafe(d: Disk)
    requires Consistent(d)
    ensures DriversSafe(d)
  {
    hide Accounts, RestartsAgree, AllBracketed, LegalHistory, PairAgrees, Intents;
    assert |d.entries| > 0 by { SomeEntry(d); }
    SlotInvariant(Current(d), d.slots, d.hostUp);
    HistoryTheorem(States(d.entries));
  }

  lemma SomeEntry(d: Disk)
    requires LegalHistory(States(d.entries))
    ensures |d.entries| > 0
  {
  }

  /** The rollback's reload on record as entry `i` was exactly one restart, judged by the
      generation that the record before it had journalled. */
  predicate ExactReload(entries: seq<Entry>, i: nat)
    requires i < |entries|
  {
    entries[i].state == RollbackCoreAudioReloaded ==>
      && i > 0 && entries[i - 1].state == RollbackCoreAudioReloadInitiated
      && entries[i].before == entries[i - 1].before
      && ValidGeneration(entries[i].before) && ValidGeneration(entries[i].after)
      && entries[i].after.pid != entries[i].before.pid
      && entries[i].after.runs == SaturatingSucc(entries[i].before.runs)
  }

  /** Every reload on record was exactly one restart, and over all runs the transaction itself
      sends at most two TERMs. */
  predicate RestartsExact(d: Disk) {
    && (forall i :: 0 <= i < |d.entries| ==> ExactReload(d.entries, i))
    && 0 <= d.starts - d.base - d.outside <= 2
  }

  lemma RestartsAreExact(d: Disk)
    requires Consistent(d)
    ensures RestartsExact(d)
  {
    hide LegalHistory, Intents, SlotsAgree, PairAgrees, RestartsAgree;
    forall i | 0 <= i < |d.entries| ensures ExactReload(d.entries, i) {
      assert Bracketed(d.entries, i);
    }
  }

  // ----------------------------------------------------- when recovery is left without a plan

  /** Recovery has no plan exactly one record past a pair that it resumed with a lagging image;
      that takes a second entry into the rollback. */
  predicate RejectedExactly(d: Disk)
    requires |d.entries| > 0
  {
    && (Plans(d, Reject) <==> OneRecordPast(Before(d), Current(d), d.image))
    && (Plans(d, Reject) ==> d.lagged && d.rollbacks >= 2)
  }

  lemma RejectionIsExact(d: Disk)
    requires Consistent(d)
    ensures RejectedExactly(d)
  {
    hide Accounts, RestartsAgree, AllBracketed, Intents, SlotsAgree, RecoveryPlan, ValidTransition, Lags;
    var states := States(d.entries);
    if OneRecordPast(Before(d), Current(d), d.image) {
      if |states| == 1 {
        BegunNeverLags(d.image);
      } else {
        assert ValidTransition(states[|states| - 2], states[|states| - 1]);
        LaggingIsRollback(Before(d), Current(d), d.image);
        LagsIff(Before(d), Current(d), d.image);
      }
    }
  }

  lemma BegunNeverLags(image: Option<State>)
    ensures !Lags(Begun, image)
  {
  }

  lemma LaggingIsRollback(from: State, to: State, image: Option<State>)
    requires Lags(from, image) && ValidTransition(from, to)
    ensures to !in FORWARD && to != PrestopAborted
  {
  }

  // --------------------------------------------------------------- the stager's outcomes

  datatype Outcome = CommittedOutcome | RolledBackOutcome | PrestopAbortedOutcome

  /** What the stager sees of coreaudiod: the generation, and when the process was started. */
  datatype Sighting = Sighting(generation: Generation, born: string)

  /** `coreaudio_successor_for_outcome` */
  predicate CoreAudioSuccessor(before: Sighting, after: Sighting, outcome: Outcome) {
    var b, a := before.generation, after.generation;
    match outcome
    case PrestopAbortedOutcome => after == before
    case RolledBackOutcome => a.pid != b.pid && a.runs >= b.runs && (a.runs - b.runs == 1 || a.runs - b.runs == 2)
    case CommittedOutcome => ExactSuccessor(b, a)
  }

  /** The Core Audio process that a fresh dispatch is pinned to. */
  const FRESH := Sighting(Generation(2_621, 5), "Sat Aug 22 11:03:06 2026")

  /** `retained_terminal_coreaudio_is_exact` */
  predicate RetainedIsExact(after: Sighting, outcome: Outcome) {
    var f, a := FRESH.generation, after.generation;
    match outcome
    case CommittedOutcome => a.pid != f.pid && a.runs == f.runs + 1
    case RolledBackOutcome => a.pid != f.pid && a.runs >= f.runs && (a.runs - f.runs == 1 || a.runs - f.runs == 2)
    case PrestopAbortedOutcome => a.pid == f.pid && a.runs == f.runs && after.born == FRESH.born
  }

  /** What a later run accepts of a finished transaction is what the dispatching run accepted. */
  lemma RetainedIsSuccessor(after: Sighting, outcome: Outcome)
    ensures RetainedIsExact(after, outcome) <==> CoreAudioSuccessor(FRESH, after, outcome)
  {
  }

  function OutcomeOf(s: State): Outcome
    requires IsTerminal(s)
  {
    match s
    case Committed => CommittedOutcome
    case RolledBack => RolledBackOutcome
    case _ => PrestopAbortedOutcome
  }

  ghost predicate FreshPids(pids: nat -> nat) {
    forall i: nat, j: nat :: i != j ==> pids(i) != pids(j)
  }

  /** The process that a given start of coreaudiod made. */
  function Sighted(pids: nat -> nat, born: nat -> string, start: nat): Sighting {
    Sighting(Generation(pids(start), start), born(start))
  }

  /** Without outside restarts, and with fresh pids, every terminal disk passes the stager's
      check: one restart behind a commit, one or two behind a rollback, none behind an abort. */
  lemma TerminalRestarts(pids: nat -> nat, born: nat -> string, d: Disk)
    requires Consistent(d) && IsTerminal(Current(d)) && d.outside == 0
    requires FreshPids(pids) && d.base + 2 <= U64_MAX
    ensures CoreAudioSuccessor(Sighted(pids, born, d.base), Sighted(pids, born, d.starts), OutcomeOf(Current(d)))
    ensures d.starts - d.base ==
            match Current(d)
            case Committed => 1
            case RolledBack => 1 + Bit(d.termed)
            case _ => 0
  {
    hide LegalHistory, Intents, SlotsAgree, PairAgrees, AllBracketed;
  }

  /** The check is not idle: it fails as soon as one outside restart is slipped in behind a
      commit or an abort, or three behind a rollback. */
  lemma OutsideRestartIsNoticed(pids: nat -> nat, born: nat -> string, d: Disk)
    requires Consistent(d) && IsTerminal(Current(d)) && d.starts <= U64_MAX
    requires d.outside > if Current(d) == RolledBack then 2 else 0
    ensures !CoreAudioSuccessor(Sighted(pids, born, d.base), Sighted(pids, born, d.starts), OutcomeOf(Current(d)))
  {
    hide LegalHistory, Intents, SlotsAgree, PairAgrees, AllBracketed;
  }

  // ------------------------------------------------------------------------- whole runs

  /** A recovery of this disk is a rollback that resumes with a lagging image. */
  predicate ResumesLagging(d: Disk) {
    |d.entries| > 0 && Plans(d, ResumeRollback) && Lags(Current(d), d.image)
  }

  predicate Undisturbed(forward: Run, recoveries: seq<Run>) {
    forward.drifts == [] && forall r :: r in recoveries ==> r.drifts == []
  }

  /** A forward run and any number of recovery runs, each cut anywhere and disturbed at will;
      `met` are the disks the recoveries found. */
  method AnyRuns(pids: nat -> nat, born: nat -> string, base: nat, patience: nat, forward: Run, recoveries: seq<Run>)
    returns (m: Machine, ghost met: seq<Disk>)
    ensures m.Valid() && m.pids == pids && m.base == base && m.disk.rollbacks <= 1 + |recoveries|
    ensures DriversSafe(m.disk) && RestartsExact(m.disk) && RejectedExactly(m.disk)
    // recovery keeps a plan as long as no rollback is resumed with a lagging image
    ensures |met| == |recoveries| && ((forall d :: d in met ==> !ResumesLagging(d)) ==> !Plans(m.disk, Reject))
    // what a stager finds of a finished, undisturbed transaction passes its check
    ensures Undisturbed(forward, recoveries) ==> m.disk.outside == 0
    ensures Undisturbed(forward, recoveries) && IsTerminal(Current(m.disk)) && FreshPids(pids) && base + 2 <= U64_MAX
            ==> CoreAudioSuccessor(Sighted(pids, born, base), Sighted(pids, born, m.disk.starts),
                                   OutcomeOf(Current(m.disk)))
  {
    hide Consistent, Intents, CoreAudioSuccessor, DriversSafe, RestartsExact, RejectedExactly;
    m := new Machine(pids, base, patience, forward.fates, forward.drifts);
    var step := m.Perform();
    met := [];
    ForwardHasPlan(m.disk);
    hide ResumesLagging, RecoveryPlan, Lags, FreshPids;
    for i := 0 to |recoveries|
      invariant m.Valid() && m.pids == pids && m.base == base && m.disk.rollbacks <= 1 + i
      invariant |met| == i && ((forall d :: d in met ==> !ResumesLagging(d)) ==> !Plans(m.disk, Reject))
      invariant Undisturbed(forward, recoveries) ==> m.disk.outside == 0
    {
      m.Open(recoveries[i].fates, recoveries[i].drifts);
      ghost var before := met;
      met := met + [m.disk];
      assert forall d :: d in before ==> d in met;
      step := Again(m);
    }
    DriversAreSafe(m.disk);
    RestartsAreExact(m.disk);
    RejectionIsExact(m.disk);
    if Undisturbed(forward, recoveries) && IsTerminal(Current(m.disk)) && FreshPids(pids) && base + 2 <= U64_MAX {
      TerminalRestarts(pids, born, m.disk);
    }
  }

  /** One more recovery, as `AnyRuns` looks at it. */
  method Again(m: Machine) returns (step: Faults.Step)
    requires m.process.alive && m.Valid()
    modifies m`fates, m`process, m`proved, m`drifts, m`disk, m`memory
    ensures m.Valid() && m.disk.rollbacks <= old(m.disk).rollbacks + 1
    ensures Plans(m.disk, Reject) ==> old(Plans(m.disk, Reject)) || ResumesLagging(old(m.disk))
    ensures old(m.drifts) == [] ==> m.disk.outside == old(m.disk).outside
  {
    hide Consistent, Intents, RecoveryPlan, Lags, RecoveryCompletes;
    step := m.Recover();
  }

  /** One cut in each phase: whatever it leaves, a further undisturbed recovery has a plan, and
      it reaches a terminal state exactly when that plan is not a rollback that cannot complete. */
  method OneCutPerPhase(pids: nat -> nat, base: nat, patience: nat, forward: Run, back: Run)
    returns (m: Machine, step: Faults.Step, ghost left: Disk)
    ensures Consistent(left) && RecoveryPlan(Current(left), left.image) != Reject
    ensures m.Valid() && (step.Done? ==> IsTerminal(Current(m.disk)))
    ensures step.Done? <==>
      left.pending != Stuck && (Plans(left, ResumeRollback) ==> RollbackCompletes(pids, left))
  {
    hide Consistent, Intents, RecoveryPlan, RollbackCompletes;
    m := new Machine(pids, base, patience, forward.fates, forward.drifts);
    step := m.Perform();
    if m.disk.rollbacks == 0 {
      m.Open(back.fates, back.drifts);
      step := m.Recover();
    }
    left := m.disk;
    ForwardHasPlan(left);
    m.Open([], []);
    step := m.Recover();
  }
}
