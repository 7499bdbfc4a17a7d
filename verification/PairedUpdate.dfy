/** The paired-host update: the app is swapped in through four slots beside a journal, and an
    explicit rollback puts the baseline back from wherever a crash or an error left things. */
module PairedUpdate {
  import opened Text
  import opened Faults
  import opened PairedStates

  /** What a slot holds.  A copy that was cut short is `TornCopy`. */
  datatype App = NoApp | Baseline | Replacement | TornCopy

  datatype Pointer = Unpublished | Active | Retired

  datatype Slot = Canonical | RollbackSlot | Hold | FailedNew | UnusedHold

  /** Everything that outlives the process. */
  datatype Disk = Disk(
    pointer: Pointer,
    journal: State,
    canonical: App,
    rollback: App,
    holdRoot: bool,
    hold: App,
    failed: App,
    unused: App,
    loaded: bool)
  {
    function Get(slot: Slot): App {
      match slot
      case Canonical => canonical
      case RollbackSlot => rollback
      case Hold => hold
      case FailedNew => failed
      case UnusedHold => unused
    }

    function Put(slot: Slot, app: App): Disk {
      match slot
      case Canonical => this.(canonical := app)
      case RollbackSlot => this.(rollback := app)
      case Hold => this.(hold := app)
      case FailedNew => this.(failed := app)
      case UnusedHold => this.(unused := app)
    }

    function Moved(from: Slot, to: Slot): Disk {
      Put(to, Get(from)).Put(from, NoApp)
    }
  }

  const INITIAL := Disk(Unpublished, Begun, Baseline, NoApp, false, NoApp, NoApp, NoApp, true)

  // -------------------------------------------------------------- the invariant

  /** Each slot only ever holds what it is for; the baseline is in exactly one of its two
      slots and no two slots hold the replacement. */
  predicate Conserved(d: Disk) {
    && (d.canonical == Baseline) != (d.rollback == Baseline)
    && d.canonical != TornCopy
    && (d.rollback == NoApp || d.rollback == Baseline)
    && d.hold != Baseline
    && (d.failed == NoApp || d.failed == Replacement)
    && (d.unused == NoApp || d.unused == Replacement)
    && (d.canonical == Replacement ==> d.hold == NoApp && d.failed == NoApp && d.unused == NoApp)
    && (d.hold != NoApp ==> d.holdRoot && d.failed == NoApp && d.unused == NoApp)
    && (d.failed == Replacement ==> d.unused == NoApp)
    && (d.loaded ==> d.canonical != NoApp)
  }

  function Count(app: App, wanted: App): nat {
    if app == wanted then 1 else 0
  }

  /** How many slots hold `app`. */
  function Copies(d: Disk, app: App): nat {
    Count(d.canonical, app) + Count(d.rollback, app) + Count(d.hold, app)
    + Count(d.failed, app) + Count(d.unused, app)
  }

  lemma ConservedCounts(d: Disk)
    requires Conserved(d)
    ensures Copies(d, Baseline) == 1
    ensures Copies(d, Replacement) == if HasReplacement(d) then 1 else 0
  {
  }

  /** What each journal state says about the slots. */
  predicate JournalAgrees(d: Disk) {
    match d.journal
    case Begun => d == INITIAL
    case SourceExported => d == INITIAL.(journal := SourceExported)
    case BuildVerified => d == INITIAL.(journal := BuildVerified)
    case StopInitiated =>
      && d.canonical == Baseline && d.failed == NoApp && d.unused == NoApp && d.loaded
      && (d.pointer == Active || (d.pointer == Unpublished && !d.holdRoot))
    case InstallHoldVerified =>
      d.pointer == Active && d.canonical == Baseline && d.hold == Replacement
    case CurrentStopped =>
      d.pointer == Active && !d.loaded && d.hold == Replacement
    case CurrentHeld =>
      && d.pointer == Active && !d.loaded && d.rollback == Baseline
      && (d.hold == Replacement || d.canonical == Replacement)
    case NewPublished => Swapped(d)
    case PersistentBootstrapped => Swapped(d) && d.loaded
    case ReadyVerified => Swapped(d) && d.loaded
    case Committed => Swapped(d) && d.loaded
    case RollbackStarted => d.pointer == Active
    case CriticalFailure => d.pointer == Active
    case FailedNewArchived =>
      d.pointer == Active && !d.loaded && !d.holdRoot && d.failed == Replacement
    case CurrentRestored => d.pointer == Active && d.canonical == Baseline && !d.holdRoot
    case CurrentBootstrapped => d.pointer == Active && d.canonical == Baseline && !d.holdRoot
    case RolledBack =>
      d.pointer != Unpublished && d.canonical == Baseline && !d.holdRoot && d.loaded
  }

  predicate Swapped(d: Disk) {
    d.pointer == Active && d.canonical == Replacement && d.rollback == Baseline && !d.holdRoot
  }

  predicate Consistent(d: Disk) {
    Conserved(d) && JournalAgrees(d)
  }

  /** Where a complete update ends: the host runs the replacement, and the baseline is retained. */
  const UPDATED := INITIAL.(pointer := Active, journal := Committed, canonical := Replacement, rollback := Baseline)

  /** From the bootstrap record on the host runs the replacement; a committed disk is the one a
      complete update ends with. */
  lemma BootstrappedRuns(d: Disk)
    requires Consistent(d)
    ensures d.journal in {PersistentBootstrapped, ReadyVerified, Committed} ==>
      d.loaded && d.canonical == Replacement && d.rollback == Baseline
    ensures d.journal == Committed ==> d == UPDATED
  {
  }

  predicate HasReplacement(d: Disk) {
    d.canonical == Replacement || d.hold == Replacement || d.failed == Replacement || d.unused == Replacement
  }

  /** A rollback step neither creates nor loses an app and never changes where a complete
      rollback would end. */
  predicate SameGoal(a: Disk, b: Disk) {
    && Restored(a) == Restored(b)
    && HasReplacement(a) == HasReplacement(b)
    && (a.hold == TornCopy) == (b.hold == TornCopy)
  }

  // -------------------------------------------------- what a rollback must achieve

  /** Where a complete rollback command takes a disk. */
  function Restored(d: Disk): Disk {
    d.(pointer := Retired,
       journal := RolledBack,
       canonical := Baseline,
       rollback := NoApp,
       holdRoot := false,
       hold := NoApp,
       failed := if d.canonical == Replacement then Replacement else d.failed,
       unused := if d.hold == Replacement then Replacement else d.unused,
       loaded := true)
  }

  lemma RestoredMeans(d: Disk)
    requires Consistent(d) && d.pointer != Unpublished && d.hold != TornCopy
    ensures var r := Restored(d);
      && Consistent(r) && Restored(r) == r
      && r.canonical == Baseline && r.rollback == NoApp && r.hold == NoApp
      && HasReplacement(r) == HasReplacement(d)
      && (HasReplacement(d) <==> r.failed == Replacement || r.unused == Replacement)
      && !(r.failed == Replacement && r.unused == Replacement)
      && (d.journal == RolledBack ==> r == d.(pointer := Retired))
  {
  }

  predicate AlreadyRollingBack(s: State) {
    s == RollbackStarted || s == FailedNewArchived || s == CurrentRestored || s == CurrentBootstrapped
  }

  /** The replacement is not archived yet although the baseline is still set aside. */
  predicate NeedsArchive(d: Disk) {
    d.rollback == Baseline && (d.canonical == Replacement || d.failed == Replacement)
  }

  /** The records a rollback still has to append. */
  function RollbackRecords(d: Disk): seq<State> {
    Remaining(d.journal, NeedsArchive(d))
  }

  function Remaining(journal: State, needsArchive: bool): seq<State> {
    if journal == RolledBack then []
    else if journal == CurrentBootstrapped then [RolledBack]
    else if journal == CurrentRestored then [CurrentBootstrapped, RolledBack]
    else if journal == FailedNewArchived then [CurrentRestored, CurrentBootstrapped, RolledBack]
    else
      (if journal == RollbackStarted then [] else [RollbackStarted])
      + (if needsArchive then [FailedNewArchived] else [])
      + [CurrentRestored, CurrentBootstrapped, RolledBack]
  }

  predicate IsNextBack(journal: State, needsArchive: bool, next: State) {
    match next
    case RollbackStarted => !AlreadyRollingBack(journal) && journal != RolledBack
    case FailedNewArchived => journal == RollbackStarted && needsArchive
    case CurrentRestored =>
      journal == FailedNewArchived || (journal == RollbackStarted && !needsArchive)
    case CurrentBootstrapped => journal == CurrentRestored
    case RolledBack => journal == CurrentBootstrapped
    case _ => false
  }

  lemma NextBackIsFirst(journal: State, needsArchive: bool, next: State)
    requires IsNextBack(journal, needsArchive, next)
    ensures Remaining(journal, needsArchive) == [next] + Remaining(next, needsArchive)
  {
  }

  /** The slots alone decide where a rollback ends and whether something must be archived. */
  lemma JournalKeepsSlots(d: Disk, s: State)
    requires Conserved(d)
    ensures Conserved(d.(journal := s)) && SameGoal(d, d.(journal := s))
    ensures NeedsArchive(d.(journal := s)) == NeedsArchive(d)
  {
  }

  /** A rolled-back disk is the one that its own rollback ends with, but for the pointer. */
  lemma RolledBackIsRestored(d: Disk)
    requires Consistent(d) && d.journal == RolledBack
    ensures d.(pointer := Retired) == Restored(d) && d.hold != TornCopy
  {
  }

  lemma LoadedKeepsSlots(d: Disk, loaded: bool)
    requires Conserved(d) && (loaded ==> d.canonical != NoApp)
    ensures Conserved(d.(loaded := loaded)) && SameGoal(d, d.(loaded := loaded))
    ensures NeedsArchive(d.(loaded := loaded)) == NeedsArchive(d)
  {
  }

  lemma PointerKeepsSlots(d: Disk, pointer: Pointer)
    requires Conserved(d)
    ensures Conserved(d.(pointer := pointer)) && SameGoal(d, d.(pointer := pointer))
  {
  }

  lemma NoHoldRoot(d: Disk)
    requires Conserved(d)
    ensures !d.holdRoot ==> d.hold == NoApp
  {
  }

  lemma HoldMayMove(d: Disk)
    requires Consistent(d) && d.journal == RollbackStarted && d.hold != NoApp && d.hold != TornCopy
    ensures d.unused == NoApp && Consistent(d.Moved(Hold, UnusedHold)) && SameGoal(d, d.Moved(Hold, UnusedHold))
    ensures NeedsArchive(d.Moved(Hold, UnusedHold)) == NeedsArchive(d)
  {
  }

  lemma HoldRootMayGo(d: Disk)
    requires Consistent(d) && d.journal == RollbackStarted && d.hold == NoApp
    ensures Consistent(d.(holdRoot := false)) && SameGoal(d, d.(holdRoot := false))
    ensures NeedsArchive(d.(holdRoot := false)) == NeedsArchive(d)
  {
  }

  lemma PublishedHasNoHold(d: Disk)
    requires Consistent(d) && (d.journal == NewPublished || d.journal == PersistentBootstrapped)
    ensures d.hold == NoApp
  {
  }

  lemma ArchivedNeedsNoMore(a: bool, b: bool)
    ensures Remaining(FailedNewArchived, a) == Remaining(FailedNewArchived, b)
  {
  }

  // ------------------------------------------------------------------ the machine

  /** One Mac: the durable disk and the controller process working on it. */
  class Machine {
    var disk: Disk
    var memory: State          // the journal state the process believes in
    var healthy: bool          // false once a journal append could not be taken back
    var fates: Fates
    ghost var records: seq<State>   // every record that became durable, in order
    ghost var process: Process      // the controller process: nothing happens once it is dead
    ghost var proved: Option<Disk>  // the world as the process last proved it

    constructor (fates: Fates)
      ensures disk == INITIAL && healthy && this.fates == fates && Forward() && process == BORN
    {
      disk := INITIAL;
      memory := Begun;
      healthy := true;
      this.fates := fates;
      records, process, proved := [], BORN, None;
      new;
      assert FORWARD_RECORDS[..0] == [];
    }

    predicate Valid()
      reads this
    {
      Consistent(disk) && (healthy ==> memory == disk.journal)
    }

    /** The process has proved the world as it stands, but for what it has put on record since. */
    ghost predicate Known()
      reads this
    {
      proved.Some? && proved.value.(journal := disk.journal) == disk
    }

    /** A fresh process opens the journal that is on disk. */
    method Restart(fates: Fates)
      requires Valid()
      modifies this
      ensures Valid() && disk == old(disk) && records == old(records)
      ensures memory == disk.journal && healthy && this.fates == fates && process == BORN
    {
      memory := disk.journal;
      healthy, process := true, BORN;
      this.fates := fates;
    }

    /** The one fault of a run with a single fault is the last thing that happens to it: a section
        that fails has met it, and one that gets through may still have it ahead. */
    twostate predicate Consumed(step: Step)
      reads this
    {
      && (old(fates) == [] ==> step.Done? && fates == [])
      && (SingleFault(old(fates)) ==> if step.Done? then SingleFault(fates) else fates == [])
    }

    /** The process goes on, having passed `n` proofs in a step that is done, or has died. */
    twostate predicate Lives(step: Step, n: nat)
      reads this`process
    {
      MovesOn(old(process), process, step, n)
    }

    method Fated() returns (fate: Fate)
      requires process.alive
      modifies this`fates, this`process
      ensures fate == Next(old(fates)) && fates == Rest(old(fates))
      ensures process == old(process).(alive := !fate.Die?)
    {
      fate := Next(fates);
      fates, process := Rest(fates), process.(alive := !fate.Die?);
    }

    /** A proof step: it reads the world and changes nothing. */
    method Checkpoint() returns (step: Step)
      requires process.alive
      modifies this`fates, this`process, this`proved
      ensures Lives(step, 1)
      ensures process == Process(!step.Died?, old(process).proofs + if step.Done? then 1 else 0)
      ensures Consumed(step)
      ensures step == Seen(Next(old(fates))) && fates == Rest(old(fates))
      ensures proved == if step.Done? then Some(disk) else old(proved)
    {
      var fate := Fated();
      if fate.Go? {
        process, proved := process.(proofs := process.proofs + 1), Some(disk);
      }
      return Seen(fate);
    }

    /** One durable change; it may be durable even when the step reports a failure. */
    method Change(next: Disk) returns (step: Step)
      requires process.alive
      requires Valid() && Consistent(next) && next.journal == disk.journal
      modifies this`fates, this`disk, this`process
      ensures Lives(step, 0)
      ensures Valid() && Consumed(step)
      ensures step == Seen(Next(old(fates))) && fates == Rest(old(fates))
      ensures disk == if Lands(Next(old(fates))) then next else old(disk)
    {
      var fate := Fated();
      if Lands(fate) {
        disk := next;
      }
      return Seen(fate);
    }

    /** A change of the world that the process has just proved. */
    method Act(next: Disk) returns (step: Step)
      requires process.alive && Known()
      requires Valid() && Consistent(next) && next.journal == disk.journal
      modifies this`fates, this`disk, this`process
      ensures Lives(step, 0)
      ensures Valid() && Consumed(step)
      ensures step == Seen(Next(old(fates))) && fates == Rest(old(fates))
      ensures disk == if Lands(Next(old(fates))) then next else old(disk)
    {
      step := Change(next);
    }

    /** `rename_exclusive`.  The canonical app is only ever touched while the host is down. */
    method Move(from: Slot, to: Slot) returns (step: Step)
      requires process.alive
      requires Known()
      requires Valid() && from != to
      requires disk.Get(from) != NoApp && disk.Get(to) == NoApp ==> Consistent(disk.Moved(from, to))
      requires from == Canonical || to == Canonical ==> !disk.loaded
      modifies this`fates, this`disk, this`process
      ensures Lives(step, 0)
      ensures Valid()
      ensures fates == old(fates) || fates == Rest(old(fates))
      ensures old(disk).Get(from) != NoApp && old(disk).Get(to) == NoApp ==> Consumed(step)
      ensures step.Done? ==> disk == old(disk).Moved(from, to)
      ensures disk == old(disk) || disk == old(disk).Moved(from, to)
      ensures step.Done? <==>
        Next(old(fates)).Go? && old(disk).Get(from) != NoApp && old(disk).Get(to) == NoApp
    {
      if disk.Get(from) == NoApp || disk.Get(to) != NoApp {
        return Failed;
      }
      step := Act(disk.Moved(from, to));
    }

    /** `V2Journal::record` seen from outside: the record is durable or it is not, and a failed
        append either leaves the journal as it was or poisons it. */
    method Record(next: State) returns (step: Step)
      requires process.alive
      requires IsUnproved(next) || proved == Some(disk)
      requires Valid()
      requires ValidTransition(memory, next) && healthy ==> Consistent(disk.(journal := next))
      modifies this
      ensures Lives(step, 0)
      ensures Valid()
      ensures step.Done? <==> old(healthy) && ValidTransition(old(memory), next) && Next(old(fates)).Go?
      ensures step.Done? ==>
        && disk == old(disk).(journal := next) && memory == next && healthy
        && records == old(records) + [next]
      ensures !step.Done? ==> memory == old(memory)
      // attempted, it is durable or not as its fate has it, and only a failure that could be taken
      // back leaves the journal usable
      ensures old(healthy) && ValidTransition(old(memory), next) ==>
        var fate := Next(old(fates));
        && step == Seen(fate)
        && disk == (if Records(fate) then old(disk).(journal := next) else old(disk))
        && records == (if Records(fate) then old(records) + [next] else old(records))
        && (healthy <==> fate.Go? || (fate.Err? && !fate.poisoned))
      ensures !(old(healthy) && ValidTransition(old(memory), next)) ==>
        step.Failed? && disk == old(disk) && records == old(records) && healthy == old(healthy)
      ensures fates ==
        if old(healthy) && ValidTransition(old(memory), next) then Rest(old(fates)) else old(fates)
      ensures !old(healthy) ==> step.Failed? && !healthy
      ensures old(fates) == [] ==> !step.Died?
      ensures proved == old(proved)
    {
      if !healthy || !ValidTransition(memory, next) {
        return Failed;
      }
      var fate := Fated();
      match fate {
        case Go =>
          disk, memory := disk.(journal := next), next;
          records := records + [next];
          return Done;
        case Err(landed, poisoned) =>
          if poisoned {
            healthy := false;
            if landed {
              disk := disk.(journal := next);
              records := records + [next];
            }
          }
          return Failed;
        case Die(landed) =>
          healthy := false;
          if landed {
            disk := disk.(journal := next);
            records := records + [next];
          }
          return Died;
      }
    }

    // ------------------------------------------------------------------ the update

    /** On the way forward the durable records are exactly the forward states up to the
        journal's, and the process is never ahead of the disk. */
    ghost predicate Forward()
      reads this
    {
      && Valid()
      && Rank(memory) <= Rank(disk.journal) <= Rank(Committed)
      && ForwardRecords(records, disk.journal)
      && (disk.pointer == Active <==> disk.pointer != Unpublished)
      && (disk.pointer == Unpublished ==> Rank(disk.journal) <= Rank(StopInitiated))
      && (disk.pointer == Active ==> Rank(memory) >= Rank(StopInitiated))
    }

    /** One record of the way forward. */
    method RecordForward(next: State) returns (step: Step)
      requires process.alive
      requires IsUnproved(next) || proved == Some(disk)
      requires Forward() && healthy && IsForward(memory, next) && JournalAgrees(disk.(journal := next))
      requires disk.pointer == Unpublished ==> Rank(next) <= Rank(StopInitiated)
      modifies this
      ensures Lives(step, 0)
      ensures Forward() && fates == Rest(old(fates)) && Consumed(step)
      ensures step.Done? <==> Next(old(fates)).Go?
      ensures step.Done? ==> disk == old(disk).(journal := next) && memory == next && healthy
      ensures !step.Done? ==> memory == old(memory)
      ensures disk == old(disk) || disk == old(disk).(journal := next)
      ensures old(Known()) && step.Done? ==> Known()
      ensures proved == old(proved)
    {
      assert FORWARD_RECORDS[Rank(memory)] == next && Rank(next) == Rank(memory) + 1;
      assert FORWARD_RECORDS[..Rank(next)] == FORWARD_RECORDS[..Rank(memory)] + [next];
      step := Record(next);
    }

    /** One record of the way forward, behind its proof. */
    method ProveAndRecord(next: State) returns (step: Step)
      requires process.alive
      requires Forward() && healthy && IsForward(memory, next) && JournalAgrees(disk.(journal := next))
      requires disk.pointer == Unpublished ==> Rank(next) <= Rank(StopInitiated)
      modifies this
      ensures Lives(step, 1)
      ensures Forward() && Consumed(step) && (step.Done? ==> Known())
      ensures step.Done? <==> Next(old(fates)).Go? && Next(Rest(old(fates))).Go?
      ensures step.Done? ==> fates == Rest(Rest(old(fates)))
      ensures step.Done? ==> disk == old(disk).(journal := next) && memory == next && healthy
      ensures disk == old(disk) || disk == old(disk).(journal := next)
    {
      hide SingleFault, ForwardRecords, JournalAgrees, Conserved;
      :- Checkpoint();
      step := RecordForward(next);
    }

    /** `prepare_v2_install_hold`: the copy is not atomic. */
    method PrepareInstallHold() returns (step: Step)
      requires process.alive
      requires Forward() && disk.journal == StopInitiated && disk.pointer == Active && !disk.holdRoot
      modifies this`fates, this`disk, this`process, this`proved
      ensures Lives(step, 1)
      ensures Forward() && disk.journal == StopInitiated && disk.pointer == Active
      ensures Consumed(step)
      ensures step.Done? ==> disk.hold == Replacement
      ensures disk.hold == TornCopy <==> At(old(fates), 0).Go? && Tears(At(old(fates), 1), At(old(fates), 2))
      ensures step.Done? ==> proved == Some(disk)
    {
      hide SingleFault, ForwardRecords;
      DropStep(fates, 0);
      DropStep(fates, 1);
      DropStep(fates, 2);
      NoHoldRoot(disk);
      :- Change(disk.(holdRoot := true));
      :- Change(disk.(hold := TornCopy));
      :- Change(disk.(hold := Replacement));
      :- Checkpoint();                                  // the copy, byte for byte
      return Done;
    }

    /** Up to the durable intent to stop the host. */
    method BuildReplacement() returns (step: Step)
      requires process.alive
      requires Forward() && disk == INITIAL && healthy
      modifies this
      ensures Lives(step, 3)
      ensures Forward()
      ensures Consumed(step)
      ensures step.Done? ==> healthy && memory == StopInitiated && disk == INITIAL.(journal := StopInitiated)
      ensures disk == INITIAL.(journal := disk.journal)
      ensures step.Done? <==> Calm(old(fates), 6)
      ensures step.Done? ==> fates == Drop(old(fates), 6)
      ensures step.Done? ==> Known()
    {
      hide SingleFault, ForwardRecords, Conserved, Drop, At, Rest, Next;
      DropStep(fates, 0);
      DropStep(fates, 1);
      DropStep(fates, 2);
      DropStep(fates, 3);
      DropStep(fates, 4);
      DropStep(fates, 5);
      :- ProveAndRecord(SourceExported);                // source export
      :- ProveAndRecord(BuildVerified);                 // build, staged app, reference
      :- ProveAndRecord(StopInitiated);                 // revalidation, reserve allocation
      return Done;
    }

    /** The pointer is published and the replacement copied next to the running app. */
    method StageReplacement() returns (step: Step)
      requires process.alive
      requires Known()
      requires Forward() && disk == INITIAL.(journal := StopInitiated) && memory == StopInitiated && healthy
      modifies this
      ensures Lives(step, 1)
      ensures Forward()
      ensures Consumed(step)
      ensures step.Done? ==> healthy && disk.journal == InstallHoldVerified && disk.loaded && disk.hold == Replacement
      ensures disk.hold == TornCopy <==>
        At(old(fates), 0).Go? && At(old(fates), 1).Go? && Tears(At(old(fates), 2), At(old(fates), 3))
      ensures step.Done? ==> Known()
    {
      hide SingleFault, ForwardRecords;
      DropStep(fates, 0);
      DropAt(fates, 1, 0);
      DropAt(fates, 1, 1);
      DropAt(fates, 1, 2);
      :- Act(disk.(pointer := Active));
      :- PrepareInstallHold();
      :- RecordForward(InstallHoldVerified);
      return Done;
    }

    /** The running host is stopped. */
    method StopCurrent() returns (step: Step)
      requires process.alive
      requires Forward() && healthy && disk.journal == InstallHoldVerified
      modifies this
      ensures Lives(step, 2)
      ensures Forward()
      ensures Consumed(step)
      ensures step.Done? ==> healthy && disk.journal == CurrentStopped && disk.canonical == Baseline
      ensures disk.hold != TornCopy
      ensures step.Done? ==> Known()
    {
      hide SingleFault, ForwardRecords;
      :- Checkpoint();                                  // pre-stop gate
      :- Act(disk.(loaded := false));                // bootout
      :- Checkpoint();                                  // service, locks and baseline proofs
      :- RecordForward(CurrentStopped);
      return Done;
    }

    /** The stopped app is set aside. */
    method HoldCurrent() returns (step: Step)
      requires process.alive
      requires Known()
      requires Forward() && healthy && disk.journal == CurrentStopped && disk.canonical == Baseline
      modifies this
      ensures Lives(step, 1)
      ensures Forward()
      ensures Consumed(step)
      ensures step.Done? ==> healthy && disk.journal == CurrentHeld && disk.canonical == NoApp
      ensures disk.hold != TornCopy
      ensures step.Done? ==> Known()
    {
      hide SingleFault, ForwardRecords;
      :- Move(Canonical, RollbackSlot);
      :- Checkpoint();
      :- RecordForward(CurrentHeld);
      return Done;
    }

    /** The replacement takes the canonical path. */
    method PublishReplacement() returns (step: Step)
      requires process.alive
      requires Known()
      requires Forward() && healthy && disk.journal == CurrentHeld && disk.canonical == NoApp
      modifies this
      ensures Lives(step, 2)
      ensures Forward()
      ensures Consumed(step)
      ensures step.Done? ==> healthy && disk.journal == NewPublished && !disk.loaded
      ensures disk.hold != TornCopy
      ensures step.Done? ==> Known()
    {
      hide SingleFault, ForwardRecords;
      :- Move(Hold, Canonical);
      :- Checkpoint();
      :- Act(disk.(holdRoot := false));
      :- Checkpoint();
      :- RecordForward(NewPublished);
      return Done;
    }

    /** The host comes back on the replacement. */
    method BootstrapReplacement() returns (step: Step)
      requires process.alive
      requires Forward() && healthy && disk.journal == NewPublished
      modifies this
      ensures Lives(step, 1)
      ensures Forward()
      ensures Consumed(step)
      ensures step.Done? ==> healthy && disk.journal == PersistentBootstrapped
      ensures disk.hold != TornCopy
    {
      PublishedHasNoHold(disk);
      hide SingleFault, ForwardRecords, Conserved;
      :- Checkpoint();
      LoadedKeepsSlots(disk, true);
      :- Act(disk.(loaded := true));                 // bootstrap
      :- RecordForward(PersistentBootstrapped);
      return Done;
    }

    /** The replacement is proved ready and the update commits. */
    method CommitReplacement() returns (step: Step)
      requires process.alive
      requires Forward() && healthy && disk.journal == PersistentBootstrapped
      modifies this
      ensures Lives(step, 2)
      ensures Forward()
      ensures Consumed(step)
      ensures step.Done? ==> disk.journal == Committed && memory == Committed && healthy
      ensures disk.hold != TornCopy
    {
      PublishedHasNoHold(disk);
      hide SingleFault, ForwardRecords, Conserved;
      :- ProveAndRecord(ReadyVerified);                 // launch generation, deployment proofs
      :- ProveAndRecord(Committed);                     // reserve release
      return Done;
    }

    /** `perform_paired_v2_update` */
    method PerformUpdate() returns (step: Step)
      requires process.alive
      requires Forward() && disk == INITIAL && healthy
      modifies this
      ensures Lives(step, 12)
      ensures Forward()
      ensures Consumed(step)
      ensures step.Done? ==> disk == UPDATED && memory == Committed && healthy
      ensures disk.hold == TornCopy <==> TearsCopy(old(fates))
    {
      hide SingleFault, ForwardRecords, Conserved, JournalAgrees;
      TearsAfterSix(fates);
      hide Drop, At, Tears, TearsCopy, Calm;
      :- BuildReplacement();
      :- StageReplacement();
      :- StopCurrent();
      :- HoldCurrent();
      :- PublishReplacement();
      :- BootstrapReplacement();
      :- CommitReplacement();
      BootstrappedRuns(disk);
      return Done;
    }

    // ---------------------------------------------------------------- the rollback

    /** Everything a rollback step keeps: the disk agrees with its journal, the place a
        complete rollback ends is the same, and the records written so far followed by those
        still to come are the same. */
    twostate predicate Steady()
      reads this
    {
      && Valid() && disk.pointer == Active
      && SameGoal(old(disk), disk)
      && records + RollbackRecords(disk) == old(records + RollbackRecords(disk))
      && (old(fates) == [] ==> fates == [])
    }

    /** One record of the way back. */
    method RecordBack(next: State) returns (step: Step)
      requires process.alive
      requires IsUnproved(next) || proved == Some(disk)
      requires Valid() && disk.pointer == Active && JournalAgrees(disk.(journal := next))
      requires healthy && ValidTransition(memory, next)
      requires IsNextBack(memory, NeedsArchive(disk), next)
      modifies this
      ensures Lives(step, 0)
      ensures Steady()
      ensures step.Done? <==> Next(old(fates)).Go?
      ensures step.Done? ==> disk == old(disk).(journal := next) && healthy
      ensures disk == old(disk) || disk == old(disk).(journal := next)
      ensures old(Known()) && step.Done? ==> Known()
      ensures proved == old(proved)
    {
      hide Remaining, Restored, Conserved, NeedsArchive, HasReplacement;
      JournalKeepsSlots(disk, next);
      NextBackIsFirst(memory, NeedsArchive(disk), next);
      ghost var after := Remaining(next, NeedsArchive(disk));
      assert records + ([next] + after) == (records + [next]) + after;
      step := Record(next);
    }

    /** The host is booted out or bootstrapped. */
    method SetLoaded(loaded: bool) returns (step: Step)
      requires process.alive
      requires Known()
      requires Valid() && disk.pointer == Active && AlreadyRollingBack(disk.journal)
      requires loaded ==> disk.canonical == Baseline && disk.journal != FailedNewArchived
      modifies this`fates, this`disk, this`process
      ensures Lives(step, 0)
      ensures Steady()
      ensures step.Done? <==> Next(old(fates)).Go?
      ensures step.Done? ==> disk == old(disk).(loaded := loaded)
      ensures disk == old(disk) || disk == old(disk).(loaded := loaded)
    {
      hide Remaining, Restored, Conserved, NeedsArchive, HasReplacement;
      LoadedKeepsSlots(disk, loaded);
      step := Act(disk.(loaded := loaded));
    }

    /** `archive_v2_install_hold_if_present`: a copy that was cut short does not verify. */
    method ArchiveInstallHold() returns (step: Step)
      requires process.alive
      requires Valid() && (disk.holdRoot ==> disk.journal == RollbackStarted)
      modifies this`fates, this`disk, this`process, this`proved
      ensures Lives(step, HoldProofs(old(disk)))
      ensures Valid() && disk.pointer == old(disk.pointer) && SameGoal(old(disk), disk)
      ensures disk.journal == old(disk.journal) && disk.loaded == old(disk.loaded)
      ensures disk.canonical == old(disk.canonical) && disk.rollback == old(disk.rollback)
      ensures disk.failed == old(disk.failed) && NeedsArchive(disk) == NeedsArchive(old(disk))
      ensures old(fates) == [] ==> fates == [] && !step.Died? && (step.Done? <==> old(disk).hold != TornCopy)
      ensures step.Done? ==> !disk.holdRoot
      ensures proved == old(proved) || (proved.Some? && proved.value.loaded == disk.loaded)
    {
      hide SingleFault, JournalAgrees, Conserved, Restored, HasReplacement, NeedsArchive;
      if !disk.holdRoot {
        NoHoldRoot(disk);
        return Done;
      }
      :- Checkpoint();
      if disk.hold != NoApp {
        if disk.hold == TornCopy {
          return Failed;
        }
        :- Checkpoint();
        HoldMayMove(disk);
        :- Move(Hold, UnusedHold);
        :- Checkpoint();
      }
      HoldRootMayGo(disk);
      :- Act(disk.(holdRoot := false));
      return Done;
    }

    /** The replacement leaves the canonical path, when it is there. */
    method ArchiveReplacement() returns (step: Step)
      requires process.alive
      requires Valid() && healthy && AlreadyRollingBack(disk.journal) && !disk.loaded && !disk.holdRoot
      requires disk.pointer == Active && disk.rollback == Baseline
      modifies this
      ensures Lives(step, if old(disk).canonical == NoApp then 1 else 3)
      ensures Steady()
      ensures old(fates) == [] ==> step.Done?
      ensures step.Done? ==>
        && healthy && disk.canonical == NoApp && !disk.loaded && !disk.holdRoot && disk.rollback == Baseline
        && (disk.journal == FailedNewArchived || (disk.journal == RollbackStarted && !NeedsArchive(disk)))
      ensures step.Done? ==> Known()
    {
      hide Remaining, SingleFault;
      :- Checkpoint();
      if disk.canonical != NoApp {
        if disk.canonical == Baseline || disk.failed != NoApp {
          return Failed;
        }
        :- Checkpoint();
        :- Move(Canonical, FailedNew);
        :- Checkpoint();
        if memory == RollbackStarted {
          :- RecordBack(FailedNewArchived);
        }
      } else if disk.failed != NoApp && memory == RollbackStarted {
        :- RecordBack(FailedNewArchived);
      }
      return Done;
    }

    /** The part of the rollback that puts the slots back. */
    method RestoreSlots() returns (step: Step)
      requires process.alive
      requires Valid() && healthy && AlreadyRollingBack(disk.journal) && !disk.loaded && !disk.holdRoot
      requires disk.pointer == Active
      modifies this
      ensures Lives(step, if old(disk).rollback == NoApp then 1 else 2)
      ensures Steady()
      ensures old(fates) == [] ==> step.Done?
      ensures step.Done? ==>
        && healthy && !disk.loaded && disk.canonical == Baseline
        && (disk.journal == CurrentRestored || disk.journal == CurrentBootstrapped)
      ensures step.Done? ==> Known()
    {
      hide Remaining, SingleFault;
      if disk.rollback != NoApp {
        :- ArchiveReplacement();
        ArchivedNeedsNoMore(true, false);
        :- Move(RollbackSlot, Canonical);
        :- Checkpoint();
      } else if disk.canonical != NoApp {
        :- Checkpoint();
      } else {
        return Failed;
      }
      if memory == RollbackStarted || memory == FailedNewArchived {
        :- RecordBack(CurrentRestored);
      }
      return Done;
    }

    /** A rollback that is not under way yet is announced first. */
    method AnnounceRollback() returns (step: Step)
      requires process.alive
      requires proved == Some(disk)
      requires Valid() && healthy && disk.pointer == Active && disk.journal != RolledBack
      requires Rank(disk.journal) >= Rank(StopInitiated)
      modifies this
      ensures Lives(step, 0)
      ensures Steady() && disk.journal != RolledBack
      ensures old(fates) == [] ==> step.Done?
      ensures step.Done? ==> healthy && AlreadyRollingBack(disk.journal)
    {
      hide Remaining, Restored, Conserved, NeedsArchive, HasReplacement;
      if AlreadyRollingBack(memory) {
        return Done;
      }
      step := RecordBack(RollbackStarted);
    }

    /** Up to the point where the slots may be touched. */
    method BeginRollback() returns (step: Step)
      requires process.alive
      requires proved == Some(disk)
      requires Valid() && healthy && disk.pointer == Active && disk.journal != RolledBack
      requires Rank(disk.journal) >= Rank(StopInitiated)
      modifies this
      ensures Lives(step, 2)
      ensures Steady()
      ensures old(fates) == [] ==> !step.Died? && (step.Done? <==> old(disk).hold != TornCopy)
      ensures step.Done? ==> healthy && AlreadyRollingBack(disk.journal) && !disk.loaded && !disk.holdRoot
      ensures disk.journal != RolledBack
      ensures old(fates) == [] ==> healthy && AlreadyRollingBack(disk.journal) && !disk.loaded
      ensures step.Done? ==> proved.Some? && !proved.value.loaded
    {
      hide Remaining, Restored, Conserved, NeedsArchive, HasReplacement;
      :- AnnounceRollback();
      :- Checkpoint();                                  // reserve release
      :- SetLoaded(false);                              // bootout
      :- Checkpoint();                                  // service and lock proofs
      :- ArchiveInstallHold();
      return Done;
    }

    /** The host comes back on the restored baseline. */
    method BootstrapBaseline() returns (step: Step)
      requires process.alive
      requires Valid() && healthy && disk.pointer == Active && disk.canonical == Baseline
      requires disk.journal == CurrentRestored || disk.journal == CurrentBootstrapped
      modifies this
      ensures Lives(step, 1)
      ensures Steady()
      ensures old(fates) == [] ==> step.Done?
      ensures step.Done? ==> healthy && disk.journal == CurrentBootstrapped && disk.loaded
    {
      hide Remaining, Restored, Conserved, NeedsArchive, HasReplacement, SingleFault;
      :- Checkpoint();
      :- SetLoaded(true);                               // bootstrap
      if memory == CurrentRestored {
        :- RecordBack(CurrentBootstrapped);
      }
      return Done;
    }

    /** The restored baseline is proved, and the rollback closed. */
    method FinishRollback() returns (step: Step)
      requires process.alive
      requires Valid() && healthy && disk.pointer == Active && disk.canonical == Baseline
      requires disk.journal == CurrentRestored || disk.journal == CurrentBootstrapped
      modifies this
      ensures Lives(step, 3)
      ensures Steady()
      ensures old(fates) == [] ==> step.Done?
      ensures step.Done? ==> disk.journal == RolledBack && disk.loaded
      ensures step.Done? ==> proved == Some(disk)
    {
      hide Remaining, Restored, Conserved, NeedsArchive, HasReplacement, SingleFault;
      :- BootstrapBaseline();
      :- Checkpoint();                                  // launch generation, deployment proofs
      :- RecordBack(RolledBack);
      :- Checkpoint();                                  // runtime proof
      return Done;
    }

    /** `rollback_to_current_baseline` */
    method RollbackToCurrentBaseline() returns (step: Step)
      requires process.alive
      requires Valid() && disk.pointer == Active && Rank(disk.journal) >= Rank(StopInitiated)
      modifies this
      ensures Lives(step, if old(memory) == RolledBack then 2 else 7)
      ensures Steady()
      ensures step.Done? ==> disk.journal == RolledBack && disk.(pointer := Retired) == Restored(old(disk))
      ensures old(fates) == [] && old(healthy) ==> !step.Died? && (step.Done? <==> old(disk).hold != TornCopy)
      ensures old(fates) == [] && step.Failed? && old(healthy) ==>
        healthy && AlreadyRollingBack(disk.journal) && !disk.loaded
      ensures !old(healthy) ==> step.Failed? && disk == old(disk) && !healthy && fates == old(fates)
    {
      hide Remaining, Restored, Conserved, NeedsArchive, HasReplacement, RollbackRecords;
      if !healthy {
        return Failed;
      }
      :- Checkpoint();                                  // pointer and pairing proofs
      if memory == RolledBack {
        RolledBackIsRestored(disk);
        :- Checkpoint();
        return Done;
      }
      :- BeginRollback();
      :- RestoreSlots();
      :- FinishRollback();
      RolledBackIsRestored(disk);
      return Done;
    }

    // ---------------------------------------------------------------- the commands

    method RetirePointer() returns (step: Step)
      requires process.alive
      requires Known()
      requires Valid() && disk.pointer == Active && disk.journal == RolledBack
      modifies this`fates, this`disk, this`process
      ensures Lives(step, 0)
      ensures Valid() && (disk == old(disk) || disk == old(disk).(pointer := Retired))
      ensures SameGoal(old(disk), disk)
      ensures step.Done? <==> Next(old(fates)).Go?
      ensures step.Done? ==> disk == old(disk).(pointer := Retired)
    {
      PointerKeepsSlots(disk, Retired);
      step := Act(disk.(pointer := Retired));
    }

    /** The result of a complete rollback is written and the pointer retired. */
    method Close() returns (step: Step)
      requires process.alive
      requires Valid() && disk.pointer == Active && disk.journal == RolledBack
      modifies this`fates, this`disk, this`process, this`proved
      ensures Lives(step, 1)
      ensures Valid() && (disk == old(disk) || disk == old(disk).(pointer := Retired))
      ensures SameGoal(old(disk), disk)
      ensures step.Done? <==> Next(old(fates)).Go? && Next(Rest(old(fates))).Go?
      ensures step.Done? ==> disk == old(disk).(pointer := Retired)
      ensures disk.pointer == Retired ==> process.proofs >= old(process).proofs + 1
    {
      hide Remaining, Restored, Conserved, NeedsArchive, HasReplacement;
      :- Checkpoint();                                  // result
      step := RetirePointer();
    }

    /** `execute_paired_v2_update`, its error handling included. */
    method Execute() returns (step: Step)
      requires process.alive
      requires Forward() && disk == INITIAL && healthy
      modifies this
      ensures Lives(step, 0)
      ensures Valid()
      // success means that the host runs the replacement
      ensures step.Done? ==> disk == UPDATED
      ensures disk.pointer != Active && disk.journal != RolledBack ==>
        && disk.canonical == Baseline && disk.loaded && !disk.holdRoot
        && Rank(disk.journal) <= Rank(StopInitiated)
      ensures disk.pointer == Active ==> Rank(disk.journal) >= Rank(StopInitiated)
      ensures old(fates) == [] ==> step.Done?
      // the install hold is left torn exactly when the copy was cut short
      ensures disk.hold == TornCopy <==> TearsCopy(old(fates))
      // a single error is rolled back on the spot
      ensures SingleFault(old(fates)) && step.Failed? && disk.pointer == Active ==> !healthy || disk.hold == TornCopy
    {
      hide Remaining, Restored, Conserved, NeedsArchive, HasReplacement, ForwardRecords, SingleFault;
      step := PerformUpdate();
      if !step.Failed? {
        return;
      }
      BootstrappedRuns(disk);
      if memory == Committed {
        return Done;
      }
      var pointerAbsentBeforeStop := memory == StopInitiated && disk.pointer == Unpublished;
      var crossedStop :=
        Rank(StopInitiated) <= Rank(memory) < Rank(Committed) && !pointerAbsentBeforeStop;
      if !crossedStop {
        var archived := ArchiveInstallHold();
        return if archived.Died? then Died else Failed;
      }
      step := RollBackFailedUpdate();
    }

    /** The failure record of a rollback; nothing hangs on its success. */
    method RecordFailure() returns (step: Step)
      requires process.alive
      requires Valid() && disk.pointer == Active && Rank(disk.journal) >= Rank(StopInitiated)
      modifies this
      ensures Lives(step, 0)
      ensures Valid() && disk == old(disk).(journal := disk.journal) && SameGoal(old(disk), disk)
      ensures disk.journal == old(disk).journal || disk.journal == CriticalFailure
      ensures !old(healthy) ==> step.Failed? && disk == old(disk) && !healthy
      ensures old(fates) == [] ==> !step.Died?
      ensures old(fates) == [] && old(healthy) && AlreadyRollingBack(old(disk).journal) ==>
        disk.journal == CriticalFailure
    {
      hide Remaining, Restored, Conserved, NeedsArchive, HasReplacement, ForwardRecords, SingleFault;
      JournalKeepsSlots(disk, CriticalFailure);
      step := Record(CriticalFailure);
    }

    /** What an update that crossed the stop does with its error. */
    method RollBackFailedUpdate() returns (step: Step)
      requires process.alive
      requires Valid() && disk.pointer == Active && Rank(disk.journal) >= Rank(StopInitiated)
      modifies this
      ensures Lives(step, 0)
      ensures Valid() && !step.Done? && SameGoal(old(disk), disk) && disk.pointer != Unpublished
      ensures Rank(disk.journal) >= Rank(StopInitiated)
      ensures disk.pointer != Active ==>
        disk.journal == RolledBack && process.proofs >= old(process).proofs + 4
      ensures old(fates) == [] ==> step.Failed? && (disk.pointer == Active ==> !healthy || disk.hold == TornCopy)
      // undisturbed, the baseline is back, or the failure is on record and the host stays down
      ensures old(fates) == [] && old(healthy) ==>
        if old(disk).hold == TornCopy then disk.journal == CriticalFailure && !disk.loaded
        else disk == Restored(old(disk))
    {
      hide Remaining, Restored, Conserved, NeedsArchive, HasReplacement, ForwardRecords, SingleFault;
      :- Checkpoint();                                  // pointer proof
      var rollback := RollbackToCurrentBaseline();
      match rollback {
        case Done =>
          :- Close();
          return Failed;
        case Failed =>
          step := RecordFailure();
          return if step.Died? then Died else Failed;
        case Died =>
          return Died;
      }
    }

    /** `rollback_existing_paired_v2_update` by a fresh process. */
    method RollbackExisting(fates: Fates) returns (step: Step)
      requires Valid() && (disk.pointer == Active ==> Rank(disk.journal) >= Rank(StopInitiated))
      modifies this
      ensures Valid() && SameGoal(old(disk), disk)
      ensures disk.pointer == Active ==> Rank(disk.journal) >= Rank(StopInitiated)
      ensures old(disk).pointer == Unpublished <==> disk.pointer == Unpublished
      ensures old(disk).pointer != Active ==> disk == old(disk)
      ensures step.Done? ==> disk == Restored(old(disk))
      ensures fates == [] && old(disk).pointer == Active ==> (step.Done? <==> old(disk).hold != TornCopy)
    {
      hide Remaining, Conserved, NeedsArchive, HasReplacement;
      Restart(fates);
      if disk.pointer != Active {
        return Failed;
      }
      if memory == RolledBack {
        TornIsNotRolledBack(disk);
        RestoredMeans(disk);
        :- Close();                                     // runtime proof, result
        return Done;
      }
      :- RollbackToCurrentBaseline();
      :- Close();
      return Done;
    }
  }

  /** A record that meets this fate is durable; an append that could be taken back is gone. */
  predicate Records(fate: Fate) {
    match fate
    case Go => true
    case Err(landed, poisoned) => landed && poisoned
    case Die(landed) => landed
  }

  /** The proofs that archiving the install hold takes. */
  function HoldProofs(d: Disk): nat {
    if !d.holdRoot then 0 else if d.hold == NoApp then 1 else 3
  }

  /** The records that are made without a proof in front of them: of a bootstrap that has just been
      ordered, and of a failure. */
  predicate IsUnproved(s: State) {
    s == PersistentBootstrapped || s == CurrentBootstrapped || s == CriticalFailure
  }

  /** The copy has begun, and the rest of it never came to be. */
  predicate Tears(begin: Fate, end: Fate) {
    Lands(begin) && !(begin.Go? && Lands(end))
  }

  /** A run of the update that is cut short inside its copy: eight points go through, and then
      the copy begins and is not finished. */
  predicate TearsCopy(fates: Fates) {
    Calm(fates, 8) && Tears(At(fates, 8), At(fates, 9))
  }

  lemma TearsAfterSix(fates: Fates)
    ensures TearsCopy(fates) <==>
            && Calm(fates, 6) && At(Drop(fates, 6), 0).Go? && At(Drop(fates, 6), 1).Go?
            && Tears(At(Drop(fates, 6), 2), At(Drop(fates, 6), 3))
  {
    DropAt(fates, 6, 0);
    DropAt(fates, 6, 1);
    DropAt(fates, 6, 2);
    DropAt(fates, 6, 3);
  }

  predicate SingleFault(fates: Fates) {
    |fates| <= 1 || (fates[0].Go? && SingleFault(fates[1..]))
  }

  predicate ForwardRecords(records: seq<State>, state: State) {
    Rank(state) <= |FORWARD_RECORDS| && records == FORWARD_RECORDS[..Rank(state)]
  }

  // ------------------------------------------------------------------ whole campaigns

  /** Crash convergence.  The update runs into `update`; then every element of `cuts` is one
      more rollback command run into its own fates; then one rollback command runs through.
      If the update got as far as publishing its pointer, the Mac ends with the baseline back in
      place, wherever the runs were cut, exactly when the copy into the install hold was not
      itself cut short. */
  method Campaign(update: Fates, cuts: seq<Fates>) returns (published: Disk, final: Disk)
    ensures Consistent(published) && Consistent(final)
    ensures published.hold == TornCopy <==> TearsCopy(update)
    ensures published.pointer == Unpublished ==>
      final == published && final.canonical == Baseline && final.loaded
    ensures published.pointer != Unpublished && published.hold != TornCopy ==>
      && final == Restored(published)
      && final.journal == RolledBack && final.canonical == Baseline && final.rollback == NoApp
      && final.hold == NoApp && final.loaded
      && (HasReplacement(published) <==> final.failed == Replacement || final.unused == Replacement)
      && !(final.failed == Replacement && final.unused == Replacement)
    ensures published.hold == TornCopy ==> final.hold == TornCopy && final.journal != RolledBack
  {
    hide Remaining, Conserved, NeedsArchive, HasReplacement;
    var machine := new Machine(update);
    var step := machine.Execute();
    published := machine.disk;
    for i := 0 to |cuts|
      invariant machine.Valid() && SameGoal(published, machine.disk)
      invariant machine.disk.pointer == Active ==> Rank(machine.disk.journal) >= Rank(StopInitiated)
      invariant published.pointer == Unpublished <==> machine.disk.pointer == Unpublished
      invariant published.pointer == Unpublished ==> machine.disk == published
    {
      step := machine.RollbackExisting(cuts[i]);
    }
    ghost var before := machine.disk;
    step := machine.RollbackExisting([]);
    final := machine.disk;
    if published.pointer != Unpublished && published.hold != TornCopy {
      RestoredMeans(published);
      RestoredMeans(before);
    }
    TornIsNotRolledBack(final);
  }

  lemma TornIsNotRolledBack(d: Disk)
    requires Consistent(d)
    ensures d.hold == TornCopy ==> d.journal != RolledBack && d.pointer == Active
  {
  }

  /** The exception is real: an update whose process dies inside the copy leaves an install hold
      that every later rollback refuses. */
  method DieInsideCopy(cuts: seq<Fates>) returns (published: Disk, final: Disk)
    ensures Consistent(published) && published.pointer == Active && published.hold == TornCopy
    ensures final.hold == TornCopy && final.journal != RolledBack
  {
    var update := seq(9, _ => Go) + [Die(false)];
    published, final := Campaign(update, cuts);
    TornIsNotRolledBack(published);
  }
}
