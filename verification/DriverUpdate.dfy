/** The diagnostic-driver transaction: the forward run, the rollback and recovery, as a machine
    whose every durable step may be the last one of the process. */
module DriverUpdate {
  import opened Text
  import Faults
  import opened DriverStates
  import opened DriverDisk

  type Step = Faults.Step

  /** What the world does at one point of a run.  A stop is a crash or an error; it comes before
      or after the point's effect is durable.  For a record, `left` is what a stop that came
      before publication leaves of the pending snapshot. */
  datatype Fate = Go | Stop(dies: bool, landed: bool, left: Pending)

  function Next(fates: seq<Fate>): Fate {
    if fates == [] then Go else fates[0]
  }

  function Rest<T>(s: seq<T>): seq<T> {
    if s == [] then [] else s[1..]
  }

  function NextDrift(drifts: seq<nat>): nat {
    if drifts == [] then 0 else drifts[0]
  }

  /** What is left after `n` points. */
  function Drop<T>(s: seq<T>, n: nat): seq<T> {
    if n < |s| then s[n..] else []
  }

  function Seen(fate: Fate): Step {
    match fate
    case Go => Faults.Done
    case Stop(dies, _, _) => if dies then Faults.Died else Faults.Failed
  }

  predicate Lands(fate: Fate) {
    fate.Go? || fate.landed
  }

  /** What the publication of a record leaves when it meets `fate`. */
  function AfterPublish(d: Disk, e: Entry, fate: Fate): Disk {
    if Lands(fate) then Appended(d, e)
    else if fate.left == Whole then Appended(d, e).(pending := Whole)
    else d.(pending := fate.left)
  }

  /** What a record must bring along so that the disk stays consistent. */
  predicate Fits(d: Disk, e: Entry)
    requires |d.entries| > 0
  {
    && SlotsAgree(e.state, d.slots, d.hostUp)
    && PairAgrees(Current(d), e.state, d.image, d.rollbacks, d.lagged)
    && RestartFits(d, e)
  }

  /** Nothing goes wrong behind the first thing that does. */
  predicate SingleFault(fates: seq<Fate>) {
    |fates| <= 1 || (fates[0].Go? && SingleFault(fates[1..]))
  }

  /** Two looks in a row go through, after at most `patience` that fail. */
  predicate SeenTwice(fates: seq<Fate>, patience: nat)
    decreases patience
  {
    if Next(fates).Go? then Next(Rest(fates)).Go?
    else !Next(fates).dies && patience > 0 && SeenTwice(Rest(fates), patience - 1)
  }

  /** The records that are only ever made of a world that has just been proved. */
  predicate IsProved(s: State) {
    || s == CoreAudioReloaded || s == DriverValidated || s == ReadyVerified || s == Committed
    || s == FailedDriverArchived || s == PriorDriverRestored || s == RolledBack
  }

  lemma DropOne<T>(s: seq<T>, n: nat)
    ensures Drop(s, 0) == s
    ensures Drop(s, n + 1) == Rest(Drop(s, n)) && Drop(s, n + 2) == Rest(Rest(Drop(s, n)))
  {
  }

  lemma FaultIsLast(fates: seq<Fate>)
    ensures SingleFault(fates) ==> if Next(fates).Go? then SingleFault(Rest(fates)) else Rest(fates) == []
  {
  }

  /** What the first look, and the second behind a first that goes through, come to. */
  lemma FirstLook(fates: seq<Fate>, patience: nat)
    ensures Next(fates).Go? ==> SeenTwice(fates, patience) == Next(Rest(fates)).Go?
    ensures !Next(fates).Go? && (Next(fates).dies || patience == 0) ==> !SeenTwice(fates, patience)
    ensures !Next(fates).Go? && !Next(fates).dies && patience > 0 ==>
              SeenTwice(fates, patience) == SeenTwice(Rest(fates), patience - 1)
    ensures SingleFault(fates) && !Next(fates).Go? ==> Rest(fates) == []
    ensures SingleFault(fates) ==> SingleFault(Rest(fates))
    ensures SingleFault(fates) && Next(fates).Go? && Next(Rest(fates)).Go? ==> SingleFault(Rest(Rest(fates)))
    ensures SingleFault(fates) && Next(fates).Go? && !Next(Rest(fates)).Go? ==> Rest(Rest(fates)) == []
  {
  }

  class Machine {
    const pids: nat -> nat      // the pid of each start of coreaudiod
    const base: nat             // its run count before the transaction
    const patience: nat         // how often a restarted coreaudiod is looked for again
    var disk: Disk
    var memory: State           // the journal state the process believes in
    var fates: seq<Fate>
    var drifts: seq<nat>        // outside restarts of coreaudiod before each observation
    ghost var process: Faults.Process   // nothing happens once it is dead
    ghost var proved: Option<Disk>      // the world as the process last proved it

    constructor (pids: nat -> nat, base: nat, patience: nat, fates: seq<Fate>, drifts: seq<nat>)
      ensures this.pids == pids && this.base == base && this.patience == patience
      ensures disk == Initial(base) && memory == Begun
      ensures this.fates == fates && this.drifts == drifts && process == Faults.BORN && Fresh()
    {
      this.pids, this.base, this.patience := pids, base, patience;
      disk := Initial(base);
      memory := Begun;
      this.fates := fates;
      this.drifts := drifts;
      process, proved := Faults.BORN, None;
      InitialIsConsistent(base);
      assert Intents([Plain(Begun)][..0]) == [];
      assert Intents([Plain(Begun)]) == [];
    }

    /** The memory is the journal's last state or, after a failed record, the one before. */
    ghost predicate Near()
      reads this
    {
      && |disk.entries| > 0
      && (|| memory == Current(disk)
          || (|disk.entries| >= 2 && memory == disk.entries[|disk.entries| - 2].state))
    }

    ghost predicate PidsRecorded()
      reads this
    {
      forall g :: g in Intents(disk.entries) ==> g.pid == pids(g.runs)
    }

    ghost predicate Valid()
      reads this
    {
      Consistent(disk) && disk.base == base && Near() && PidsRecorded()
    }

    /** The process has just reconciled or recorded. */
    ghost predicate Fresh()
      reads this
    {
      Valid() && memory == Current(disk) && disk.pending == NoPending
    }

    /** A new process opens the published journal. */
    method Open(fates: seq<Fate>, drifts: seq<nat>)
      requires Valid()
      modifies this
      ensures Valid() && disk == old(disk) && this.fates == fates && this.drifts == drifts && process == Faults.BORN
      ensures disk.pending != Whole ==> memory == Current(disk)
    {
      memory := if disk.pending == Whole then disk.entries[|disk.entries| - 2].state else Current(disk);
      this.fates, this.drifts, process := fates, drifts, Faults.BORN;
    }

    // ------------------------------------------------------------------ single steps

    /** The one fault of a run with a single fault is the last thing that happens to it: a section
        that fails has met it, and one that gets through may still have it ahead. */
    twostate predicate Consumed(step: Step)
      reads this
    {
      SingleFault(old(fates)) ==> if step.Done? then SingleFault(fates) else fates == []
    }

    /** The process goes on, having passed `n` proofs in a step that is done, or has died. */
    twostate predicate Lives(step: Step, n: nat)
      reads this`process
    {
      Faults.MovesOn(old(process), process, step, n)
    }

    method Fated() returns (fate: Fate)
      requires process.alive
      modifies this`fates, this`process
      ensures fate == Next(old(fates)) && fates == Rest(old(fates))
      ensures process == old(process).(alive := !Seen(fate).Died?)
    {
      fate := Next(fates);
      fates, process := Rest(fates), process.(alive := !Seen(fate).Died?);
    }

    ghost method Prove(step: Step)
      modifies this`process, this`proved
      ensures proved == if step.Done? then Some(disk) else old(proved)
      ensures process == if step.Done? then old(process).(proofs := old(process).proofs + 1) else old(process)
    {
      if step.Done? {
        process, proved := process.(proofs := process.proofs + 1), Some(disk);
      }
    }

    /** A proof step: it reads the world and changes nothing. */
    method Checkpoint() returns (step: Step)
      requires process.alive
      modifies this`fates, this`process, this`proved
      ensures Lives(step, 1)
      ensures proved == if step.Done? then Some(disk) else old(proved)
      ensures process == Faults.Process(!step.Died?, old(process).proofs + if step.Done? then 1 else 0)
      ensures old(fates) == [] ==> fates == [] && step.Done?
      ensures Consumed(step)
    {
      var fate := Fated();
      step := Seen(fate);
      Prove(step);
    }

    method WriteImage(state: State) returns (step: Step)
      requires process.alive
      requires Valid() && PairAgrees(Before(disk), Current(disk), Some(state), disk.rollbacks, disk.lagged)
      modifies this`fates, this`process, this`disk
      ensures Lives(step, 0)
      ensures Valid() && (old(Fresh()) ==> Fresh())
      ensures disk == if Lands(Next(old(fates))) then old(disk).(image := Some(state)) else old(disk)
      ensures step.Done? ==> disk == old(disk).(image := Some(state))
      ensures old(fates) == [] ==> fates == [] && step.Done?
      ensures Consumed(step)
    {
      hide Consistent, PairAgrees;
      ImageMayChange(disk, Some(state));
      var fate := Fated();
      if Lands(fate) {
        disk := disk.(image := Some(state));
      }
      return Seen(fate);
    }

    /** `rename_exclusive`.  Driver slots only ever change while the host is down. */
    method Move(from: Slot, to: Slot) returns (step: Step)
      requires process.alive
      requires Valid() && from != to && !disk.hostUp
      requires disk.slots.Get(from) != NoDriver && disk.slots.Get(to) == NoDriver ==>
                 SlotsAgree(Current(disk), disk.slots.Moved(from, to), false)
      modifies this`fates, this`process, this`disk
      ensures Lives(step, 0)
      ensures Valid() && (old(Fresh()) ==> Fresh())
      ensures disk ==
        if old(disk).slots.Get(from) != NoDriver && old(disk).slots.Get(to) == NoDriver && Lands(Next(old(fates)))
        then old(disk).(slots := old(disk).slots.Moved(from, to)) else old(disk)
      ensures step.Done? ==>
        && disk == old(disk).(slots := old(disk).slots.Moved(from, to))
        && old(disk).slots.Get(from) != NoDriver && old(disk).slots.Get(to) == NoDriver
      ensures old(fates) == [] ==> fates == []
      ensures old(fates) == [] && old(disk).slots.Get(from) != NoDriver && old(disk).slots.Get(to) == NoDriver ==>
        step.Done?
      ensures old(disk).slots.Get(from) != NoDriver && old(disk).slots.Get(to) == NoDriver ==> Consumed(step)
    {
      hide Consistent, SlotsAgree;
      if disk.slots.Get(from) == NoDriver || disk.slots.Get(to) != NoDriver {
        return Faults.Failed;
      }
      SlotsMayChange(disk, disk.slots.Moved(from, to), false);
      var fate := Fated();
      if Lands(fate) {
        disk := disk.(slots := disk.slots.Moved(from, to));
      }
      return Seen(fate);
    }

    method SetHost(up: bool) returns (step: Step)
      requires process.alive
      requires Valid() && SlotsAgree(Current(disk), disk.slots, up)
      modifies this`fates, this`process, this`disk
      ensures Lives(step, 0)
      ensures Valid() && (old(Fresh()) ==> Fresh())
      ensures disk == if Lands(Next(old(fates))) then old(disk).(hostUp := up) else old(disk)
      ensures step.Done? ==> disk == old(disk).(hostUp := up)
      ensures old(fates) == [] ==> fates == [] && step.Done?
      ensures Consumed(step)
    {
      hide Consistent, SlotsAgree;
      SlotsMayChange(disk, disk.slots, up);
      var fate := Fated();
      if Lands(fate) {
        disk := disk.(hostUp := up);
      }
      return Seen(fate);
    }

    /** `Journal::reconcile` */
    method Reconcile() returns (step: Step)
      requires process.alive
      requires Valid()
      modifies this`fates, this`process, this`disk, this`memory
      ensures Lives(step, 0)
      ensures Valid()
      ensures disk ==
        if old(disk).pending != Stuck && Lands(Next(old(fates))) then old(disk).(pending := NoPending) else old(disk)
      ensures step.Done? ==> Fresh()
      ensures !step.Done? ==> memory == old(memory)
      ensures old(disk).pending == Stuck ==> step.Failed? && disk == old(disk)
      ensures old(fates) == [] ==> fates == [] && (step.Done? <==> old(disk).pending != Stuck)
      ensures old(disk).pending != Stuck ==> Consumed(step)
    {
      hide Consistent;
      if disk.pending == Stuck {
        return Faults.Failed;
      }
      PendingMayChange(disk, NoPending);
      var fate := Fated();
      if Lands(fate) {
        disk := disk.(pending := NoPending);
      }
      if fate.Go? {
        memory := Current(disk);
      }
      return Seen(fate);
    }

    /** A proof, and the journal reconciled behind it. */
    method CatchUp() returns (step: Step)
      requires process.alive
      requires Valid()
      modifies this`fates, this`process, this`proved, this`disk, this`memory
      ensures Lives(step, 1)
      ensures Valid() && disk == old(disk).(pending := disk.pending)
      ensures step.Done? ==> Fresh()
      ensures old(disk).pending == Stuck ==> !step.Done? && disk == old(disk)
      ensures old(fates) == [] ==> fates == [] && !step.Died? && (step.Done? <==> old(disk).pending != Stuck)
    {
      hide Consistent;
      :- Checkpoint();
      step := Reconcile();
    }

    /** The publication of a record: write the pending snapshot, rename it. */
    method Publish(e: Entry) returns (step: Step)
      requires process.alive
      requires Fresh() && Consistent(Appended(disk, e))
      requires e.state == RollbackCoreAudioReloadInitiated ==> e.before.pid == pids(e.before.runs)
      modifies this`fates, this`process, this`disk, this`memory
      ensures Lives(step, 0)
      ensures Valid() && disk == AfterPublish(old(disk), e, Next(old(fates))) && step == Seen(Next(old(fates)))
      ensures step.Done? ==> disk == Appended(old(disk), e) && Fresh()
      ensures !step.Done? ==>
        && disk == old(disk).(entries := disk.entries, pending := disk.pending)
        && (disk.entries == old(disk).entries || disk.entries == old(disk).entries + [e])
      ensures old(fates) == [] ==> fates == [] && step.Done?
      ensures Consumed(step)
    {
      hide Consistent, Intents, ValidTransition, SingleFault;
      FaultIsLast(fates);
      IntentsAppend(disk.entries, e);
      assert |disk.entries| > 0;
      var fate := Fated();
      if Lands(fate) || fate.left == Whole {
        disk := Appended(disk, e);
        if fate.Go? {
          memory := e.state;
        } else if !fate.landed {
          WholeIsConsistent(disk);
          disk := disk.(pending := Whole);
        }
      } else {
        PendingMayChange(disk, fate.left);
        disk := disk.(pending := fate.left);
      }
      return Seen(fate);
    }

    /** `Journal::record` */
    method Record(e: Entry) returns (step: Step)
      requires process.alive
      requires Valid()
      requires disk.pending != Stuck && ValidTransition(Current(disk), e.state) ==> Fits(disk, e)
      requires e.state == RollbackCoreAudioReloadInitiated ==> e.before.pid == pids(e.before.runs)
      modifies this`fates, this`process, this`disk, this`memory
      ensures Lives(step, 0)
      ensures Valid()
      ensures step.Done? ==>
        disk == Appended(old(disk), e) && Fresh() && ValidTransition(Current(old(disk)), e.state)
      ensures !step.Done? ==>
        && disk == old(disk).(entries := disk.entries, pending := disk.pending)
        && (|| disk.entries == old(disk).entries
            || (disk.entries == old(disk).entries + [e] && ValidTransition(Current(old(disk)), e.state)))
      ensures old(fates) == [] ==> fates == []
      ensures old(fates) == [] && old(disk).pending != Stuck && ValidTransition(Current(old(disk)), e.state) ==>
        step.Done?
      ensures old(disk).pending == Stuck ==> step.Failed? && disk == old(disk)
      ensures old(disk).pending != Stuck && ValidTransition(Current(old(disk)), e.state) ==> Consumed(step)
    {
      hide Consistent, SingleFault, Fits, Intents, ValidTransition;
      :- Reconcile();
      if !ValidTransition(memory, e.state) {
        return Faults.Failed;
      }
      FitsReconciled(old(disk), disk, e);
      step := Publish(e);
    }

    /** `stable_coreaudio_generation`: something else may have restarted the daemon before. */
    method Observe() returns (step: Step, seen: Generation)
      requires process.alive
      requires Valid()
      modifies this`fates, this`process, this`proved, this`drifts, this`disk
      ensures Lives(step, 1)
      ensures Valid() && (old(Fresh()) ==> Fresh())
      ensures disk == old(disk).(starts := disk.starts, outside := disk.outside)
      ensures disk.starts == old(disk).starts + NextDrift(old(drifts)) && drifts == Rest(old(drifts))
      ensures old(drifts) == [] ==> drifts == [] && disk == old(disk)
      ensures step.Done? <==> Readable(pids, disk.starts) && Next(old(fates)).Go?
      ensures fates == if Readable(pids, disk.starts) then Rest(old(fates)) else old(fates)
      ensures step == if Readable(pids, disk.starts) then Seen(Next(old(fates))) else Faults.Failed
      ensures step.Done? ==> seen == Generation(pids(disk.starts), disk.starts) && Readable(pids, disk.starts)
      ensures old(fates) == [] ==> fates == [] && (step.Done? <==> Readable(pids, disk.starts))
      ensures Readable(pids, disk.starts) ==> Consumed(step)
    {
      hide Consistent;
      var n := NextDrift(drifts);
      MayDrift(disk, n);
      drifts := Rest(drifts);
      disk := disk.(starts := disk.starts + n, outside := disk.outside + n);
      seen := Generation(pids(disk.starts), disk.starts);
      if !ValidGeneration(seen) {
        return Faults.Failed, seen;
      }
      var fate := Fated();
      step := Seen(fate);
      Prove(step);
    }

    /** The state image of a record that has just been made. */
    method WriteImageOf(e: Entry, ghost before: Disk) returns (step: Step)
      requires process.alive
      requires Fresh() && |before.entries| > 0 && disk == Appended(before, e)
      requires Fits(before, e) && HasImage(e.state)
      modifies this`fates, this`process, this`disk
      ensures Lives(step, 0)
      ensures Fresh() && (disk == old(disk) || disk == old(disk).(image := Some(e.state)))
      ensures step.Done? ==> disk == old(disk).(image := Some(e.state))
      ensures old(fates) == [] ==> fates == [] && step.Done?
      ensures Consumed(step)
    {
      hide Consistent, SingleFault, PairAgrees, SlotsAgree, RestartFits, ValidTransition, Intents, Fits, HasImage;
      ImageFitsToo(before, e);
      step := WriteImage(e.state);
    }

    /** A record and, once it is durable, the state image that follows it. */
    method Log(e: Entry) returns (step: Step)
      requires process.alive
      requires IsProved(e.state) ==> proved == Some(disk)
      requires Fresh() && Fits(disk, e) && ValidTransition(Current(disk), e.state)
      requires HasImage(e.state)
      requires e.state == RollbackCoreAudioReloadInitiated ==> e.before.pid == pids(e.before.runs)
      modifies this`fates, this`process, this`disk, this`memory
      ensures Lives(step, 0)
      ensures Valid()
      ensures step.Done? ==> Fresh() && disk == Appended(old(disk), e).(image := Some(e.state))
      ensures !step.Done? ==>
        && disk == old(disk).(entries := disk.entries, pending := disk.pending, image := disk.image)
        && (disk.entries == old(disk).entries || disk.entries == old(disk).entries + [e])
        && (disk.image == old(disk).image || disk.image == Some(e.state))
      ensures old(fates) == [] ==> fates == [] && step.Done?
      ensures Consumed(step)
    {
      hide Consistent, SingleFault, PairAgrees, SlotsAgree, RestartFits, ValidTransition, Intents, Fits, HasImage,
        IsProved;
      ghost var before := disk;
      :- Record(e);
      step := WriteImageOf(e, before);
    }

    // --------------------------------------------------------------- the forward run

    /** The forward run has reached a state with all of it on disk. */
    ghost predicate At(state: State, image: Option<State>, slots: Slots, hostUp: bool)
      reads this
    {
      && Fresh() && disk.rollbacks == 0 && Current(disk) == state && disk.image == image
      && disk.slots == slots && disk.hostUp == hostUp
    }

    /** What a section of the forward run leaves when it does not get through. */
    ghost predicate Stopped()
      reads this
    {
      Valid() && disk.rollbacks == 0
    }

    /** The same once the stop intent is durable: the host may be down. */
    ghost predicate PastStop()
      reads this
    {
      && Stopped() && disk.image.Some? && IsForward(Current(disk))
      && Current(disk) != Begun && Current(disk) != Authenticated
    }

    twostate predicate SameRestarts()
      reads this
    {
      && disk.starts == old(disk).starts && disk.outside == old(disk).outside
      && disk.termed == old(disk).termed
    }

    /** One forward record. */
    method RecordForward(e: Entry, ghost from: State, ghost image: Option<State>, ghost slots: Slots,
                         ghost hostUp: bool)
      returns (step: Step)
      requires process.alive
      requires At(from, image, slots, hostUp) && ValidTransition(from, e.state)
      requires ForwardFits(from, image, slots, hostUp, disk.termed, e)
      modifies this`fates, this`process, this`disk, this`memory
      ensures Lives(step, 0)
      ensures Stopped() && SameRestarts()
      ensures step.Done? ==> At(e.state, image, slots, hostUp)
      ensures Current(disk) == from || Current(disk) == e.state
      ensures old(fates) == [] ==> fates == [] && step.Done?
      ensures Consumed(step)
      ensures disk.image == old(disk).image && disk.hostUp == old(disk).hostUp
    {
      hide Consistent, SingleFault, ValidTransition, Intents, Fits, ForwardFits;
      ForwardFit(disk, e);
      step := Record(e);
    }

    /** One forward record with its image. */
    method Advance(e: Entry, ghost from: State, ghost image: Option<State>, ghost slots: Slots, ghost hostUp: bool)
      returns (step: Step)
      requires process.alive
      requires IsProved(e.state) ==> proved == Some(disk)
      requires At(from, image, slots, hostUp) && ValidTransition(from, e.state) && HasImage(e.state)
      requires ForwardFits(from, image, slots, hostUp, disk.termed, e)
      modifies this`fates, this`process, this`disk, this`memory
      ensures Lives(step, 0)
      ensures Stopped() && SameRestarts()
      ensures step.Done? ==> At(e.state, Some(e.state), slots, hostUp)
      ensures Current(disk) == from || Current(disk) == e.state
      ensures old(fates) == [] ==> fates == [] && step.Done?
      ensures Consumed(step)
      ensures disk.hostUp == old(disk).hostUp && (disk.image == old(disk).image || disk.image == Some(e.state))
    {
      hide Consistent, SingleFault, ValidTransition, Intents, Fits, ForwardFits, HasImage, IsProved;
      ForwardFit(disk, e);
      step := Log(e);
    }

    method StageCandidate() returns (step: Step)
      requires process.alive
      requires At(Begun, None, UNSTAGED, true)
      modifies this`fates, this`process, this`disk
      ensures Lives(step, 0)
      ensures Stopped() && disk == if Lands(Next(old(fates))) then old(disk).(slots := ORIGINAL) else old(disk)
      ensures step.Done? ==> At(Begun, None, ORIGINAL, true)
      ensures old(fates) == [] ==> fates == [] && step.Done?
      ensures Consumed(step)
    {
      hide Consistent;
      SlotsMayChange(disk, ORIGINAL, true);
      var fate := Fated();
      if Lands(fate) {
        disk := disk.(slots := ORIGINAL);
      }
      return Seen(fate);
    }

    /** Checks that Core Audio still runs as it did at the start. */
    method Unchanged(baseline: Generation) returns (step: Step)
      requires process.alive
      requires Valid()
      modifies this`fates, this`process, this`proved, this`drifts, this`disk
      ensures Lives(step, 1)
      ensures Valid() && (old(Fresh()) ==> Fresh())
      ensures disk == old(disk).(starts := disk.starts, outside := disk.outside)
      ensures disk.starts == old(disk).starts + NextDrift(old(drifts)) && drifts == Rest(old(drifts))
      ensures old(drifts) == [] ==> drifts == [] && disk == old(disk)
      ensures step.Done? <==>
        && Next(old(fates)).Go? && Readable(pids, disk.starts) && baseline == Generation(pids(disk.starts), disk.starts)
      ensures Readable(pids, disk.starts) ==> fates == Rest(old(fates))
      ensures step.Died? <==> Readable(pids, disk.starts) && Seen(Next(old(fates))).Died?
      ensures step.Done? ==> baseline == Generation(pids(disk.starts), disk.starts) && ValidGeneration(baseline)
      ensures old(fates) == [] ==> fates == []
      ensures (old(fates) == [] && old(drifts) == [] && baseline == Generation(pids(disk.starts), disk.starts)
               && Readable(pids, disk.starts)) ==> step.Done?
      ensures (old(drifts) == [] && Readable(pids, old(disk).starts)
               && baseline == Generation(pids(old(disk).starts), old(disk).starts)) ==> Consumed(step)
    {
      hide Consistent, SingleFault, Intents;
      var seen;
      step, seen := Observe();
      if step.Done? && seen != baseline {
        return Faults.Failed;
      }
    }

    /** From the new journal to the authenticated record. */
    method Authenticate() returns (step: Step, baseline: Generation)
      requires process.alive
      requires At(Begun, None, UNSTAGED, true)
      modifies this`fates, this`process, this`proved, this`drifts, this`disk, this`memory
      ensures Lives(step, 1)
      ensures Stopped()
      ensures step.Done? ==>
        && At(Authenticated, Some(Authenticated), ORIGINAL, true)
        && baseline == Generation(pids(disk.starts), disk.starts)
      ensures Current(disk) == Begun || Current(disk) == Authenticated
      ensures old(drifts) == [] ==> drifts == [] && SameRestarts()
      ensures old(fates) == [] ==> fates == []
      ensures old(fates) == [] && old(drifts) == [] && Readable(pids, old(disk).starts) ==> step.Done?
      ensures old(drifts) == [] && Readable(pids, old(disk).starts) ==> Consumed(step)
      ensures disk.hostUp
    {
      hide Consistent, SingleFault, Intents, ValidTransition, ForwardFits;
      step, baseline := Observe();
      if !step.Done? {
        return;
      }
      step := StageCandidate();
      if !step.Done? {
        return;
      }
      AuthenticatedFits(Entry(Authenticated, baseline, NONE), disk.termed);
      step := Advance(Entry(Authenticated, baseline, NONE), Begun, None, ORIGINAL, true);
    }

    /** The live generation is checked again, before and after the reserve is allocated. */
    method Recheck(baseline: Generation) returns (step: Step)
      requires process.alive
      requires At(Authenticated, Some(Authenticated), ORIGINAL, true)
      modifies this`fates, this`process, this`proved, this`drifts, this`disk
      ensures Lives(step, 3)
      ensures Stopped() && disk == old(disk).(starts := disk.starts, outside := disk.outside)
      ensures step.Done? ==>
        At(Authenticated, Some(Authenticated), ORIGINAL, true) && baseline == Generation(pids(disk.starts), disk.starts)
      ensures old(drifts) == [] ==> drifts == [] && disk == old(disk)
      ensures old(fates) == [] ==> fates == []
      ensures (old(fates) == [] && old(drifts) == [] && Readable(pids, old(disk).starts)
               && baseline == Generation(pids(old(disk).starts), old(disk).starts)) ==> step.Done?
      ensures (old(drifts) == [] && Readable(pids, old(disk).starts)
               && baseline == Generation(pids(old(disk).starts), old(disk).starts)) ==> Consumed(step)
    {
      hide Consistent, SingleFault, Intents;
      :- Unchanged(baseline);
      :- Checkpoint();     // the rollback reserve and its headroom
      step := Unchanged(baseline);
    }

    /** Up to the durable intent to stop the host: the state image goes ahead of the journal. */
    method IntendStop(baseline: Generation) returns (step: Step)
      requires process.alive
      requires At(Authenticated, Some(Authenticated), ORIGINAL, true)
      modifies this`fates, this`process, this`proved, this`drifts, this`disk, this`memory
      ensures Lives(step, 3)
      ensures Stopped()
      ensures step.Done? ==> At(HostStopInitiated, Some(HostStopInitiated), ORIGINAL, true)
      ensures step.Done? ==> baseline == Generation(pids(disk.starts), disk.starts)
      ensures Current(disk) == Authenticated || Current(disk) == HostStopInitiated
      ensures old(drifts) == [] ==> drifts == [] && SameRestarts()
      ensures old(fates) == [] ==> fates == []
      ensures (old(fates) == [] && old(drifts) == [] && Readable(pids, old(disk).starts)
               && baseline == Generation(pids(old(disk).starts), old(disk).starts)) ==> step.Done?
      ensures (old(drifts) == [] && Readable(pids, old(disk).starts)
               && baseline == Generation(pids(old(disk).starts), old(disk).starts)) ==> Consumed(step)
      ensures disk.hostUp
    {
      hide Consistent, SingleFault, Intents, PairAgrees, SlotsAgree, ForwardFits, ValidTransition, Readable;
      StopIntentFits(disk.termed);
      :- Recheck(baseline);
      StopIntentAgrees(disk);
      :- WriteImage(HostStopInitiated);
      step := RecordForward(Plain(HostStopInitiated), Authenticated, Some(HostStopInitiated), ORIGINAL, true);
    }

    method StopHost() returns (step: Step)
      requires process.alive
      requires At(HostStopInitiated, Some(HostStopInitiated), ORIGINAL, true)
      modifies this`fates, this`process, this`disk, this`memory
      ensures Lives(step, 0)
      ensures PastStop() && SameRestarts()
      ensures step.Done? ==> At(HostStopped, Some(HostStopped), ORIGINAL, false)
      ensures old(fates) == [] ==> fates == [] && step.Done?
      ensures Consumed(step)
    {
      hide Consistent, SingleFault, Intents;
      :- SetHost(false);
      step := Advance(Plain(HostStopped), HostStopInitiated, Some(HostStopInitiated), ORIGINAL, false);
    }

    /** `publish_candidate_driver`, first half: the old driver is set aside. */
    method RetainPrior() returns (step: Step)
      requires process.alive
      requires At(HostStopped, Some(HostStopped), ORIGINAL, false)
      modifies this`fates, this`process, this`disk, this`memory
      ensures Lives(step, 0)
      ensures PastStop() && SameRestarts()
      ensures step.Done? ==> At(PriorDriverRetained, Some(HostStopped), RETAINED, false)
      ensures old(fates) == [] ==> fates == [] && step.Done?
      ensures Consumed(step)
    {
      hide Consistent, SingleFault, Intents;
      :- Move(Canonical, Prior);
      step := RecordForward(Plain(PriorDriverRetained), HostStopped, Some(HostStopped), RETAINED, false);
    }

    /** `publish_candidate_driver`, second half, and the image after it. */
    method PublishCandidate() returns (step: Step)
      requires process.alive
      requires At(PriorDriverRetained, Some(HostStopped), RETAINED, false)
      modifies this`fates, this`process, this`disk, this`memory
      ensures Lives(step, 0)
      ensures PastStop() && SameRestarts()
      ensures step.Done? ==> At(CandidatePublished, Some(CandidatePublished), SWAPPED, false) && !disk.termed
      ensures old(fates) == [] ==> fates == [] && step.Done?
      ensures Consumed(step)
    {
      hide Consistent, SingleFault, Intents;
      NotTermedYet(disk);
      :- Move(Stage, Canonical);
      step := Advance(Plain(CandidatePublished), PriorDriverRetained, Some(HostStopped), SWAPPED, false);
    }

    /** What a TERM of coreaudiod may touch. */
    twostate predicate OnlyRestarts()
      reads this
    {
      disk == old(disk).(starts := disk.starts, outside := disk.outside,
                         termed := disk.termed, retermed := disk.retermed)
    }

    /** Sends the one TERM that this part of the transaction is allowed. */
    method Terminate(back: bool) returns (step: Step)
      requires process.alive
      requires Valid()
      requires if back
               then Current(disk) == RollbackCoreAudioReloadInitiated
                    && ExactIntent(disk.entries).Some? && ExactIntent(disk.entries).value.runs == disk.starts
               else Current(disk) == CandidatePublished && !disk.termed
      modifies this`fates, this`process, this`disk
      ensures Lives(step, 0)
      ensures Valid() && OnlyRestarts() && (old(Fresh()) ==> Fresh()) && disk.outside == old(disk).outside
      ensures disk ==
        if !Lands(Next(old(fates))) then old(disk)
        else if back then old(disk).(starts := old(disk).starts + 1, retermed := true)
        else old(disk).(starts := old(disk).starts + 1, termed := true)
      ensures back ==> disk.termed == old(disk).termed && !old(disk).retermed
      ensures !back ==> disk.retermed == old(disk).retermed
      ensures (step.Done? <==> Next(old(fates)).Go?) && fates == Rest(old(fates))
      ensures step.Done? ==>
        disk.starts == old(disk).starts + 1 && (if back then disk.retermed else disk.termed)
      ensures old(fates) == [] ==> fates == [] && step.Done?
      ensures Consumed(step)
    {
      hide Consistent, Intents, ExactIntent;
      if back {
        MayReterm(disk);
      } else {
        MayTerm(disk);
      }
      var fate := Fated();
      if Lands(fate) {
        if back {
          disk := disk.(starts := disk.starts + 1, retermed := true);
        } else {
          disk := disk.(starts := disk.starts + 1, termed := true);
        }
      }
      return Seen(fate);
    }

    /** coreaudiod, as it is now, can be read and is the exact successor of `expected`. */
    ghost predicate IsThere(expected: Generation)
      reads this
    {
      Readable(pids, disk.starts) && ExactSuccessor(expected, Generation(pids(disk.starts), disk.starts))
    }

    /** One turn of the loop behind the TERM: a look and, when it finds the successor, one more
        that must find the same.  It has decided unless nothing was found that rules a success out. */
    method Look(expected: Generation) returns (step: Step, after: Generation, decided: bool, ghost looks: nat)
      requires process.alive
      requires Valid()
      modifies this`fates, this`process, this`proved, this`drifts, this`disk
      ensures Lives(step, if decided then 2 else 0)
      ensures Valid() && (old(Fresh()) ==> Fresh())
      ensures disk == old(disk).(starts := disk.starts, outside := disk.outside)
      ensures disk.starts >= old(disk).starts && (old(drifts) == [] ==> drifts == [] && disk == old(disk))
      ensures looks == 1 || (decided && looks == 2)
      ensures drifts == if looks == 1 then Rest(old(drifts)) else Rest(Rest(old(drifts)))
      ensures step.Died? ==> decided
      ensures decided && step.Done? ==>
        && ExactSuccessor(expected, after) && ValidGeneration(after)
        && after == Generation(pids(disk.starts), disk.starts)
        && looks == 2 && NextDrift(Rest(old(drifts))) == 0
      ensures old(fates) == [] ==> fates == []
      // a daemon that was restarted more than once is not waited for any longer
      ensures (old(drifts) == [] && Readable(pids, disk.starts) && Next(old(fates)).Go?
               && disk.starts > SaturatingSucc(expected.runs)) ==> decided && looks == 1
      ensures old(drifts) == [] && !IsThere(expected) ==> !(decided && step.Done?)
      ensures old(drifts) == [] && IsThere(expected) ==>
        if Next(old(fates)).Go?
        then decided && fates == Rest(Rest(old(fates))) && (step.Done? <==> Next(Rest(old(fates))).Go?)
        else fates == Rest(old(fates)) && !step.Done? && (decided <==> Next(old(fates)).dies)
    {
      hide Consistent, Intents, Readable, ValidGeneration;
      step, after := Observe();
      looks := 1;
      decided := step.Died?;
      if step.Done? && ExactSuccessor(expected, after) {
        step := Unchanged(after);
        looks, decided := 2, true;
      } else if step.Done? && after.runs > SaturatingSucc(expected.runs) {
        step, decided := Faults.Failed, true;
      }
    }

    /** The loop of `reload_coreaudio_exact` behind the TERM: coreaudiod is looked for until it
        is there as the exact successor, and stays so, or has been restarted more than once, or
        the deadline has passed. */
    method AwaitSuccessor(expected: Generation) returns (step: Step, after: Generation, ghost looks: nat)
      requires process.alive
      requires Valid()
      modifies this`fates, this`process, this`proved, this`drifts, this`disk
      ensures Lives(step, 2)
      ensures Valid() && (old(Fresh()) ==> Fresh())
      ensures disk == old(disk).(starts := disk.starts, outside := disk.outside)
      ensures disk.starts >= old(disk).starts && (old(drifts) == [] ==> drifts == [] && disk == old(disk))
      ensures step.Done? ==>
        && ExactSuccessor(expected, after) && ValidGeneration(after)
        && after == Generation(pids(disk.starts), disk.starts)
      // one look after the other, and nothing restarted the daemon between the last two
      ensures drifts == Drop(old(drifts), looks)
      ensures step.Done? ==> looks >= 2 && NextDrift(Drop(old(drifts), looks - 1)) == 0
      // undisturbed, it takes the successor to be there, and two looks that go through before
      // patience ends
      ensures old(drifts) == [] ==> (step.Done? <==> old(IsThere(expected)) && SeenTwice(old(fates), patience))
      ensures old(fates) == [] ==> fates == []
      ensures old(drifts) == [] && old(IsThere(expected)) ==> Consumed(step)
    {
      hide Consistent, Intents, ExactSuccessor, Readable, ValidGeneration, SeenTwice, SingleFault, Drop, Rest;
      DropOne(drifts, 0);
      var left := patience;
      looks := 0;
      while true
        invariant Valid() && (old(Fresh()) ==> Fresh())
        invariant disk == old(disk).(starts := disk.starts, outside := disk.outside)
        invariant disk.starts >= old(disk).starts && (old(drifts) == [] ==> drifts == [] && disk == old(disk))
        invariant drifts == Drop(old(drifts), looks)
        invariant process.alive && process.proofs >= old(process.proofs)
        invariant old(fates) == [] ==> fates == []
        invariant old(drifts) == [] && old(IsThere(expected)) ==>
          && SeenTwice(fates, left) == SeenTwice(old(fates), patience)
          && (SingleFault(old(fates)) ==> SingleFault(fates))
        decreases left
      {
        FirstLook(fates, left);
        DropOne(old(drifts), looks);
        var decided;
        ghost var more;
        step, after, decided, more := Look(expected);
        looks := looks + more;
        if decided {
          return;
        }
        if left == 0 {
          return Faults.Failed, after, looks;
        }
        left := left - 1;
      }
    }

    /** `reload_coreaudio_exact` */
    method ReloadCoreAudio(expected: Generation, back: bool) returns (step: Step, after: Generation)
      requires process.alive
      requires Valid()
      requires if back
               then Current(disk) == RollbackCoreAudioReloadInitiated && ExactIntent(disk.entries) == Some(expected)
               else Current(disk) == CandidatePublished && !disk.termed
      modifies this`fates, this`process, this`proved, this`drifts, this`disk
      ensures Lives(step, 3)
      ensures Valid() && OnlyRestarts() && (old(Fresh()) ==> Fresh())
      ensures disk.starts >= old(disk).starts
      ensures back ==> disk.termed == old(disk).termed
      ensures !back ==> disk.retermed == old(disk).retermed
      ensures step.Done? ==>
        && ExactSuccessor(expected, after) && expected.runs < disk.starts
        && ValidGeneration(expected) && ValidGeneration(after)
        && (if back then disk.retermed && !old(disk).retermed else disk.termed)
        && after == Generation(pids(disk.starts), disk.starts)
      ensures step.Done? && old(drifts) == [] ==> disk.starts == old(disk).starts + 1
      ensures disk.hostUp ==> !step.Done? && disk == old(disk)
      ensures old(drifts) == [] ==> drifts == [] && disk.outside == old(disk).outside
      ensures old(fates) == [] ==> fates == []
      ensures (old(drifts) == [] && !disk.hostUp
               && expected == Generation(pids(old(disk).starts), old(disk).starts)) ==>
                (step.Done? <==>
                   && CanRestart(pids, old(disk).starts)
                   && Next(old(fates)).Go? && Next(Rest(old(fates))).Go?
                   && SeenTwice(Rest(Rest(old(fates))), patience))
      ensures (old(drifts) == [] && !disk.hostUp && CanRestart(pids, old(disk).starts)
               && expected == Generation(pids(old(disk).starts), old(disk).starts)) ==> Consumed(step)
    {
      hide Consistent, SingleFault, Intents, ExactIntent;
      after := NONE;
      if disk.hostUp {
        return Faults.Failed, NONE;
      }
      step := Unchanged(expected);
      if !step.Done? {
        return;
      }
      step := Terminate(back);
      if !step.Done? {
        return;
      }
      ghost var looks;
      step, after, looks := AwaitSuccessor(expected);
    }

    method ReloadForward(baseline: Generation) returns (step: Step)
      requires process.alive
      requires At(CandidatePublished, Some(CandidatePublished), SWAPPED, false) && !disk.termed
      modifies this`fates, this`process, this`proved, this`drifts, this`disk, this`memory
      ensures Lives(step, 4)
      ensures PastStop()
      ensures step.Done? ==> At(CoreAudioReloaded, Some(CoreAudioReloaded), SWAPPED, false) && disk.termed
      ensures old(drifts) == [] ==> drifts == [] && disk.outside == old(disk).outside
      ensures old(fates) == [] ==> fates == []
      ensures (old(fates) == [] && old(drifts) == [] && CanRestart(pids, old(disk).starts)
               && baseline == Generation(pids(old(disk).starts), old(disk).starts)) ==> step.Done?
      ensures (old(drifts) == [] && CanRestart(pids, old(disk).starts)
               && baseline == Generation(pids(old(disk).starts), old(disk).starts)) ==> Consumed(step)
    {
      hide Consistent, SingleFault, Intents, ExactSuccessor;
      var after;
      step, after := ReloadCoreAudio(baseline, false);
      if !step.Done? {
        return;
      }
      :- Checkpoint();   // the routes have not moved
      var e := Entry(CoreAudioReloaded, baseline, after);
      step := Advance(e, CandidatePublished, Some(CandidatePublished), SWAPPED, false);
    }

    method ValidateDriver() returns (step: Step)
      requires process.alive
      requires At(CoreAudioReloaded, Some(CoreAudioReloaded), SWAPPED, false) && disk.termed
      modifies this`fates, this`process, this`proved, this`disk, this`memory
      ensures Lives(step, 1)
      ensures PastStop() && SameRestarts()
      ensures step.Done? ==> At(DriverValidated, Some(DriverValidated), SWAPPED, false)
      ensures old(fates) == [] ==> fates == [] && step.Done?
      ensures Consumed(step)
    {
      hide Consistent, SingleFault, Intents;
      :- Checkpoint();
      step := Advance(Plain(DriverValidated), CoreAudioReloaded, Some(CoreAudioReloaded), SWAPPED, false);
    }

    method RestartHost() returns (step: Step)
      requires process.alive
      requires At(DriverValidated, Some(DriverValidated), SWAPPED, false) && disk.termed
      modifies this`fates, this`process, this`disk, this`memory
      ensures Lives(step, 0)
      ensures PastStop() && SameRestarts()
      ensures step.Done? ==> At(HostBootstrapped, Some(HostBootstrapped), SWAPPED, true)
      ensures old(fates) == [] ==> fates == [] && step.Done?
      ensures Consumed(step)
    {
      hide Consistent, SingleFault, Intents;
      :- SetHost(true);
      step := Advance(Plain(HostBootstrapped), DriverValidated, Some(DriverValidated), SWAPPED, true);
    }

    method VerifyReady() returns (step: Step)
      requires process.alive
      requires At(HostBootstrapped, Some(HostBootstrapped), SWAPPED, true) && disk.termed
      modifies this`fates, this`process, this`proved, this`disk, this`memory
      ensures Lives(step, 1)
      ensures PastStop() && SameRestarts()
      ensures step.Done? ==> At(ReadyVerified, Some(ReadyVerified), SWAPPED, true)
      ensures old(fates) == [] ==> fates == [] && step.Done?
      ensures Consumed(step)
    {
      hide Consistent, SingleFault, Intents;
      :- Checkpoint();
      step := Advance(Plain(ReadyVerified), HostBootstrapped, Some(HostBootstrapped), SWAPPED, true);
    }

    method Commit() returns (step: Step)
      requires process.alive
      requires At(ReadyVerified, Some(ReadyVerified), SWAPPED, true) && disk.termed
      modifies this`fates, this`process, this`proved, this`disk, this`memory
      ensures Lives(step, 1)
      ensures PastStop() && SameRestarts()
      ensures step.Done? ==> At(Committed, Some(Committed), SWAPPED, true)
      ensures old(fates) == [] ==> fates == [] && step.Done?
      ensures Consumed(step)
    {
      hide Consistent, SingleFault, Intents;
      :- Checkpoint();
      step := Advance(Plain(Committed), ReadyVerified, Some(ReadyVerified), SWAPPED, true);
    }

    // ------------------------------------------------------------------ the rollback

    /** Recovery has a plan for the pair and, unless the rollback was entered with an image that
        lagged, the image does not lag. */
    ghost predicate Synced()
      reads this
    {
      && |disk.entries| > 0 && !Plans(disk, Reject)
      && (IsBack(Current(disk)) ==> Plans(disk, ResumeRollback))
      && (!disk.lagged ==> !Lags(Current(disk), disk.image))
    }

    ghost predicate Back()
      reads this
    {
      Fresh() && Synced() && disk.rollbacks >= 1
    }

    /** What a rollback that does not get through leaves for its failure record. */
    ghost predicate Interrupted()
      reads this
    {
      Valid() && disk.rollbacks >= 1 && Current(disk) != Authenticated
    }

    /** A rollback has failed, and both durable images say so. */
    ghost predicate Failure()
      reads this
    {
      Fresh() && Current(disk) == CriticalFailure && disk.image == Some(CriticalFailure)
    }

    /** The rollback was not entered again. */
    twostate predicate SameEntry()
      reads this
    {
      disk.rollbacks == old(disk).rollbacks && disk.lagged == old(disk).lagged
    }

    /** Nothing but the journal, the image and the slots has changed. */
    twostate predicate SameWorld()
      reads this
    {
      && disk.hostUp == old(disk).hostUp && SameEntry() && SameRestarts()
      && disk.retermed == old(disk).retermed
    }

    /** One record of the way back, with its image. */
    method LogBack(e: Entry) returns (step: Step)
      requires process.alive
      requires IsProved(e.state) ==> proved == Some(disk)
      requires Back() && FitsBack(pids, disk, e)
      modifies this`fates, this`process, this`disk, this`memory
      ensures Lives(step, 0)
      ensures Interrupted() && SameWorld() && disk.slots == old(disk).slots
      ensures step.Done? ==>
        && Back() && Current(disk) == e.state && disk.image == Some(e.state)
        && disk.entries == old(disk).entries + [e]
      ensures old(fates) == [] ==> fates == [] && step.Done?
    {
      hide Consistent, SingleFault, Intents, IsBack, Fits, FitsBack, Lags, Plans, HasImage, RecoveryPlan,
        ValidTransition, IsProved;
      FitsOnTheWayBack(pids, disk, e);
      BackFits(pids, disk, e);
      LoggedIsSynced(disk, e);
      step := Log(e);
    }

    /** Opens the rollback, unless the journal says that it is already under way. */
    method BeginRollback() returns (step: Step)
      requires process.alive
      requires Back() && RollbackResumeAction(memory) == ContinueRecovery
      modifies this`fates, this`process, this`disk, this`memory
      ensures Lives(step, 0)
      ensures Interrupted() && SameWorld() && disk.slots == old(disk).slots
      ensures step.Done? ==>
        && Back() && Intents(disk.entries) == Intents(old(disk).entries)
        && Current(disk) == if IsBack(old(Current(disk))) then old(Current(disk)) else RollbackStarted
      ensures old(fates) == [] ==> fates == [] && step.Done?
    {
      hide Consistent, SingleFault, Intents, SlotsAgree, PairAgrees, RestartFits, RecoveryPlan, ValidTransition,
        IsForward;
      StartFits(disk);
      SyncedPair(RollbackStarted);
      hide RollbackResumeAction, Fits, Lags;
      if !IsBack(memory) {
        IntentsAppend(disk.entries, Plain(RollbackStarted));
        hide IsBack;
        step := Log(Plain(RollbackStarted));
      } else {
        step := Faults.Done;
      }
    }

    /** One slot move of the restore. */
    method MoveBack(from: Slot, to: Slot) returns (step: Step)
      requires process.alive
      requires Back() && !disk.hostUp && InRestore(Current(disk)) && from != to
      requires disk.slots.Get(from) != NoDriver && disk.slots.Get(to) == NoDriver
      requires SlotsAgree(Current(disk), disk.slots.Moved(from, to), false)
      modifies this`fates, this`process, this`proved, this`disk
      ensures Lives(step, 1)
      ensures Back() && (disk == old(disk) || disk == old(disk).(slots := old(disk).slots.Moved(from, to)))
      ensures step.Done? ==> disk == old(disk).(slots := old(disk).slots.Moved(from, to))
      ensures old(fates) == [] ==> fates == [] && step.Done?
      ensures step.Done? ==> proved == Some(disk)
    {
      hide Consistent, SingleFault, Intents, SlotsAgree, InRestore;
      :- Move(from, to);
      step := Checkpoint();
    }

    /** Archives the candidate.  It is only ever canonical in a rollback while the journal stands
        at ROLLBACK_STARTED, so its archiving is always recorded. */
    method Archive() returns (step: Step)
      requires process.alive
      requires Back() && !disk.hostUp && Current(disk) == RollbackStarted && disk.slots == SWAPPED
      modifies this`fates, this`process, this`proved, this`disk, this`memory
      ensures Lives(step, 1)
      ensures Interrupted() && SameWorld() && (disk.slots == SWAPPED || disk.slots == ARCHIVED)
      ensures step.Done? ==>
        && Back() && disk.slots == ARCHIVED && Current(disk) == FailedDriverArchived
        && Intents(disk.entries) == Intents(old(disk).entries)
      ensures old(fates) == [] ==> fates == [] && step.Done?
    {
      hide Consistent, SingleFault, Intents, ValidTransition, PairAgrees, RestartFits;
      :- MoveBack(Canonical, Failed);
      hide SlotsAgree;
      IntentsAppend(disk.entries, Plain(FailedDriverArchived));
      ArchivedFits(pids, disk);
      step := LogBack(Plain(FailedDriverArchived));
    }

    /** Takes the candidate off the canonical path. */
    method ArchiveFailed() returns (step: Step)
      requires process.alive
      requires Back() && !disk.hostUp && InRestore(Current(disk))
      modifies this`fates, this`process, this`proved, this`disk, this`memory
      ensures Lives(step, if old(disk).slots.canonical == Candidate then 1 else 0)
      ensures Interrupted() && SameWorld()
      ensures Arranged(disk.slots) && Restored(disk.slots) == Restored(old(disk).slots)
      ensures step.Done? ==>
        && Back() && disk.slots.canonical != Candidate && Intents(disk.entries) == Intents(old(disk).entries)
        && InRestore(Current(disk)) && IsLate(Current(disk)) == IsLate(old(Current(disk)))
        && (IsLate(Current(disk)) ==> Current(disk) == old(Current(disk)))
      ensures old(fates) == [] ==> fates == [] && step.Done?
    {
      hide Consistent, SingleFault, Intents, SlotsAgree;
      SlotsOfRestore(disk);
      if disk.slots.canonical == Candidate {
        if disk.slots.failed != NoDriver {
          return Faults.Failed;
        }
        step := Archive();
      } else {
        step := Faults.Done;
      }
    }

    /** Puts the old driver back on the canonical path. */
    method RestorePrior() returns (step: Step)
      requires process.alive
      requires Back() && !disk.hostUp && InRestore(Current(disk)) && disk.slots.canonical != Candidate
      modifies this`fates, this`process, this`proved, this`disk, this`memory
      ensures Lives(step, if old(disk).slots.canonical == V7 then 1 else 2)
      ensures Interrupted() && SameWorld()
      ensures Arranged(disk.slots) && Restored(disk.slots) == Restored(old(disk).slots)
      ensures step.Done? ==>
        && Back() && disk.slots == Restored(old(disk).slots) && Intents(disk.entries) == Intents(old(disk).entries)
        && Current(disk) == if IsLate(old(Current(disk))) then old(Current(disk)) else PriorDriverRestored
      ensures old(fates) == [] ==> fates == [] && step.Done?
    {
      hide Consistent, SingleFault, Intents, SlotsAgree, FitsBack, Lags, RecoveryPlan;
      SlotsOfRestore(disk);
      :- BringPriorBack();
      :- Checkpoint();
      step := RecordRestored();
    }

    /** The move itself, when the old driver is not there yet. */
    method BringPriorBack() returns (step: Step)
      requires process.alive
      requires Back() && !disk.hostUp && InRestore(Current(disk)) && disk.slots.canonical != Candidate
      modifies this`fates, this`process, this`proved, this`disk
      ensures Lives(step, if old(disk).slots.canonical == V7 then 0 else 1)
      ensures Back() && (disk == old(disk) || disk == old(disk).(slots := Restored(old(disk).slots)))
      ensures Arranged(disk.slots) && Restored(disk.slots) == Restored(old(disk).slots)
      ensures step.Done? ==> disk == old(disk).(slots := Restored(old(disk).slots))
      ensures step.Done? ==> disk.slots == ORIGINAL || disk.slots == RESTORED
      ensures old(fates) == [] ==> fates == [] && step.Done?
    {
      hide Consistent, SingleFault, Intents, SlotsAgree, FitsBack, Lags, RecoveryPlan;
      SlotsOfRestore(disk);
      step := Faults.Done;
      if disk.slots.canonical != V7 {
        if disk.slots.canonical != NoDriver || disk.slots.prior != V7 {
          return Faults.Failed;
        }
        step := MoveBack(Prior, Canonical);
      }
    }

    method RecordRestored() returns (step: Step)
      requires process.alive
      requires memory == RollbackStarted || memory == FailedDriverArchived ==> proved == Some(disk)
      requires Back() && InRestore(Current(disk)) && (disk.slots == ORIGINAL || disk.slots == RESTORED)
      modifies this`fates, this`process, this`disk, this`memory
      ensures Lives(step, 0)
      ensures Interrupted() && SameWorld() && disk.slots == old(disk).slots
      ensures step.Done? ==>
        && Back() && Intents(disk.entries) == Intents(old(disk).entries)
        && Current(disk) == if IsLate(old(Current(disk))) then old(Current(disk)) else PriorDriverRestored
      ensures old(fates) == [] ==> fates == [] && step.Done?
    {
      hide Consistent, SingleFault, Intents, SlotsAgree, FitsBack, Lags, RecoveryPlan;
      if memory == RollbackStarted || memory == FailedDriverArchived {
        IntentsAppend(disk.entries, Plain(PriorDriverRestored));
        RestoredFits(pids, disk);
        step := LogBack(Plain(PriorDriverRestored));
      } else {
        step := Faults.Done;
      }
    }

    /** The driver-restore section: total from every arrangement, and a second pass changes
        nothing more. */
    method RestoreDriver() returns (step: Step)
      requires process.alive
      requires Back() && !disk.hostUp && InRestore(Current(disk))
      modifies this`fates, this`process, this`proved, this`disk, this`memory
      ensures Lives(step, 1)
      ensures Interrupted() && SameWorld()
      ensures Arranged(disk.slots) && Restored(disk.slots) == Restored(old(disk).slots)
      ensures step.Done? ==>
        && Back() && disk.slots == Restored(old(disk).slots) && Intents(disk.entries) == Intents(old(disk).entries)
        && Current(disk) == if IsLate(old(Current(disk))) then old(Current(disk)) else PriorDriverRestored
      ensures old(fates) == [] ==> fates == [] && step.Done?
    {
      hide Consistent, SingleFault, Intents, InRestore;
      :- ArchiveFailed();
      step := RestorePrior();
    }

    /** Nothing but the journal and the image has changed, and outside restarts. */
    twostate predicate OnlyDrift()
      reads this
    {
      && disk.hostUp == old(disk).hostUp && SameEntry()
      && disk.termed == old(disk).termed && disk.retermed == old(disk).retermed
    }

    lemma IntentIsRecorded()
      requires Valid() && ExactIntent(disk.entries).Some?
      ensures var intent := ExactIntent(disk.entries).value; intent.pid == pids(intent.runs)
    {
      assert Intents(disk.entries)[0] in Intents(disk.entries);
    }

    /** Journals the Core Audio generation that the reload is about to end. */
    method IntendReload() returns (step: Step)
      requires process.alive
      requires Back() && !disk.hostUp && IsLate(Current(disk))
      modifies this`fates, this`process, this`proved, this`drifts, this`disk, this`memory
      ensures Lives(step, if old(Current(disk)) == PriorDriverRestored then 1 else 0)
      ensures Interrupted() && OnlyDrift() && disk.slots == old(disk).slots
      ensures step.Done? ==>
        && Back() && Current(disk) != PriorDriverRestored && IsLate(Current(disk))
        && (old(Current(disk)) != PriorDriverRestored ==>
              Current(disk) == old(Current(disk)) && Intents(disk.entries) == Intents(old(disk).entries))
        && (old(Current(disk)) == PriorDriverRestored ==>
              && Current(disk) == RollbackCoreAudioReloadInitiated
              && Intents(disk.entries) == Intents(old(disk).entries) + [Generation(pids(disk.starts), disk.starts)])
      ensures old(drifts) == [] ==> drifts == [] && SameWorld()
      ensures old(fates) == [] ==> fates == []
      ensures old(fates) == [] && step.Failed? ==> Back() && IsLate(Current(disk))
      ensures (old(fates) == [] && old(drifts) == []
               && (old(Current(disk)) == PriorDriverRestored ==> Readable(pids, disk.starts))) ==> step.Done?
      ensures step.Done? && old(Current(disk)) == PriorDriverRestored ==> Readable(pids, disk.starts)
    {
      hide Consistent, SingleFault, Intents, SlotsAgree, ValidTransition, RestartFits;
      LateIsNotA(Current(disk));
      if memory != PriorDriverRestored {
        return Faults.Done;
      }
      var seen;
      step, seen := Observe();
      if !step.Done? {
        return;
      }
      var e := Entry(RollbackCoreAudioReloadInitiated, seen, NONE);
      IntentsAppend(disk.entries, e);
      IntentFits(pids, disk, e);
      step := LogBack(e);
    }

    /** The restart that the journalled intent asks for: ordered now, or found to have happened. */
    method BringRestart(intent: Generation) returns (step: Step, after: Generation)
      requires process.alive
      requires Back() && !disk.hostUp && Current(disk) == RollbackCoreAudioReloadInitiated
      requires ExactIntent(disk.entries) == Some(intent)
      modifies this`fates, this`process, this`proved, this`drifts, this`disk
      ensures Lives(step, if disk.retermed && !old(disk).retermed then 4 else 1)
      ensures Back() && OnlyRestarts() && disk.termed == old(disk).termed
      ensures step.Done? ==> ExactSuccessor(intent, after) && intent.runs < disk.starts && ValidGeneration(after)
      ensures old(drifts) == [] ==> drifts == [] && disk.outside == old(disk).outside
      ensures old(fates) == [] ==> fates == []
      ensures old(fates) == [] && old(drifts) == [] ==>
        (step.Done? <==> Reloadable(pids, old(disk).starts, Some(intent)))
    {
      hide Consistent, SingleFault, Intents, SlotsAgree, ExactIntent, Lags, RecoveryPlan;
      IntentIsRecorded();
      var current;
      step, current := Observe();
      after := current;
      if !step.Done? {
        return;
      }
      IntentIsPast(disk);
      if current == intent {
        step, after := ReloadCoreAudio(intent, true);
      } else if !ExactSuccessor(intent, current) {
        return Faults.Failed, after;
      }
    }

    /** Reloads Core Audio exactly once, judged by the journalled intent. */
    method ReloadBack() returns (step: Step)
      requires process.alive
      requires Back() && !disk.hostUp
      requires Current(disk) == RollbackCoreAudioReloadInitiated || Current(disk) == RollbackCoreAudioReloaded
      modifies this`fates, this`process, this`proved, this`drifts, this`disk, this`memory
      ensures Lives(step, if old(Current(disk)) == RollbackCoreAudioReloadInitiated then 1 else 0)
      ensures Interrupted() && disk.slots == old(disk).slots && disk.hostUp == old(disk).hostUp
      ensures SameEntry() && disk.termed == old(disk).termed
      ensures step.Done? ==> Back() && Current(disk) == RollbackCoreAudioReloaded
      ensures old(drifts) == [] ==> drifts == [] && disk.outside == old(disk).outside
      ensures old(fates) == [] ==> fates == []
      ensures old(fates) == [] && step.Failed? ==> Back() && IsLate(Current(disk))
      ensures old(fates) == [] && old(drifts) == [] ==>
        (step.Done? <==>
           || old(Current(disk)) == RollbackCoreAudioReloaded
           || Reloadable(pids, old(disk).starts, ExactIntent(old(disk).entries)))
    {
      hide Consistent, SingleFault, Intents, SlotsAgree, FitsBack, ExactIntent, Lags, RecoveryPlan, ExactSuccessor;
      LateIsNotA(Current(disk));
      if memory != RollbackCoreAudioReloadInitiated {
        return Faults.Done;
      }
      var exact := ExactIntent(disk.entries);
      if exact.None? {
        return Faults.Failed;
      }
      hide Reloadable;
      var after;
      step, after := BringRestart(exact.value);
      if !step.Done? {
        return;
      }
      var e := Entry(RollbackCoreAudioReloaded, exact.value, after);
      ReloadFits(pids, disk, e);
      step := LogBack(e);
    }

    /** Brings the host back and closes the rollback. */
    method FinishRollback() returns (step: Step)
      requires process.alive
      requires Back() && !disk.hostUp && Current(disk) == RollbackCoreAudioReloaded
      modifies this`fates, this`process, this`proved, this`disk, this`memory
      ensures Lives(step, 1)
      ensures Interrupted() && SameRestarts() && SameEntry() && disk.slots == old(disk).slots
      ensures step.Done? ==> Back() && Current(disk) == RolledBack && disk.image == Some(RolledBack)
      ensures old(fates) == [] ==> fates == [] && step.Done?
    {
      hide Consistent, SingleFault, Intents, SlotsAgree, FitsBack, Lags, RecoveryPlan;
      RollbackMayFinish(pids, disk);
      :- SetHost(true);
      :- LogBack(Plain(HostRebootstrapped));
      :- Checkpoint();
      RollbackMayFinish(pids, disk);
      step := LogBack(Plain(RolledBack));
    }

    method StopHostForRollback() returns (step: Step)
      requires process.alive
      requires Back() && InRestore(Current(disk))
      modifies this`fates, this`process, this`disk
      ensures Lives(step, 0)
      ensures Back() && (disk == old(disk) || disk == old(disk).(hostUp := false))
      ensures step.Done? ==> disk == old(disk).(hostUp := false)
      ensures old(fates) == [] ==> fates == [] && step.Done?
    {
      hide Consistent, SingleFault, Intents, SlotsAgree, InRestore;
      HostMayStop(disk);
      step := SetHost(false);
    }

    /** From the restored driver to the end. */
    method ReloadAndFinish() returns (step: Step)
      requires process.alive
      requires Back() && !disk.hostUp && IsLate(Current(disk))
      modifies this`fates, this`process, this`proved, this`drifts, this`disk, this`memory
      ensures Lives(step, 1)
      ensures Interrupted() && SameEntry() && disk.termed == old(disk).termed
      ensures disk.slots == old(disk).slots
      ensures step.Done? ==> Back() && Current(disk) == RolledBack && disk.image == Some(RolledBack)
      ensures old(drifts) == [] ==> drifts == [] && disk.outside == old(disk).outside
      ensures old(fates) == [] ==> fates == []
      ensures old(fates) == [] && step.Failed? ==> Back() && IsLate(Current(disk))
      ensures old(fates) == [] && old(drifts) == [] ==>
        (step.Done? <==> MayComplete(pids, old(disk).starts, old(Current(disk)), old(disk).entries))
    {
      hide Consistent, SingleFault, Intents, ExactIntent, Reloadable, CanRestart;
      ghost var before := Intents(disk.entries);
      FreshIntentReloads(pids, disk.starts);
      step := IntendReload();
      if !step.Done? {
        return;
      }
      if old(Current(disk)) == PriorDriverRestored {
        OneIntent(before, Generation(pids(disk.starts), disk.starts), disk.entries);
      }
      ExactIntentIs(disk.entries, old(disk).entries);
      step := CompleteReload();
    }

    method CompleteReload() returns (step: Step)
      requires process.alive
      requires Back() && !disk.hostUp
      requires Current(disk) == RollbackCoreAudioReloadInitiated || Current(disk) == RollbackCoreAudioReloaded
      modifies this`fates, this`process, this`proved, this`drifts, this`disk, this`memory
      ensures Lives(step, 1)
      ensures Interrupted() && SameEntry() && disk.termed == old(disk).termed
      ensures disk.slots == old(disk).slots
      ensures step.Done? ==> Back() && Current(disk) == RolledBack && disk.image == Some(RolledBack)
      ensures old(drifts) == [] ==> drifts == [] && disk.outside == old(disk).outside
      ensures old(fates) == [] ==> fates == []
      ensures old(fates) == [] && step.Failed? ==> Back() && IsLate(Current(disk))
      ensures old(fates) == [] && old(drifts) == [] ==>
        (step.Done? <==>
           || old(Current(disk)) == RollbackCoreAudioReloaded
           || Reloadable(pids, old(disk).starts, ExactIntent(old(disk).entries)))
    {
      hide Consistent, SingleFault, Intents, ExactIntent;
      step := ReloadBack();
      if !step.Done? {
        return;
      }
      step := FinishRollback();
    }

    method StopAndRestore() returns (step: Step)
      requires process.alive
      requires Back() && InRestore(Current(disk))
      modifies this`fates, this`process, this`proved, this`disk, this`memory
      ensures Lives(step, 1)
      ensures Interrupted() && SameEntry() && SameRestarts()
      ensures Arranged(disk.slots) && Restored(disk.slots) == Restored(old(disk).slots)
      ensures step.Done? ==>
        && Back() && !disk.hostUp && disk.slots == Restored(old(disk).slots)
        && Intents(disk.entries) == Intents(old(disk).entries) && IsLate(Current(disk))
        && Current(disk) == if IsLate(old(Current(disk))) then old(Current(disk)) else PriorDriverRestored
      ensures old(fates) == [] ==> fates == [] && step.Done?
    {
      hide Consistent, SingleFault, Intents, InRestore;
      SlotsOfRestore(disk);
      InRestoreIsEarlyOrLate(Current(disk));
      :- StopHostForRollback();
      step := RestoreDriver();
    }

    /** The rollback from the host stop on. */
    method RestoreAndReload() returns (step: Step)
      requires process.alive
      requires Back() && InRestore(Current(disk))
      modifies this`fates, this`process, this`proved, this`drifts, this`disk, this`memory
      ensures Lives(step, 2)
      ensures Interrupted() && SameEntry() && disk.termed == old(disk).termed
      ensures Arranged(disk.slots) && Restored(disk.slots) == Restored(old(disk).slots)
      ensures step.Done? ==>
        Back() && Current(disk) == RolledBack && disk.image == Some(RolledBack)
          && disk.slots == Restored(old(disk).slots)
      ensures old(drifts) == [] ==> drifts == [] && disk.outside == old(disk).outside
      ensures old(fates) == [] ==> fates == []
      ensures old(fates) == [] && step.Failed? ==> Back() && IsLate(Current(disk))
      ensures old(fates) == [] && old(drifts) == [] ==>
        (step.Done? <==> MayComplete(pids, old(disk).starts, old(Current(disk)), old(disk).entries))
    {
      hide Consistent, SingleFault, Intents, ExactIntent, InRestore, MayComplete, IsLate, SameGoal;
      InRestoreIsEarlyOrLate(Current(disk));
      :- StopAndRestore();
      RestoreKeepsCompletion(pids, disk.starts, old(Current(disk)), old(disk).entries, disk.entries);
      step := ReloadAndFinish();
    }

    /** What a rollback keeps, whatever happens to it. */
    twostate predicate KeepsGoal()
      reads this
    {
      && SameEntry() && disk.termed == old(disk).termed
      && SameGoal(old(disk).slots, disk.slots)
    }

    /** The rollback when the host is already back. */
    method FinalizeRollback() returns (step: Step)
      requires process.alive
      requires Back() && memory == HostRebootstrapped
      modifies this`fates, this`process, this`proved, this`disk, this`memory
      ensures Lives(step, 1)
      ensures Interrupted() && KeepsGoal() && SameRestarts()
      ensures step.Done? ==> Current(disk) == RolledBack && disk.image == Some(RolledBack)
      ensures old(fates) == [] ==> fates == [] && step.Done?
    {
      hide Consistent, SingleFault, Intents, SlotsAgree, RestartFits, ValidTransition;
      :- Checkpoint();
      RollbackMayFinish(pids, disk);
      step := LogBack(Plain(RolledBack));
    }

    /** The rollback proper: begin, restore the driver, reload, bring the host back. */
    method ContinueRollback() returns (step: Step)
      requires process.alive
      requires Back() && RollbackResumeAction(memory) == ContinueRecovery
      modifies this`fates, this`process, this`proved, this`drifts, this`disk, this`memory
      ensures Lives(step, 2)
      ensures Interrupted() && KeepsGoal()
      ensures step.Done? ==>
        Back() && Current(disk) == RolledBack && disk.image == Some(RolledBack)
          && disk.slots == Restored(old(disk).slots)
      ensures old(drifts) == [] ==> drifts == [] && disk.outside == old(disk).outside
      ensures old(fates) == [] ==> fates == []
      ensures old(fates) == [] && step.Failed? ==> Back() && IsLate(Current(disk))
      ensures old(fates) == [] && old(drifts) == [] ==>
        (step.Done? <==> MayComplete(pids, old(disk).starts, old(Current(disk)), old(disk).entries))
    {
      hide Consistent, SingleFault, Intents, SlotsAgree, ExactIntent, Reloadable, CanRestart;
      ContinueMeans(disk);
      :- BeginRollback();
      ExactIntentIs(disk.entries, old(disk).entries);
      hide RollbackResumeAction;
      step := RestoreAndReload();
    }

    /** The body of `rollback_root_transaction`. */
    method RollbackBody() returns (step: Step)
      requires process.alive
      requires Back() && memory != Authenticated
      modifies this`fates, this`process, this`proved, this`drifts, this`disk, this`memory
      ensures Lives(step, 1)
      ensures Interrupted() && KeepsGoal()
      ensures step.Done? ==> Current(disk) == RolledBack
      ensures step.Done? && old(Current(disk)) != RolledBack ==> disk.image == Some(RolledBack)
      ensures old(drifts) == [] ==> drifts == [] && disk.outside == old(disk).outside
      ensures old(fates) == [] ==> fates == []
      ensures old(fates) == [] && step.Failed? && RollbackResumeAction(old(Current(disk))) != Refuse ==>
        Back() && IsLate(Current(disk))
      ensures old(fates) == [] && old(drifts) == [] ==>
        (step.Done? <==>
          && RollbackResumeAction(old(Current(disk))) != Refuse
          && MayComplete(pids, old(disk).starts, old(Current(disk)), old(disk).entries))
      ensures RollbackResumeAction(old(memory)) == Refuse ==> step.Failed? && disk == old(disk) && memory == old(memory)
    {
      hide Consistent, SingleFault, Intents, SlotsAgree;
      ActionMeans(memory);
      match RollbackResumeAction(memory) {
        case Refuse =>
          step := Faults.Failed;
        case AlreadyComplete =>
          step := Checkpoint();
        case FinalizePreservingHost =>
          step := FinalizeRollback();
        case ContinueRecovery =>
          hide MayComplete;
          step := ContinueRollback();
      }
    }

    /** The record of a rollback's failure, where the journal does not hold it yet. */
    method RecordFailure() returns (step: Step)
      requires process.alive
      requires Interrupted() && memory != CriticalFailure && ValidTransition(memory, CriticalFailure)
      modifies this`fates, this`process, this`disk, this`memory
      ensures Lives(step, 0)
      ensures Valid() && SameWorld() && disk.slots == old(disk).slots && disk.image == old(disk).image
      ensures Intents(disk.entries) == Intents(old(disk).entries)
      ensures step.Done? ==> Fresh() && Current(disk) == CriticalFailure
      ensures old(fates) == [] ==> fates == []
      ensures old(fates) == [] && old(disk).pending != Stuck && ValidTransition(old(Current(disk)), CriticalFailure) ==>
        step.Done?
    {
      hide Consistent, SingleFault, Intents, SlotsAgree, ValidTransition, Fits, PairAgrees;
      FailureFits(disk);
      IntentsAppend(disk.entries, Plain(CriticalFailure));
      step := Record(Plain(CriticalFailure));
    }

    /** `journal_rollback_failure`: a state image is only written once the journal is there. */
    method JournalRollbackFailure() returns (step: Step)
      requires process.alive
      requires Interrupted()
      modifies this`fates, this`process, this`disk, this`memory
      ensures Lives(step, 0)
      ensures Valid() && SameWorld() && disk.slots == old(disk).slots
      ensures step.Done? || step.Died?
      ensures disk.image == old(disk).image || disk.image == Some(CriticalFailure)
      ensures Intents(disk.entries) == Intents(old(disk).entries)
      ensures old(fates) == [] ==> fates == []
      ensures old(fates) == [] && old(memory) == CriticalFailure ==> disk.image == Some(CriticalFailure)
      ensures (&& old(fates) == [] && old(memory) != CriticalFailure && old(disk).pending != Stuck
               && ValidTransition(old(memory), CriticalFailure) && ValidTransition(old(Current(disk)), CriticalFailure))
              ==> Fresh() && Current(disk) == CriticalFailure && disk.image == Some(CriticalFailure)
      ensures IsTerminal(old(memory)) ==> disk == old(disk)
    {
      hide Consistent, SingleFault, Intents, SlotsAgree, ValidTransition, Fits, PairAgrees;
      TerminalEnds(memory);
      if memory == Committed || memory == RolledBack || memory == PrestopAborted {
        return Faults.Done;
      }
      if memory != CriticalFailure {
        if !ValidTransition(memory, CriticalFailure) {
          return Faults.Done;
        }
        step := RecordFailure();
        if !step.Done? {
          return if step.Died? then Faults.Died else Faults.Done;
        }
      }
      FailureImageAgrees(disk, memory);
      step := WriteImage(CriticalFailure);
      step := if step.Died? then Faults.Died else Faults.Done;
    }

    /** The opening of `rollback_root_transaction`: reconcile, and make the case of a durable
        stop intent without its record explicit. */
    method EnterRollback() returns (step: Step)
      requires process.alive
      requires Valid() && !Plans(disk, Reject)
      modifies this`fates, this`process, this`proved, this`disk, this`memory
      ensures Lives(step, 1)
      ensures Valid() && disk.rollbacks == old(disk).rollbacks + 1 && SameRestarts()
      ensures disk.lagged == old(Lags(Current(disk), disk.image))
      ensures disk.slots == old(disk).slots
      ensures step.Done? ==>
        && Back() && memory != Authenticated && Intents(disk.entries) == Intents(old(disk).entries)
        && Current(disk) == (if old(Current(disk)) == Authenticated then CriticalFailure else old(Current(disk)))
        && (old(Current(disk)) != Authenticated ==> disk.image == old(disk).image)
      ensures step.Done? ==> old(MayEnter(disk))
      ensures old(fates) == [] ==> fates == [] && (step.Done? <==> old(MayEnter(disk)))
      ensures old(Current(disk)) != Authenticated ==> disk.entries == old(disk).entries && disk.image == old(disk).image
      ensures old(disk).pending == Stuck ==> disk.pending == Stuck
    {
      hide Consistent, SingleFault, Intents, SlotsAgree, ValidTransition, Fits, RecoveryPlan, Lags, IsBack;
      PlannedIsResumable(Current(disk), disk.image);
      RollbackMayBeEntered(disk);
      disk := disk.(rollbacks := disk.rollbacks + 1, lagged := Lags(Current(disk), disk.image));
      var durable := disk.image;
      if durable.None? {
        return Faults.Failed;
      }
      :- CatchUp();         // the rollback reserve is released
      if memory == Authenticated {
        if durable != Some(HostStopInitiated) {
          return Faults.Failed;
        }
        step := FailAuthenticated();
      } else {
        step := Faults.Done;
      }
    }

    method FailAuthenticated() returns (step: Step)
      requires process.alive
      requires Fresh() && disk.rollbacks >= 1 && memory == Authenticated && disk.image == Some(HostStopInitiated)
      modifies this`fates, this`process, this`disk, this`memory
      ensures Lives(step, 0)
      ensures Valid() && SameWorld() && disk.slots == old(disk).slots
      ensures step.Done? ==>
        && Back() && memory == CriticalFailure && disk.image == Some(CriticalFailure)
        && Intents(disk.entries) == Intents(old(disk).entries)
      ensures old(fates) == [] ==> fates == [] && step.Done?
    {
      hide Consistent, SingleFault, Intents, Fits, ValidTransition, Lags, RecoveryPlan;
      AuthenticatedMayFail(disk);
      SyncedPair(CriticalFailure);
      IntentsAppend(disk.entries, Plain(CriticalFailure));
      step := Log(Plain(CriticalFailure));
    }

    /** `rollback_root_transaction`.  Recovery calls it on a pair it has a plan for, and the
        forward run never leaves another one. */
    method Rollback() returns (step: Step)
      requires process.alive
      requires Valid() && !Plans(disk, Reject)
      modifies this`fates, this`process, this`proved, this`drifts, this`disk, this`memory
      ensures Lives(step, 2)
      ensures Valid() && disk.rollbacks == old(disk).rollbacks + 1 && disk.termed == old(disk).termed
      ensures Plans(disk, Reject) ==> old(Lags(Current(disk), disk.image))
      ensures SameGoal(old(disk).slots, disk.slots)
      ensures step.Done? ==> Current(disk) == RolledBack
      ensures step.Done? && old(Current(disk)) != RolledBack ==> disk.image == Some(RolledBack)
      ensures old(drifts) == [] ==> drifts == [] && disk.outside == old(disk).outside
      ensures old(fates) == [] ==> fates == []
      ensures old(fates) == [] && step.Failed? && old(MayEnter(disk)) && old(Resumes(disk)) ==> Failure()
      ensures old(fates) == [] && old(drifts) == [] ==> (step.Done? <==> RollbackCompletes(pids, old(disk)))
      ensures old(Current(disk)) == Committed ==> disk.entries == old(disk).entries
      ensures old(disk).pending == Stuck ==> disk.pending == Stuck
    {
      hide Consistent, SingleFault, Intents, SlotsAgree, MayComplete, RollbackCompletes, RollbackResumeAction, MayEnter,
        Restored, Arranged, Lags, RecoveryPlan, Resumes;
      NoEntryNoCompletion(pids, disk);
      step := EnterRollback();
      OnlyLaggedIsRejected(disk);
      if !step.Done? {
        return;
      }
      CompletesOnceEntered(pids, old(disk), disk);
      if Resumes(old(disk)) {
        StillResumes(old(disk), disk);
      }
      step := RunRollback();
      OnlyLaggedIsRejected(disk);
    }

    /** The body, and the failure record when it does not get through. */
    method RunRollback() returns (step: Step)
      requires process.alive
      requires Back() && memory != Authenticated
      modifies this`fates, this`process, this`proved, this`drifts, this`disk, this`memory
      ensures Lives(step, 1)
      ensures Valid() && KeepsGoal()
      ensures step.Done? ==> Current(disk) == RolledBack
      ensures step.Done? && old(Current(disk)) != RolledBack ==> disk.image == Some(RolledBack)
      ensures old(drifts) == [] ==> drifts == [] && disk.outside == old(disk).outside
      ensures old(fates) == [] ==> fates == []
      // undisturbed, a rollback that does not get through leaves its failure on record
      ensures old(fates) == [] && step.Failed? && RollbackResumeAction(old(Current(disk))) != Refuse ==>
        Failure()
      ensures old(fates) == [] && old(drifts) == [] ==>
        (step.Done? <==>
          && RollbackResumeAction(old(Current(disk))) != Refuse
          && MayComplete(pids, old(disk).starts, old(Current(disk)), old(disk).entries))
      ensures old(Current(disk)) == Committed ==> disk == old(disk)
    {
      hide Consistent, SingleFault, Intents, SlotsAgree, MayComplete, RollbackResumeAction, IsForward, ValidTransition,
        RecoveryPlan, Lags;
      CommittedIsRefused();
      step := RollbackBody();
      if step.Failed? {
        LateMayFail(disk);
        var journalled := JournalRollbackFailure();
        if journalled.Died? {
          step := Faults.Died;
        }
      }
    }

    // ------------------------------------------------------------- the whole forward run

    /** The host goes down and the candidate takes the driver's place. */
    method SwapDrivers() returns (step: Step)
      requires process.alive
      requires At(HostStopInitiated, Some(HostStopInitiated), ORIGINAL, true)
      modifies this`fates, this`process, this`disk, this`memory
      ensures Lives(step, 0)
      ensures PastStop() && SameRestarts()
      ensures step.Done? ==> At(CandidatePublished, Some(CandidatePublished), SWAPPED, false) && !disk.termed
      ensures old(fates) == [] ==> fates == [] && step.Done?
      ensures Consumed(step)
    {
      hide Consistent, SingleFault, Intents;
      :- StopHost();
      :- RetainPrior();
      step := PublishCandidate();
    }

    /** The transaction proper, after the stop intent. */
    method Transact(baseline: Generation) returns (step: Step)
      requires process.alive
      requires At(HostStopInitiated, Some(HostStopInitiated), ORIGINAL, true)
      modifies this`fates, this`process, this`proved, this`drifts, this`disk, this`memory
      ensures Lives(step, 7)
      ensures PastStop()
      ensures step.Done? ==> At(Committed, Some(Committed), SWAPPED, true)
      ensures old(drifts) == [] ==> drifts == [] && disk.outside == old(disk).outside
      ensures old(fates) == [] ==> fates == []
      ensures (old(fates) == [] && old(drifts) == [] && CanRestart(pids, old(disk).starts)
               && baseline == Generation(pids(old(disk).starts), old(disk).starts)) ==> step.Done?
      ensures (old(drifts) == [] && CanRestart(pids, old(disk).starts)
               && baseline == Generation(pids(old(disk).starts), old(disk).starts)) ==> Consumed(step)
    {
      hide Consistent, SingleFault, Intents, CanRestart;
      :- SwapDrivers();
      step := ReloadForward(baseline);
      if !step.Done? {
        return;
      }
      step := Validate();
    }

    method Validate() returns (step: Step)
      requires process.alive
      requires At(CoreAudioReloaded, Some(CoreAudioReloaded), SWAPPED, false) && disk.termed
      modifies this`fates, this`process, this`proved, this`disk, this`memory
      ensures Lives(step, 3)
      ensures PastStop() && SameRestarts()
      ensures step.Done? ==> At(Committed, Some(Committed), SWAPPED, true)
      ensures old(fates) == [] ==> fates == [] && step.Done?
      ensures Consumed(step)
    {
      hide Consistent, SingleFault, Intents;
      :- ValidateDriver();
      :- RestartHost();
      :- VerifyReady();
      step := Commit();
    }

    /** What the forward run does with an error of its transaction proper. */
    method RollBackAtOnce() returns (step: Step)
      requires process.alive
      requires PastStop()
      modifies this`fates, this`process, this`proved, this`drifts, this`disk, this`memory
      ensures Lives(step, 2)
      ensures Valid() && disk.rollbacks == 1
      ensures old(drifts) == [] ==> drifts == [] && disk.outside == old(disk).outside
      // undisturbed, the rollback gets through, unless the commit was on record or the pending
      // snapshot is stuck
      ensures old(fates) == [] && old(drifts) == [] && CanRestart(pids, old(disk).starts) ==>
                || (Current(disk) == RolledBack && disk.image == Some(RolledBack))
                || Current(disk) == Committed || disk.pending == Stuck
    {
      hide Consistent, Intents, SingleFault, CanRestart, Lags, RecoveryPlan;
      ForwardHasPlan(disk);
      ForwardRollsBack(pids, disk);
      hide RollbackCompletes;
      step := Rollback();
    }

    /** `perform_root_transaction`: an error after the stop intent is rolled back on the spot. */
    method Perform() returns (step: Step)
      requires process.alive
      requires At(Begun, None, UNSTAGED, true)
      modifies this`fates, this`process, this`proved, this`drifts, this`disk, this`memory
      ensures Lives(step, 11)
      ensures Valid() && disk.rollbacks <= 1
      ensures step.Done? ==> At(Committed, Some(Committed), SWAPPED, true)
      // once the host may be down an error always enters the rollback
      ensures step.Failed? && disk.rollbacks == 0 ==>
        disk.hostUp && Current(disk) in {Begun, Authenticated, HostStopInitiated}
      // and a single one is rolled back on the spot, unless the commit was on record by then or
      // the error left a pending snapshot that nobody gets past
      ensures (&& SingleFault(old(fates)) && old(drifts) == [] && step.Failed? && disk.rollbacks == 1
               && CanRestart(pids, old(disk).starts) && CanRestart(pids, old(disk).starts + 1)) ==>
                || (Current(disk) == RolledBack && disk.image == Some(RolledBack))
                || Current(disk) == Committed || disk.pending == Stuck
      ensures old(drifts) == [] ==> drifts == [] && disk.outside == old(disk).outside
      ensures old(fates) == [] && old(drifts) == [] && CanRestart(pids, old(disk).starts) ==> step.Done?
    {
      hide Consistent, Intents, SingleFault, CanRestart, Readable, SlotsAgree;
      var baseline;
      CanRead(pids, disk.starts);
      NotTermedYet(disk);
      ForwardStarts(disk);
      step, baseline := Authenticate();
      if !step.Done? {
        return;
      }
      step := IntendStop(baseline);
      if !step.Done? {
        return;
      }
      step := Transact(baseline);
      if step.Failed? {
        ForwardStarts(disk);
        var rolledBack := RollBackAtOnce();
        if rolledBack.Died? {
          step := Faults.Died;
        }
      }
    }

    // ---------------------------------------------------------------------- recovery

    /** `finalize_prestop_preserving_host` */
    method FinalizePrestop() returns (step: Step)
      requires process.alive
      requires Valid() && RecoveryPlan(Current(disk), disk.image) == PrestopPreserveHost
      modifies this`fates, this`process, this`proved, this`disk, this`memory
      ensures Lives(step, 1)
      ensures Valid() && SameWorld() && disk.slots == old(disk).slots && !Plans(disk, Reject)
      ensures step.Done? ==> Fresh() && memory == PrestopAborted && disk.image == Some(PrestopAborted)
      ensures old(fates) == [] ==> fates == [] && (step.Done? <==> old(disk).pending != Stuck)
    {
      hide Consistent, SingleFault, Intents, RecoveryPlan;
      PrestopFits(disk);
      hide ValidTransition, Fits;
      :- CatchUp();
      step := AbortPrestop();
    }

    /** The abort record and its image. */
    method AbortPrestop() returns (step: Step)
      requires process.alive
      requires Fresh() && RecoveryPlan(Current(disk), disk.image) == PrestopPreserveHost
      modifies this`fates, this`process, this`disk, this`memory
      ensures Lives(step, 0)
      ensures Valid() && SameWorld() && disk.slots == old(disk).slots && !Plans(disk, Reject)
      ensures step.Done? ==> Fresh() && memory == PrestopAborted && disk.image == Some(PrestopAborted)
      ensures old(fates) == [] ==> fates == [] && step.Done?
    {
      hide Consistent, SingleFault, Intents, SlotsAgree, RestartFits, PairAgrees, RecoveryPlan;
      PrestopFits(disk);
      hide ValidTransition, Fits;
      if memory != Begun && memory != Authenticated && memory != PrestopAborted {
        return Faults.Failed;
      }
      step := Faults.Done;
      if memory != PrestopAborted {
        step := Record(Plain(PrestopAborted));
      }
      PrestopHasPlan(disk);
      if step.Done? {
        PrestopImage(disk);
        step := WriteImage(PrestopAborted);
        PrestopHasPlan(disk);
      }
    }

    /** `repair_committed_terminal_state` and `repair_rolled_back_terminal_state` */
    method RepairTerminal(state: State) returns (step: Step)
      requires process.alive
      requires Valid() && Current(disk) == state && (state == Committed || state == RolledBack)
      modifies this`fates, this`process, this`proved, this`disk, this`memory
      ensures Lives(step, 1)
      ensures Valid() && SameWorld() && disk.slots == old(disk).slots && disk.entries == old(disk).entries
      ensures Plans(disk, Reject) ==> Plans(old(disk), Reject)
      ensures step.Done? ==> Fresh() && memory == state && disk.image == Some(state)
      ensures old(fates) == [] ==> fates == [] && (step.Done? <==> old(disk).pending != Stuck)
    {
      hide Consistent, SingleFault, Intents, SlotsAgree;
      :- CatchUp();
      if memory != state {
        return Faults.Failed;
      }
      TerminalImage(disk);
      OwnImage(state);
      hide RecoveryPlan;
      step := WriteImage(state);
    }

    /** `complete_root_recovery`: the plan is made from the previewed journal and the image. */
    method Recover() returns (step: Step)
      requires process.alive
      requires Valid()
      modifies this`fates, this`process, this`proved, this`drifts, this`disk, this`memory
      ensures Lives(step, 2)
      ensures Valid()
      ensures || disk.rollbacks == old(disk).rollbacks
              || (Plans(old(disk), ResumeRollback) && disk.rollbacks == old(disk).rollbacks + 1)
      ensures SameGoal(old(disk).slots, disk.slots)
      // recovery is only left without a plan by a rollback that resumed with a lagging image
      ensures Plans(disk, Reject) ==>
        Plans(old(disk), Reject) || (Plans(old(disk), ResumeRollback) && Lags(old(Current(disk)), old(disk).image))
      ensures RecoveryPlan(old(Current(disk)), old(disk).image) == Reject || old(disk).pending == Stuck ==>
        !step.Done? && disk == old(disk)
      ensures step.Done? ==> IsTerminal(Current(disk)) && disk.image == Some(Current(disk))
      ensures old(drifts) == [] ==> drifts == [] && disk.outside == old(disk).outside
      // an undisturbed recovery that fails leaves that on record, unless it had no plan or the
      // pending snapshot is stuck
      ensures old(fates) == [] && step.Failed? && !old(Plans(disk, Reject)) && old(disk).pending != Stuck ==>
        Failure()
      ensures old(fates) == [] && old(drifts) == [] ==> (step.Done? <==> RecoveryCompletes(pids, old(disk)))
    {
      hide Consistent, SingleFault, Intents, SlotsAgree, RollbackCompletes, Lags, Arranged, Restored, CrashCoherent,
        MayEnter, Resumes, RollbackResumeAction;
      :- Checkpoint();
      if disk.pending == Stuck {
        return Faults.Failed;
      }
      var plan := RecoveryPlan(Current(disk), disk.image);
      PlanFits(disk);
      if plan == ResumeRollback {
        PlannedMayEnter(disk);
      }
      hide RecoveryPlan;
      match plan {
        case PrestopPreserveHost =>
          step := FinalizePrestop();
        case RepairCommittedState =>
          step := RepairTerminal(Committed);
        case ReportCommitted =>
          step := RepairTerminal(Committed);
        case RepairRolledBackState =>
          step := RepairTerminal(RolledBack);
        case ReportRolledBack =>
          step := RepairTerminal(RolledBack);
        case ReportPrestopAborted =>
          step := Checkpoint();
        case ResumeRollback =>
          if !CrashCoherent(Current(disk), disk.image.value) {
            return Faults.Failed;
          }
          step := Rollback();
        case Reject =>
          step := Faults.Failed;
      }
    }

  }

  /** An uninterrupted rollback gets past its opening. */
  predicate MayEnter(d: Disk)
    requires |d.entries| > 0
  {
    d.pending != Stuck && d.image.Some? && (Current(d) == Authenticated ==> d.image == Some(HostStopInitiated))
  }

  /** Exactly when an uninterrupted, undisturbed rollback reaches its end. */
  predicate RollbackCompletes(pids: nat -> nat, d: Disk)
    requires |d.entries| > 0
  {
    && MayEnter(d)
    && (Current(d) == Authenticated || RollbackResumeAction(Current(d)) != Refuse)
    && MayComplete(pids, d.starts, Current(d), d.entries)
  }

  /** The rollback has something to do, once it is entered. */
  predicate Resumes(d: Disk)
    requires |d.entries| > 0
  {
    Current(d) == Authenticated || RollbackResumeAction(Current(d)) != Refuse
  }

  lemma PlannedMayEnter(d: Disk)
    requires |d.entries| > 0 && Plans(d, ResumeRollback) && d.pending != Stuck
    ensures MayEnter(d) && Resumes(d)
  {
  }

  lemma LateMayFail(d: Disk)
    requires |d.entries| > 0
    ensures IsLate(Current(d)) ==> ValidTransition(Current(d), CriticalFailure) && Current(d) != CriticalFailure
  {
  }

  /** What the opening of a rollback leaves is resumable if what it found was. */
  lemma StillResumes(before: Disk, after: Disk)
    requires |before.entries| > 0 && |after.entries| > 0 && Resumes(before)
    requires Current(after) == if Current(before) == Authenticated then CriticalFailure else Current(before)
    ensures RollbackResumeAction(Current(after)) != Refuse
  {
  }

  lemma NoEntryNoCompletion(pids: nat -> nat, d: Disk)
    requires |d.entries| > 0
    ensures RollbackCompletes(pids, d) ==> MayEnter(d)
  {
  }

  /** The opening of a rollback does not change whether it can complete. */
  lemma CompletesOnceEntered(pids: nat -> nat, before: Disk, after: Disk)
    requires |before.entries| > 0 && |after.entries| > 0 && after.starts == before.starts
    requires Current(after) == if Current(before) == Authenticated then CriticalFailure else Current(before)
    requires Intents(after.entries) == Intents(before.entries) && MayEnter(before)
    ensures RollbackCompletes(pids, before) <==>
            && RollbackResumeAction(Current(after)) != Refuse
            && MayComplete(pids, after.starts, Current(after), after.entries)
  {
    hide Intents, Reloadable, CanRestart;
  }

  predicate Plans(d: Disk, plan: Plan)
    requires |d.entries| > 0
  {
    RecoveryPlan(Current(d), d.image) == plan
  }

  /** Exactly when an uninterrupted, undisturbed recovery reaches a terminal state. */
  predicate RecoveryCompletes(pids: nat -> nat, d: Disk)
    requires |d.entries| > 0
  {
    && d.pending != Stuck && !Plans(d, Reject)
    && (Plans(d, ResumeRollback) ==> RollbackCompletes(pids, d))
  }

  lemma CanRead(pids: nat -> nat, starts: nat)
    ensures CanRestart(pids, starts) ==> Readable(pids, starts)
  {
  }

  lemma CommittedIsRefused()
    ensures RollbackResumeAction(Committed) == Refuse && IsTerminal(Committed)
  {
  }

  /** Before any rollback the transaction itself has restarted coreaudiod at most once. */
  lemma ForwardStarts(d: Disk)
    requires Consistent(d) && IsForward(Current(d))
    ensures d.starts == d.base + d.outside + Bit(d.termed)
  {
    hide SlotsAgree, PairAgrees, AllBracketed, LegalHistory, Intents;
  }

  /** Exactly when the forward run's own rollback gets through. */
  lemma ForwardRollsBack(pids: nat -> nat, d: Disk)
    requires Consistent(d) && d.image.Some? && IsForward(Current(d))
    requires Current(d) != Begun && Current(d) != Authenticated
    ensures RollbackCompletes(pids, d) <==>
            d.pending != Stuck && Current(d) != Committed && CanRestart(pids, d.starts)
  {
    hide SlotsAgree, PairAgrees, AllBracketed, LegalHistory, Intents, Accounts, CanRestart;
  }

  lemma StopIntentAgrees(d: Disk)
    requires Consistent(d) && Current(d) == Authenticated
    ensures PairAgrees(Before(d), Authenticated, Some(HostStopInitiated), d.rollbacks, d.lagged)
  {
    hide Accounts, RestartsAgree, AllBracketed, LegalHistory, Intents, SlotsAgree, OneRecordPast;
  }

  lemma OnlyLaggedIsRejected(d: Disk)
    requires Consistent(d)
    ensures Plans(d, Reject) ==> d.lagged
  {
    hide Accounts, RestartsAgree, AllBracketed, LegalHistory, Intents, SlotsAgree, RecoveryPlan, OneRecordPast;
  }

  /** Before the first rollback recovery always has a plan. */
  lemma ForwardHasPlan(d: Disk)
    requires Consistent(d) && d.rollbacks <= 1
    ensures !Plans(d, Reject)
  {
    hide Accounts, RestartsAgree, AllBracketed, LegalHistory, Intents, SlotsAgree, RecoveryPlan, Lags;
  }

  /** Once the image has been written for the last record, nothing lags. */
  lemma SyncedPair(s: State)
    ensures !Lags(s, Some(s))
    ensures IsBack(s) ==> RecoveryPlan(s, Some(s)) == ResumeRollback
    ensures IsBack(s) || s == RolledBack || s == CriticalFailure ==> RecoveryPlan(s, Some(s)) != Reject
  {
  }

  /** What recovery has a plan for is resumable wherever a rollback continues. */
  lemma PlannedIsResumable(s: State, image: Option<State>)
    ensures RecoveryPlan(s, image) != Reject && IsBack(s) ==> RecoveryPlan(s, image) == ResumeRollback
  {
  }

  lemma LoggedIsSynced(d: Disk, e: Entry)
    requires IsBack(e.state) || e.state == RolledBack || e.state == CriticalFailure
    ensures var after := Appended(d, e).(image := Some(e.state));
            && Current(after) == e.state && !Plans(after, Reject) && !Lags(e.state, after.image)
            && (IsBack(e.state) ==> Plans(after, ResumeRollback))
  {
    hide IsBack, RecoveryPlan, Lags;
    SyncedPair(e.state);
  }

  lemma AuthenticatedMayFail(d: Disk)
    requires Consistent(d) && d.rollbacks >= 1 && Current(d) == Authenticated && d.image == Some(HostStopInitiated)
    ensures Fits(d, Plain(CriticalFailure)) && ValidTransition(Authenticated, CriticalFailure)
  {
    hide Accounts, RestartsAgree, AllBracketed, LegalHistory, Intents;
  }

  lemma PrestopFits(d: Disk)
    requires Consistent(d) && RecoveryPlan(Current(d), d.image) == PrestopPreserveHost
    ensures Current(d) == Begun || Current(d) == Authenticated || Current(d) == PrestopAborted
    ensures Current(d) != PrestopAborted ==>
      ValidTransition(Current(d), PrestopAborted) && Fits(d, Plain(PrestopAborted))
  {
    hide Accounts, AllBracketed, LegalHistory, Intents;
  }

  lemma PrestopImage(d: Disk)
    requires Consistent(d) && Current(d) == PrestopAborted
    ensures PairAgrees(Before(d), PrestopAborted, Some(PrestopAborted), d.rollbacks, d.lagged)
  {
    hide Accounts, RestartsAgree, AllBracketed, LegalHistory, Intents, SlotsAgree;
  }

  /** Nothing that precedes the stop intent is ever without a plan. */
  lemma PrestopHasPlan(d: Disk)
    requires Consistent(d)
    ensures Current(d) == Begun || Current(d) == Authenticated || Current(d) == PrestopAborted ==> !Plans(d, Reject)
  {
    hide Accounts, RestartsAgree, AllBracketed, Intents, SlotsAgree;
    var states := States(d.entries);
    if |states| >= 2 {
      assert ValidTransition(states[|states| - 2], states[|states| - 1]);
    }
  }

  lemma TerminalImage(d: Disk)
    requires Consistent(d) && (Current(d) == Committed || Current(d) == RolledBack)
    ensures PairAgrees(Before(d), Current(d), Some(Current(d)), d.rollbacks, d.lagged)
  {
    hide Accounts, RestartsAgree, AllBracketed, LegalHistory, Intents, SlotsAgree;
  }

  lemma PlanFits(d: Disk)
    requires |d.entries| > 0
    ensures Plans(d, RepairCommittedState) || Plans(d, ReportCommitted) ==> Current(d) == Committed
    ensures Plans(d, RepairRolledBackState) || Plans(d, ReportRolledBack) ==> Current(d) == RolledBack
    ensures Plans(d, ReportPrestopAborted) ==> Current(d) == PrestopAborted && d.image == Some(PrestopAborted)
    ensures Plans(d, ResumeRollback) ==>
      d.image.Some? && CrashCoherent(Current(d), d.image.value) && Current(d) != RolledBack
  {
  }

  /** The slots of a rollback always lead to the same place. */
  predicate SameGoal(before: Slots, after: Slots) {
    if Arranged(before) then Arranged(after) && Restored(after) == Restored(before) else after == before
  }

  lemma ContinueMeans(d: Disk)
    requires Consistent(d) && RollbackResumeAction(Current(d)) == ContinueRecovery
    ensures AfterRollbackReload(Current(d)) ==> Current(d) == RollbackCoreAudioReloaded
    ensures Arranged(d.slots)
    ensures IsBack(Current(d)) ==> InRestore(Current(d))
    ensures Current(d) == RollbackCoreAudioReloadInitiated ==> IsBack(Current(d))
    ensures Current(d) == RollbackCoreAudioReloaded ==> IsBack(Current(d))
  {
    hide Accounts, RestartsAgree, AllBracketed, LegalHistory, Intents, PairAgrees;
  }

  lemma ActionMeans(s: State)
    ensures RollbackResumeAction(s) == AlreadyComplete <==> s == RolledBack
    ensures RollbackResumeAction(s) == FinalizePreservingHost <==> s == HostRebootstrapped
    ensures RollbackResumeAction(s) == ContinueRecovery ==> s != PrestopAborted
    ensures s == HostRebootstrapped || s == RolledBack ==> AfterRollbackReload(s) && !IsForward(s)
  {
  }

  lemma TerminalEnds(s: State)
    ensures IsTerminal(s) ==> s != CriticalFailure && !ValidTransition(s, CriticalFailure)
  {
  }

  lemma FailureFits(d: Disk)
    requires Consistent(d) && d.rollbacks >= 1 && Current(d) != Authenticated
    ensures ValidTransition(Current(d), CriticalFailure) ==> Fits(d, Plain(CriticalFailure))
  {
    hide Accounts, RestartsAgree, AllBracketed, Intents, RecoveryPlan, ValidTransition;
    assert |d.entries| > 0;
    hide LegalHistory;
    if ValidTransition(Current(d), CriticalFailure) {
      if RecoveryPlan(Current(d), d.image) == Reject {
        LaggedPairMayFail(Before(d), d.image);
      } else {
        PlannedPairMayFail(Current(d), d.image);
      }
      FailureRestarts(d);
      hide Lags, OneRecordPast;
    }
  }

  lemma FailureRestarts(d: Disk)
    requires |d.entries| > 0 && SlotsAgree(Current(d), d.slots, d.hostUp)
    requires ValidTransition(Current(d), CriticalFailure) && Current(d) != Authenticated
    ensures SlotsAgree(CriticalFailure, d.slots, d.hostUp) && RestartFits(d, Plain(CriticalFailure))
  {
  }

  lemma PlannedPairMayFail(s: State, image: Option<State>)
    requires RecoveryPlan(s, image) != Reject && ValidTransition(s, CriticalFailure) && s != Authenticated
    ensures RecoveryPlan(CriticalFailure, image) != Reject
  {
  }

  lemma LaggedPairMayFail(before: State, image: Option<State>)
    requires RecoveryPlan(before, image) == ResumeRollback && Lags(before, image)
    ensures RecoveryPlan(CriticalFailure, image) != Reject
  {
  }

  lemma FailureImageAgrees(d: Disk, memory: State)
    requires Consistent(d) && d.rollbacks >= 1 && memory == CriticalFailure
    requires memory == Current(d) || (|d.entries| >= 2 && memory == d.entries[|d.entries| - 2].state)
    ensures PairAgrees(Before(d), Current(d), Some(CriticalFailure), d.rollbacks, d.lagged)
  {
    hide Accounts, RestartsAgree, AllBracketed, Intents, SlotsAgree;
    if memory != Current(d) {
      var states := States(d.entries);
      assert ValidTransition(states[|states| - 2], states[|states| - 1]);
    }
  }

  /** The running coreaudiod has a generation that can be read. */
  predicate Readable(pids: nat -> nat, starts: nat) {
    ValidGeneration(Generation(pids(starts), starts))
  }

  /** The world lets the next start of coreaudiod be told from the running one. */
  predicate CanRestart(pids: nat -> nat, starts: nat) {
    Readable(pids, starts) && Readable(pids, starts + 1) && pids(starts + 1) != pids(starts)
  }

  /** An uninterrupted run can bring the journalled intent to its end. */
  predicate Reloadable(pids: nat -> nat, starts: nat, intent: Option<Generation>) {
    var current := Generation(pids(starts), starts);
    && intent.Some? && Readable(pids, starts)
    && ((current == intent.value && CanRestart(pids, starts)) || ExactSuccessor(intent.value, current))
  }

  /** Whether an uninterrupted, undisturbed rollback gets through from here. */
  predicate MayComplete(pids: nat -> nat, starts: nat, state: State, entries: seq<Entry>) {
    if AfterRollbackReload(state) then true
    else if state == RollbackCoreAudioReloadInitiated then Reloadable(pids, starts, ExactIntent(entries))
    else Intents(entries) == [] && CanRestart(pids, starts)
  }

  /** Restoring the driver does not change whether the rollback can complete. */
  lemma RestoreKeepsCompletion(pids: nat -> nat, starts: nat, state: State, before: seq<Entry>, after: seq<Entry>)
    requires Intents(after) == Intents(before) && InRestore(state)
    ensures MayComplete(pids, starts, if IsLate(state) then state else PriorDriverRestored, after) <==>
            MayComplete(pids, starts, state, before)
  {
    hide Intents, Reloadable, CanRestart, ExactIntent;
    ExactIntentIs(after, before);
  }

  lemma FreshIntentReloads(pids: nat -> nat, starts: nat)
    ensures Reloadable(pids, starts, Some(Generation(pids(starts), starts))) <==> CanRestart(pids, starts)
    ensures CanRestart(pids, starts) ==> Readable(pids, starts)
    ensures !Reloadable(pids, starts, None)
  {
  }

  lemma RollbackMayFinish(pids: nat -> nat, d: Disk)
    requires Consistent(d)
    ensures Current(d) == RollbackCoreAudioReloaded ==>
      && SlotsAgree(RollbackCoreAudioReloaded, d.slots, true)
      && FitsBack(pids, d.(hostUp := true), Plain(HostRebootstrapped))
    ensures Current(d) == HostRebootstrapped ==> FitsBack(pids, d, Plain(RolledBack))
  {
    hide Accounts, RestartsAgree, AllBracketed, LegalHistory, Intents, PairAgrees;
  }

  lemma HostMayStop(d: Disk)
    requires Consistent(d) && InRestore(Current(d))
    ensures SlotsAgree(Current(d), d.slots, false)
  {
    hide Accounts, RestartsAgree, AllBracketed, LegalHistory, Intents, PairAgrees;
  }

  lemma InRestoreIsEarlyOrLate(s: State)
    requires InRestore(s)
    ensures IsLate(s) || s == RollbackStarted || s == FailedDriverArchived
  {
  }

  lemma OneIntent(before: seq<Generation>, intent: Generation, entries: seq<Entry>)
    requires Intents(entries) == before + [intent]
    ensures ExactIntent(entries) == if before == [] then Some(intent) else None
  {
  }

  lemma ExactIntentIs(a: seq<Entry>, b: seq<Entry>)
    ensures Intents(a) == Intents(b) ==> ExactIntent(a) == ExactIntent(b)
    ensures ExactIntent(a).Some? ==> Intents(a) == [ExactIntent(a).value]
  {
  }

  lemma LateIsNotA(s: State)
    ensures IsLate(s) ==> s != Authenticated && IsBack(s)
  {
  }

  lemma IntentFits(pids: nat -> nat, d: Disk, e: Entry)
    requires Consistent(d) && Current(d) == PriorDriverRestored
    requires e.state == RollbackCoreAudioReloadInitiated && e.before == Generation(pids(d.starts), d.starts)
    requires Readable(pids, d.starts)
    ensures FitsBack(pids, d, e)
  {
    hide Accounts, RestartsAgree, AllBracketed, LegalHistory, Intents, PairAgrees;
  }

  lemma ReloadFits(pids: nat -> nat, d: Disk, e: Entry)
    requires Consistent(d) && Current(d) == RollbackCoreAudioReloadInitiated
    requires e.state == RollbackCoreAudioReloaded && ExactIntent(d.entries) == Some(e.before)
    requires ExactSuccessor(e.before, e.after) && e.before.runs < d.starts && ValidGeneration(e.after)
    ensures FitsBack(pids, d, e)
  {
    hide Accounts, LegalHistory, PairAgrees, ExactSuccessor;
    IntentsAreValid(d.entries);
    assert e.before in Intents(d.entries);
  }

  /** The journalled intent never names a later start than the running one. */
  lemma IntentIsPast(d: Disk)
    requires Consistent(d) && ExactIntent(d.entries).Some?
    ensures ExactIntent(d.entries).value.runs <= d.starts
  {
    hide RestartsAgree, AllBracketed, LegalHistory, PairAgrees, SlotsAgree;
  }

  lemma RestoredFits(pids: nat -> nat, d: Disk)
    requires |d.entries| > 0 && (d.slots == ORIGINAL || d.slots == RESTORED)
    requires Current(d) == RollbackStarted || Current(d) == FailedDriverArchived
    ensures FitsBack(pids, d, Plain(PriorDriverRestored))
  {
  }

  predicate IsBack(s: State) {
    || s == RollbackStarted || s == FailedDriverArchived || s == PriorDriverRestored
    || s == RollbackCoreAudioReloadInitiated || s == RollbackCoreAudioReloaded || s == HostRebootstrapped
  }

  /** The states in which the driver may still have to be restored. */
  predicate InRestore(s: State) {
    IsBack(s) && s != HostRebootstrapped
  }

  /** The records a rollback adds are those of `LagsIff`. */
  lemma BackRecords(from: State, to: State)
    requires IsBack(from) && ValidTransition(from, to)
    ensures to !in FORWARD && to != PrestopAborted && to != Authenticated
    ensures HasImage(to)
  {
  }

  lemma BackStates(from: State, to: State)
    requires IsBack(from) && ValidTransition(from, to) && to != CriticalFailure
    ensures IsBack(to) || to == RolledBack
  {
  }

  /** What the next record of the way back must bring along. */
  predicate FitsBack(pids: nat -> nat, d: Disk, e: Entry)
    requires |d.entries| > 0
  {
    && IsBack(Current(d)) && ValidTransition(Current(d), e.state) && e.state != CriticalFailure
    && SlotsAgree(e.state, d.slots, d.hostUp) && RestartFits(d, e)
    && (e.state == RollbackCoreAudioReloadInitiated ==> e.before.pid == pids(e.before.runs))
  }

  lemma FitsOnTheWayBack(pids: nat -> nat, d: Disk, e: Entry)
    requires |d.entries| > 0 && FitsBack(pids, d, e)
    ensures IsBack(Current(d))
  {
  }

  lemma BackFits(pids: nat -> nat, d: Disk, e: Entry)
    requires Consistent(d) && d.rollbacks >= 1 && FitsBack(pids, d, e)
    requires Plans(d, ResumeRollback) && (!d.lagged ==> !Lags(Current(d), d.image))
    ensures Fits(d, e) && HasImage(e.state) && e.state != Authenticated && Current(d) != Authenticated
    ensures IsBack(Current(d)) && ValidTransition(Current(d), e.state)
    ensures IsBack(e.state) || e.state == RolledBack
    ensures e.state == RollbackCoreAudioReloadInitiated ==> e.before.pid == pids(e.before.runs)
  {
    hide SlotsAgree, RestartFits, RecoveryPlan, Lags, Accounts, RestartsAgree, AllBracketed, ValidTransition;
    BackRecords(Current(d), e.state);
    BackStates(Current(d), e.state);
    LagsIff(Current(d), e.state, d.image);
  }

  /** Wherever a rollback may begin, its first record fits. */
  lemma StartFits(d: Disk)
    requires Consistent(d) && d.rollbacks >= 1 && RollbackResumeAction(Current(d)) == ContinueRecovery
    requires !Plans(d, Reject) && (!d.lagged ==> !Lags(Current(d), d.image))
    ensures !IsBack(Current(d)) ==> Fits(d, Plain(RollbackStarted)) && ValidTransition(Current(d), RollbackStarted)
    ensures Current(d) != Authenticated
  {
    hide Accounts, RestartsAgree, AllBracketed, LegalHistory, Intents;
  }

  lemma SlotsOfRestore(d: Disk)
    requires Consistent(d) && InRestore(Current(d))
    ensures Arranged(d.slots)
    ensures d.slots.canonical == Candidate ==> Current(d) == RollbackStarted && d.slots == SWAPPED
    ensures d.slots.canonical == Candidate ==> SlotsAgree(Current(d), ARCHIVED, false)
    ensures d.slots.canonical == NoDriver ==>
      Current(d) in {RollbackStarted, FailedDriverArchived} && SlotsAgree(Current(d), Restored(d.slots), false)
  {
    hide Accounts, RestartsAgree, AllBracketed, LegalHistory, Intents, PairAgrees;
  }

  /** The old driver is on record as restored. */
  predicate IsLate(s: State) {
    s == PriorDriverRestored || s == RollbackCoreAudioReloadInitiated || s == RollbackCoreAudioReloaded
  }

  lemma ArchivedFits(pids: nat -> nat, d: Disk)
    requires |d.entries| > 0 && d.slots == ARCHIVED && Current(d) == RollbackStarted
    ensures FitsBack(pids, d, Plain(FailedDriverArchived))
  {
  }

  /** The states a state image is ever written for. */
  predicate HasImage(s: State) {
    s != Begun && s != PriorDriverRetained
  }

  lemma ImageFollows(before: State, s: State, image: Option<State>, rollbacks: nat, lagged: bool)
    requires HasImage(s) && PairAgrees(before, s, image, rollbacks, lagged)
    ensures PairAgrees(before, s, Some(s), rollbacks, lagged)
  {
    OwnImage(s);
    hide RecoveryPlan, OneRecordPast, HasImage;
  }

  lemma ImageFitsToo(d: Disk, e: Entry)
    requires |d.entries| > 0 && Fits(d, e) && HasImage(e.state)
    ensures PairAgrees(Current(d), e.state, Some(e.state), d.rollbacks, d.lagged)
  {
    hide PairAgrees, SlotsAgree, RestartFits, HasImage;
    ImageFollows(Current(d), e.state, d.image, d.rollbacks, d.lagged);
  }

  lemma OwnImage(s: State)
    requires HasImage(s)
    ensures RecoveryPlan(s, Some(s)) != Reject
  {
  }

  /** What a forward record must bring along. */
  predicate ForwardFits(from: State, image: Option<State>, slots: Slots, hostUp: bool, termed: bool, e: Entry) {
    && IsForward(e.state)
    && SlotsAgree(e.state, slots, hostUp) && RecoveryPlan(e.state, image) != Reject
    && (BeforeReload(e.state) ==> BeforeReload(from))
    && (AfterReload(e.state) ==> termed)
    && Carries(e)
    && (e.state == CoreAudioReloaded ==> ExactSuccessor(e.before, e.after))
  }

  lemma StopIntentFits(termed: bool)
    ensures ForwardFits(Authenticated, Some(HostStopInitiated), ORIGINAL, true, termed, Plain(HostStopInitiated))
    ensures ValidTransition(Authenticated, HostStopInitiated)
  {
  }

  lemma AuthenticatedFits(e: Entry, termed: bool)
    requires e.state == Authenticated && ValidGeneration(e.before)
    ensures ForwardFits(Begun, None, ORIGINAL, true, termed, e)
    ensures ValidTransition(Begun, Authenticated) && HasImage(Authenticated)
  {
  }

  lemma ForwardFit(d: Disk, e: Entry)
    requires Consistent(d) && ForwardFits(Current(d), d.image, d.slots, d.hostUp, d.termed, e)
    requires d.rollbacks == 0
    ensures Fits(d, e) && e.state != RollbackCoreAudioReloadInitiated
  {
    hide SlotsAgree, Accounts, AllBracketed, LegalHistory, RecoveryPlan, ExactSuccessor, Intents, ExactIntent;
  }

  lemma NotTermedYet(d: Disk)
    requires Consistent(d)
    ensures BeforeReload(Current(d)) ==> !d.termed
  {
    hide SlotsAgree, PairAgrees, Accounts, AllBracketed, LegalHistory, Intents;
  }

  lemma FitsReconciled(before: Disk, after: Disk, e: Entry)
    requires after == before.(pending := after.pending) && |before.entries| > 0
    requires Consistent(after) && Fits(before, e) && ValidTransition(Current(before), e.state)
    ensures Consistent(Appended(after, e))
  {
    hide SlotsAgree, PairAgrees, Consistent, Intents, ExactSuccessor, ValidTransition;
    AppendIsConsistent(after, e);
  }

  lemma WholeIsConsistent(d: Disk)
    requires Consistent(d) && |d.entries| >= 2
    ensures Consistent(d.(pending := Whole))
  {
    hide SlotsAgree, PairAgrees, Intents, AllBracketed, LegalHistory;
  }
}
