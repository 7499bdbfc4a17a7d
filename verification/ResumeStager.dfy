/** The resume stager: it stages root files create-once, makes its intent to dispatch durable,
    and hands control to the privileged controller at most once over all of its runs. */
module ResumeStager {
  import opened Text
  import opened Faults
  import opened StageClassifier

  /** A root file: one of the staged artifacts, or the durable dispatch intent. */
  datatype File = Staged(artifact: Artifact) | Intent

  datatype PendingFile = PendingFile(bytes: string, isSealed: bool)

  /** What outlives the process. */
  datatype Disk = Disk(
    support: bool,                      // the support directory exists
    abort: bool,                        // a bootstrap-abort result stands in it
    finals: map<File, string>,
    pendings: map<File, PendingFile>,
    rootState: bool,                    // some root V2 state has appeared
    dispatches: nat,                    // how often the original controller was dispatched
    recoveries: nat                     // how often the sealed recovery controller ran
  )

  const EMPTY := Disk(false, false, map[], map[], false, 0, 0)

  /** What the world does at one point of a run.  `cut` bytes of an interrupted stream are
      written; `appears` says whether a privileged controller leaves root state behind, and `busy`
      that it failed, before any effect, because another transaction is active. */
  datatype Point = Point(step: Step, landed: bool, cut: nat, appears: bool, aborts: bool, busy: bool)

  const SMOOTH := Point(Done, true, 0, true, false, false)

  function Head(points: seq<Point>): Point {
    if points == [] then SMOOTH else points[0]
  }

  function Tail(points: seq<Point>): seq<Point> {
    if points == [] then [] else points[1..]
  }

  /** The effect of the point is durable afterwards. */
  predicate Takes(p: Point) {
    p.step.Done? || p.landed
  }

  predicate Busy(p: Point) {
    p.step.Failed? && p.busy
  }

  /** After at most `patience` attempts that find another transaction active, one gets through. */
  predicate Quiets(points: seq<Point>, patience: nat)
    decreases patience
  {
    Head(points).step.Done? || (Busy(Head(points)) && patience > 0 && Quiets(Tail(points), patience - 1))
  }

  /** The sealed controller, tried that often, gets to do its work, whatever becomes of it then. */
  predicate Reaches(points: seq<Point>, patience: nat)
    decreases patience
  {
    if Busy(Head(points)) then patience > 0 && Reaches(Tail(points), patience - 1) else Takes(Head(points))
  }

  /** All goes well up to the last of the points, which is an error. */
  predicate FailsAtLast(points: seq<Point>) {
    && |points| > 0 && points[|points| - 1].step.Failed?
    && forall i :: 0 <= i < |points| - 1 ==> points[i].step.Done?
  }

  function CutTo(bytes: string, n: nat): string {
    if n < |bytes| then bytes[..n] else bytes
  }

  // ------------------------------------------------------------------- the invariant

  /** The first `k` files are published, byte for byte, and only the next one may be pending,
      holding a prefix of its bytes. */
  ghost predicate StageAgrees(d: Disk, expected: File -> string, k: nat, partial: bool) {
    && k <= 6 && (partial ==> k < 6)
    && (k > 0 || partial ==> d.support)
    && (d.abort ==> k == 6)
    && (forall a: Artifact :: Staged(a) in d.finals <==> Place(a) < k)
    && (forall a: Artifact :: Staged(a) in d.finals ==> d.finals[Staged(a)] == expected(Staged(a)))
    && (forall a: Artifact :: Staged(a) in d.pendings <==> partial && Place(a) == k)
    && (forall a: Artifact :: Staged(a) in d.pendings ==> d.pendings[Staged(a)].bytes <= expected(Staged(a)))
  }

  predicate IntentAgrees(d: Disk, expected: File -> string) {
    && (Intent in d.finals ==> Intent !in d.pendings && d.finals[Intent] == expected(Intent))
    && (Intent in d.pendings ==> d.pendings[Intent].bytes <= expected(Intent))
  }

  /** The controller was dispatched at most once, and only behind a durable intent. */
  predicate DispatchAgrees(d: Disk) {
    d.dispatches <= 1 && (d.dispatches == 1 ==> Intent in d.finals)
  }

  ghost predicate Consistent(d: Disk, expected: File -> string, k: nat, partial: bool) {
    StageAgrees(d, expected, k, partial) && IntentAgrees(d, expected) && DispatchAgrees(d)
  }

  // ----------------------------------------------------------------------- listings

  predicate Holds(d: Disk, c: Child) {
    match c
    case Support => d.support
    case Abort => d.abort
    case Final(a) => Staged(a) in d.finals
    case Pending(a) => Staged(a) in d.pendings
  }

  /** Where a child stands: in the support directory or in its parent. */
  predicate InSupport(c: Child) {
    c == Abort || (c != Support && Place(c.artifact) < TRANSACTION)
  }

  lemma AllowedIff(c: Child)
    ensures c in ALLOWED_SUPPORT <==> InSupport(c)
    ensures c in ALLOWED_PARENT <==> !InSupport(c)
  {
  }

  function SupportDirectory(d: Disk): set<Child> {
    set c | c in ALLOWED_SUPPORT && Holds(d, c)
  }

  function ParentDirectory(d: Disk): set<Child> {
    set c | c in ALLOWED_PARENT && Holds(d, c)
  }

  /** The prefix that the published and pending files amount to. */
  function PrefixAt(d: Disk, k: nat, partial: bool): Prefix
    requires k <= 6 && (partial ==> k < 6)
  {
    if d.support then PrefixOf(k, partial) else LocatorAndEmptyControllerParent
  }

  /** Whatever order the directories are listed in, the classifier accepts every disk that a cut
      staging run can leave, and reads off exactly how far it got. */
  lemma EveryCutIsAccepted(d: Disk, expected: File -> string, k: nat, partial: bool, parent: seq<string>,
                           support: seq<string>)
    requires StageAgrees(d, expected, k, partial)
    requires Lists(parent, ParentDirectory(d)) && Lists(support, SupportDirectory(d))
    ensures Classify(parent, support) == Some(PrefixAt(d, k, partial))
  {
    hide Classify, Lists, SupportChildren, ParentChildren, PrefixOf;
    SupportIs(d, expected, k, partial);
    if d.support {
      ParentIs(d, expected, k, partial);
      NeverTheEmptyPrefix(k, partial);
      assert Stands(parent, support, PrefixOf(k, partial), k, partial);
    } else {
      NothingStaged(d, expected, k, partial);
      EmptyListing(parent);
      EmptyListing(support);
    }
    ClassifyIff(parent, support, PrefixAt(d, k, partial));
  }

  lemma NeverTheEmptyPrefix(k: nat, partial: bool)
    requires k <= 6 && (partial ==> k < 6)
    ensures PrefixOf(k, partial) != LocatorAndEmptyControllerParent
  {
  }

  lemma EmptyListing(names: seq<string>)
    requires Lists(names, {})
    ensures names == []
  {
    hide Lists;
    ListsMeans(names, {}, Support);
  }

  lemma SupportIs(d: Disk, expected: File -> string, k: nat, partial: bool)
    requires StageAgrees(d, expected, k, partial)
    ensures SupportDirectory(d) == if d.abort then SupportChildren(6, false) + {Abort} else SupportChildren(k, partial)
  {
    hide SupportChildren, Place;
    SupportMeans(k, partial);
    SupportMeans(6, false);
    var children := if d.abort then SupportChildren(6, false) + {Abort} else SupportChildren(k, partial);
    forall c: Child ensures c in SupportDirectory(d) <==> c in children {
      hide ALLOWED_SUPPORT;
      AllowedIff(c);
    }
  }

  lemma ParentIs(d: Disk, expected: File -> string, k: nat, partial: bool)
    requires StageAgrees(d, expected, k, partial) && d.support
    ensures ParentDirectory(d) == ParentChildren(k, partial)
  {
    hide ParentChildren, Place;
    ParentMeans(k, partial);
    forall c: Child ensures c in ParentDirectory(d) <==> c in ParentChildren(k, partial) {
      hide ALLOWED_PARENT;
      AllowedIff(c);
    }
  }

  lemma NothingStaged(d: Disk, expected: File -> string, k: nat, partial: bool)
    requires StageAgrees(d, expected, k, partial) && !d.support
    ensures ParentDirectory(d) == {} && SupportDirectory(d) == {}
  {
    hide Place;
    forall c: Child ensures !Holds(d, c) {
    }
  }

  // ------------------------------------------------------------------------ the stager

  class Stager {
    const expected: File -> string      // the exact bytes of every file
    const patience: nat                 // how often a busy recovery is tried again
    var disk: Disk
    var points: seq<Point>
    ghost var proved: Option<Disk>      // the world that this process last proved to be in order
    ghost var verified: Option<Disk>    // the disk whose files it last verified
    ghost var process: Process          // nothing happens once it is dead
    ghost var k: nat                    // how many artifacts are published
    ghost var partial: bool             // whether the next one is pending

    constructor (expected: File -> string, patience: nat, points: seq<Point>)
      ensures this.expected == expected && this.patience == patience && this.points == points
      ensures disk == EMPTY && proved == None && verified == None && process == BORN && Valid()
    {
      this.expected, this.patience, this.points := expected, patience, points;
      disk, k, partial, proved, verified, process := EMPTY, 0, false, None, None, BORN;
    }

    ghost predicate Valid()
      reads this
    {
      Consistent(disk, expected, k, partial)
    }

    /** A new process over the same disk. */
    method Open(points: seq<Point>)
      requires Valid()
      modifies this`points, this`proved, this`verified, this`process
      ensures this.points == points && proved == None && verified == None && process == BORN
    {
      this.points, proved, verified, process := points, None, None, BORN;
    }

    /** The process goes on, having passed `n` proofs in a step that is done, or has died. */
    twostate predicate Lives(step: Step, n: nat)
      reads this`process
    {
      MovesOn(old(process), process, step, n)
    }

    method Next() returns (p: Point)
      requires process.alive
      ensures process == old(process).(alive := !p.step.Died?)
      modifies this`points, this`process
      ensures p == Head(old(points))
      ensures points == Tail(old(points))
    {
      p := Head(points);
      points, process := Tail(points), process.(alive := !p.step.Died?);
    }

    method Checkpoint() returns (step: Step)
      requires process.alive
      modifies this`points, this`process
      ensures Lives(step, 1)
      ensures process == Process(!step.Died?, old(process).proofs + if step.Done? then 1 else 0)
      ensures step == Head(old(points)).step
      ensures points == Tail(old(points))
    {
      var p := Next();
      if p.step.Done? {
        process := process.(proofs := process.proofs + 1);
      }
      return p.step;
    }

    /** A check of files against the bytes they must have. */
    method CheckFiles() returns (step: Step)
      requires process.alive
      modifies this`points, this`process, this`verified
      ensures Lives(step, 1)
      ensures step == Head(old(points)).step && points == Tail(old(points))
      ensures verified == if step.Done? then Some(disk) else old(verified)
    {
      step := Checkpoint();
      if step.Done? {
        verified := Some(disk);
      }
    }

    /** This process has verified the complete stage. */
    ghost predicate StageVerified()
      reads this
    {
      verified.Some? && forall a: Artifact :: Staged(a) in verified.value.finals
    }

    /** What staging keeps: published files stay as they are, the prefix does not shrink, and
        nothing is dispatched. */
    twostate predicate OnlyStaged()
      reads this
    {
      && (forall f :: f in old(disk).finals ==> f in disk.finals && disk.finals[f] == old(disk).finals[f])
      && k >= old(k) && (old(disk).support ==> disk.support)
      && disk.abort == old(disk).abort && disk.rootState == old(disk).rootState
      && disk.dispatches == old(disk).dispatches && disk.recoveries == old(disk).recoveries
      && (Intent in old(disk).pendings ==> Intent in disk.pendings || Intent in disk.finals)
    }

    /** Staging an artifact leaves the dispatch intent alone. */
    twostate predicate SameIntent()
      reads this
    {
      && (Intent in disk.finals <==> Intent in old(disk).finals)
      && (Intent in disk.pendings <==> Intent in old(disk).pendings)
    }

    // ---------------------------------------------------------------- staging a file

    method CreatePending(f: File) returns (step: Step)
      requires process.alive
      requires Valid() && f !in disk.finals && f !in disk.pendings
      requires f.Staged? ==> disk.support && Place(f.artifact) == k && !partial
      modifies this`points, this`process, this`disk, this`partial
      ensures Lives(step, 0)
      ensures Valid() && OnlyStaged() && disk.finals == old(disk).finals
      ensures f.Staged? ==> SameIntent()
      ensures step.Done? ==> f in disk.pendings
      ensures f.Intent? ==> partial == old(partial)
      ensures old(points) == [] ==> step.Done? && points == []
      ensures step == Head(old(points)).step
      ensures disk ==
        if Takes(Head(old(points))) then old(disk).(pendings := old(disk).pendings[f := PendingFile("", false)])
        else old(disk)
    {
      var p := Next();
      if Takes(p) {
        PendingFits(disk, expected, k, partial, f, PendingFile("", false));
        disk := disk.(pendings := disk.pendings[f := PendingFile("", false)]);
        partial := partial || f.Staged?;
      }
      return p.step;
    }

    /** `tee` truncates the pending file and writes it anew; a stop leaves a prefix of it. */
    method StreamPending(f: File) returns (step: Step)
      requires process.alive
      requires Valid() && f in disk.pendings
      modifies this`points, this`process, this`disk
      ensures Lives(step, 0)
      ensures Valid() && OnlyStaged() && disk.finals == old(disk).finals && f in disk.pendings
      ensures f.Staged? ==> SameIntent()
      ensures step.Done? ==> disk.pendings[f].bytes == expected(f)
      ensures old(points) == [] ==> step.Done? && points == []
      ensures step == Head(old(points)).step
      ensures var p, before := Head(old(points)), old(disk).pendings[f];
        disk.pendings[f] == before.(bytes :=
          if step.Done? then expected(f) else if p.landed then CutTo(expected(f), p.cut) else before.bytes)
    {
      var p := Next();
      var before := disk.pendings[f];
      var bytes := if p.step.Done? then expected(f) else if p.landed then CutTo(expected(f), p.cut) else before.bytes;
      PendingBytesFit(disk, expected, k, partial, f);
      PendingFits(disk, expected, k, partial, f, PendingFile(bytes, before.isSealed));
      disk := disk.(pendings := disk.pendings[f := PendingFile(bytes, before.isSealed)]);
      return p.step;
    }

    method SealPending(f: File) returns (step: Step)
      requires process.alive
      requires f in disk.pendings && disk.pendings[f].bytes == expected(f)
      requires Valid() && f in disk.pendings
      modifies this`points, this`process, this`disk
      ensures Lives(step, 0)
      ensures Valid() && OnlyStaged() && disk.finals == old(disk).finals && f in disk.pendings
      ensures f.Staged? ==> SameIntent()
      ensures disk.pendings[f].bytes == old(disk).pendings[f].bytes
      ensures step.Done? ==> disk.pendings[f].isSealed
      ensures old(points) == [] ==> step.Done? && points == []
      ensures step == Head(old(points)).step
      ensures disk.pendings[f].isSealed == (Takes(Head(old(points))) || old(disk).pendings[f].isSealed)
    {
      var p := Next();
      if Takes(p) {
        var after := disk.pendings[f].(isSealed := true);
        PendingBytesFit(disk, expected, k, partial, f);
        PendingFits(disk, expected, k, partial, f, after);
        disk := disk.(pendings := disk.pendings[f := after]);
      }
      return p.step;
    }

    /** `mv -n`: never replaces a published file. */
    method PublishPending(f: File) returns (step: Step)
      requires process.alive
      requires Valid() && f in disk.pendings && disk.pendings[f].isSealed && disk.pendings[f].bytes == expected(f)
      modifies this`points, this`process, this`disk, this`k, this`partial
      ensures Lives(step, 0)
      ensures Valid() && OnlyStaged()
      ensures f.Staged? ==> SameIntent()
      ensures step.Done? ==> f in disk.finals && f !in disk.pendings
      ensures old(points) == [] ==> step.Done? && points == []
      ensures step == Head(old(points)).step
      ensures disk ==
        if Takes(Head(old(points)))
        then old(disk).(finals := old(disk).finals[f := expected(f)], pendings := old(disk).pendings - {f})
        else old(disk)
    {
      var p := Next();
      if f in disk.finals {
        return Failed;
      }
      if Takes(p) {
        PublicationFits(disk, expected, k, partial, f);
        disk := disk.(finals := disk.finals[f := disk.pendings[f].bytes], pendings := disk.pendings - {f});
        if f.Staged? {
          k, partial := k + 1, false;
        }
      }
      return p.step;
    }

    /** `sudo_stream_root_file_create_once` */
    method StreamOnce(f: File) returns (step: Step)
      requires process.alive
      requires Valid() && (f.Staged? ==> disk.support && Place(f.artifact) <= k)
      modifies this`points, this`process, this`verified, this`disk, this`k, this`partial
      ensures Lives(step, 1)
      ensures Valid() && OnlyStaged()
      ensures f.Staged? ==> SameIntent()
      ensures step.Done? ==> f in disk.finals && f !in disk.pendings
      ensures old(points) == [] ==> step.Done? && points == []
      ensures step.Done? ==> verified == Some(disk)
    {
      hide Consistent;
      FileIsSomewhere(disk, expected, k, partial, f);
      if f in disk.finals {
        if f in disk.pendings || disk.finals[f] != expected(f) {
          return Failed;
        }
        step := CheckFiles();
        return;
      }
      if f !in disk.pendings {
        :- CreatePending(f);
      }
      step := CompletePending(f);
    }

    /** The pending file, written and sealed. */
    method RewritePending(f: File) returns (step: Step)
      requires process.alive
      requires Valid() && f in disk.pendings
      modifies this`points, this`process, this`disk
      ensures Lives(step, 0)
      ensures Valid() && OnlyStaged() && disk.finals == old(disk).finals && f in disk.pendings
      ensures f.Staged? ==> SameIntent()
      ensures step.Done? ==> disk.pendings[f].bytes == expected(f) && disk.pendings[f].isSealed
      ensures old(points) == [] ==> step.Done? && points == []
    {
      hide Consistent;
      :- StreamPending(f);
      step := SealPending(f);
    }

    method CompletePending(f: File) returns (step: Step)
      requires process.alive
      requires Valid() && f in disk.pendings
      modifies this`points, this`process, this`verified, this`disk, this`k, this`partial
      ensures Lives(step, 1)
      ensures Valid() && OnlyStaged()
      ensures f.Staged? ==> SameIntent()
      ensures step.Done? ==> f in disk.finals && f !in disk.pendings
      ensures old(points) == [] ==> step.Done? && points == []
      ensures step.Done? ==> verified == Some(disk)
    {
      hide Consistent;
      PendingBytesFit(disk, expected, k, partial, f);
      if !(disk.pendings[f].bytes <= expected(f)) {
        return Failed;
      }
      :- RewritePending(f);
      if !disk.pendings[f].isSealed || disk.pendings[f].bytes != expected(f) {
        return Failed;
      }
      :- PublishPending(f);
      step := CheckFiles();
    }

    /** `verify_privileged_partial_root_stage`: lists the directories, in any order, and checks
        every file. */
    method VerifyStage() returns (step: Step, prefix: Prefix)
      requires process.alive
      requires Valid()
      modifies this`points, this`process, this`verified
      ensures Lives(step, 1)
      ensures step.Done? ==> prefix == PrefixAt(disk, k, partial)
      ensures old(points) == [] ==> step.Done? && points == []
      ensures step.Done? ==> verified == Some(disk)
    {
      hide Consistent, Lists, Classify, AllVerified, PrefixAt;
      var parent := ListChildren(ParentDirectory(disk));
      var support := ListChildren(SupportDirectory(disk));
      ConsistentStage(disk, expected, k, partial);
      EveryCutIsAccepted(disk, expected, k, partial, parent, support);
      FilesAreVerified(disk, expected, k, partial, parent, support);
      var found := ClassifyStage(parent, support, VerifiedFiles(disk, expected), true, true);
      if found.None? {
        return Failed, Complete;
      }
      step := CheckFiles();
      prefix := found.value;
    }

    method CreateSupport() returns (step: Step)
      requires process.alive
      requires Valid()
      modifies this`points, this`process, this`disk
      ensures Lives(step, 1)
      ensures Valid() && OnlyStaged() && SameIntent()
      ensures step.Done? ==> disk.support
      ensures old(points) == [] ==> step.Done? && points == []
      ensures disk == old(disk).(support := old(disk).support || Takes(Head(old(points))))
    {
      if !disk.support {
        var p := Next();
        if Takes(p) {
          disk := disk.(support := true);
        }
        if !p.step.Done? {
          return p.step;
        }
      }
      step := Checkpoint();
    }

    /** One file of the stage, and the stage verified behind it. */
    method StageArtifact(i: nat) returns (step: Step)
      requires process.alive
      requires Valid() && i < 6 && disk.support && k >= i
      modifies this`points, this`process, this`verified, this`disk, this`k, this`partial
      ensures Lives(step, 2)
      ensures Valid() && OnlyStaged() && SameIntent()
      ensures step.Done? ==> k >= i + 1
      ensures old(points) == [] ==> step.Done? && points == []
      ensures step.Done? ==> verified == Some(disk)
    {
      hide Consistent, PrefixAt;
      assert Place(ARTIFACTS[i]) == i;
      :- StreamOnce(Staged(ARTIFACTS[i]));
      PublishedMeansPlace(disk, expected, k, partial, ARTIFACTS[i]);
      var prefix;
      step, prefix := VerifyStage();
    }

    /** `stage_original_v2_root_controller`: from wherever an earlier run stopped, one
        uninterrupted run completes the stage. */
    method Stage() returns (step: Step)
      requires process.alive
      requires Valid()
      modifies this`points, this`process, this`verified, this`disk, this`k, this`partial
      ensures Lives(step, 15)
      ensures Valid() && OnlyStaged() && SameIntent()
      ensures step.Done? ==> k == 6 && disk.support
      ensures old(points) == [] ==> step.Done? && points == []
      ensures step.Done? ==> verified == Some(disk)
    {
      hide Consistent, PrefixAt;
      var prefix;
      step, prefix := VerifyStage();
      if !step.Done? {
        return;
      }
      :- CreateSupport();
      for i := 0 to 6
        invariant Valid() && OnlyStaged() && SameIntent() && disk.support && k >= i
        invariant old(points) == [] ==> points == []
        invariant process.alive && process.proofs >= old(process.proofs) + 2 + 2 * i
      {
        :- StageArtifact(i);
      }
      step, prefix := VerifyStage();
      if !step.Done? {
        return;
      }
      CompleteIsSix(disk, expected, k, partial);
      if prefix != Complete {
        return Failed;
      }
    }

    // -------------------------------------------------------------------- dispatching

    /** `classify_dispatch_or_recovery_state` */
    method ClassifyState() returns (step: Step, disposition: Disposition)
      requires process.alive
      requires Valid()
      modifies this`points, this`process
      ensures Lives(step, 1)
      ensures step.Done? ==> (disposition == RecoveryOnly <==> IsRecoveryOnly(disk))
      ensures old(points) == [] ==> step.Done? && points == []
    {
      IntentIsConsistent(disk, expected, k, partial);
      hide Consistent;
      disposition := RecoveryOnly;
      var canonical, pending := Intent in disk.finals, Intent in disk.pendings;
      if ClassifyDispatch(canonical, pending, false).None? {
        return Failed, disposition;
      }
      if canonical {
        if disk.finals[Intent] != expected(Intent) {
          return Failed, disposition;
        }
        disposition := ClassifyDispatch(true, false, false).value;
      } else if pending {
        if !(disk.pendings[Intent].bytes <= expected(Intent)) {
          return Failed, disposition;
        }
        disposition := ClassifyDispatch(false, true, false).value;
      } else {
        disposition := ClassifyDispatch(false, false, disk.rootState).value;
      }
      step := Checkpoint();
    }

    /** `publish_resume_dispatch_intent` */
    method PublishIntent() returns (step: Step)
      requires process.alive
      requires Valid()
      modifies this`points, this`process, this`verified, this`disk, this`k, this`partial
      ensures Lives(step, 1)
      ensures Valid() && OnlyStaged()
      ensures step.Done? ==> Intent in disk.finals
      ensures old(points) == [] ==> step.Done? && points == []
      ensures old(StageVerified()) && old(k) == 6 && step.Done? ==> StageVerified()
    {
      IntentIsConsistent(disk, expected, k, partial);
      hide Consistent;
      if Intent in disk.finals {
        if Intent in disk.pendings || disk.finals[Intent] != expected(Intent) {
          return Failed;
        }
        step := Checkpoint();
        return;
      }
      if Intent in disk.pendings && !(disk.pendings[Intent].bytes <= expected(Intent)) {
        return Failed;
      }
      step := StreamOnce(Intent);
    }

    /** Runs a privileged controller, which may leave root state and an abort result behind. */
    twostate predicate OnlyControlled()
      reads this
    {
      && disk == old(disk).(rootState := disk.rootState, abort := disk.abort, dispatches := disk.dispatches,
                            recoveries := disk.recoveries)
      && k == old(k) && partial == old(partial) && (old(disk).rootState ==> disk.rootState)
    }

    /** The one-shot dispatch.  It is only ever issued with the intent durable, no root state in
        sight, and no earlier dispatch. */
    method DispatchOriginal() returns (step: Step)
      requires process.alive
      requires StageVerified()
      requires Valid() && k == 6 && Intent in disk.finals && !disk.rootState && disk.dispatches == 0
      modifies this`points, this`process, this`disk
      ensures Lives(step, 0)
      ensures Valid() && OnlyControlled() && disk.dispatches <= 1 && disk.recoveries == old(disk).recoveries
      ensures step.Done? ==> disk.dispatches == 1
      ensures step == Head(old(points)).step
      ensures points == Tail(old(points))
      ensures var p := Head(old(points));
        disk == if Takes(p)
                then old(disk).(dispatches := 1, rootState := p.appears, abort := old(disk).abort || p.aborts)
                else old(disk)
    {
      var p := Next();
      if Takes(p) {
        disk := disk.(dispatches := 1, rootState := p.appears, abort := disk.abort || p.aborts);
      }
      return p.step;
    }

    /** `dispatch_original_v2_controller_once` */
    method DispatchOnce() returns (step: Step)
      requires process.alive
      requires StageVerified()
      requires Valid() && k == 6 && Intent in disk.finals && disk.dispatches == 0
      modifies this`points, this`process, this`disk
      ensures Lives(step, 1)
      ensures Valid() && OnlyControlled() && disk.recoveries == old(disk).recoveries
      ensures old(disk).rootState ==> disk.dispatches == 0
      ensures step.Done? ==> !old(disk).rootState && disk.dispatches == 1
      ensures old(points) == [] ==> points == [] && (step.Done? <==> !old(disk).rootState) && !step.Died?
      ensures FailsAtLast(old(points)) && !old(disk).rootState ==>
        if step.Done? then FailsAtLast(points) && |points| + 2 == |old(points)| else step.Failed? && points == []
    {
      hide Consistent;
      :- Checkpoint();
      if disk.rootState {
        return Failed;
      }
      step := DispatchOriginal();
    }

    /** `recover_from_resume_dispatch_intent`: the sealed recovery controller, never the original.
        While another transaction is active it is tried again. */
    method RecoverSealed() returns (step: Step)
      requires process.alive
      requires StageVerified()
      requires Valid() && k == 6 && Intent in disk.finals
      modifies this`points, this`process, this`disk
      ensures Lives(step, 1)
      ensures Valid() && OnlyControlled() && disk.dispatches == old(disk).dispatches
      ensures old(disk).recoveries <= disk.recoveries <= old(disk).recoveries + 1
      ensures step.Done? ==> disk.recoveries == old(disk).recoveries + 1
      ensures step.Done? <==>
        Head(old(points)).step.Done? && Quiets(Tail(old(points)), patience)
      ensures old(points) == [] ==> points == []
    {
      hide Consistent;
      :- Checkpoint();      // the intent, the sealed controller and its pin
      step := RunSealed();
    }

    method RunSealed() returns (step: Step)
      requires process.alive
      requires StageVerified()
      requires Valid() && k == 6 && Intent in disk.finals
      modifies this`points, this`process, this`disk
      ensures Lives(step, 0)
      ensures Valid() && OnlyControlled() && disk.dispatches == old(disk).dispatches
      ensures old(disk).recoveries <= disk.recoveries <= old(disk).recoveries + 1
      ensures step.Done? ==> disk.recoveries == old(disk).recoveries + 1
      ensures step.Done? <==> Quiets(old(points), patience)
      ensures old(points) == [] ==> points == []
      ensures disk.recoveries == old(disk).recoveries + if Reaches(old(points), patience) then 1 else 0
    {
      var left := patience;
      while true
        invariant Valid() && disk == old(disk) && k == old(k) && partial == old(partial)
        invariant Quiets(points, left) == Quiets(old(points), patience)
        invariant Reaches(points, left) == Reaches(old(points), patience)
        invariant process == old(process)
        invariant old(points) == [] ==> points == []
        decreases left
      {
        var p := Next();
        if !Busy(p) {
          if Takes(p) {
            RecoveryFits(disk, expected, k, partial, disk.rootState || p.appears, disk.abort || p.aborts);
            disk := disk.(rootState := disk.rootState || p.appears, abort := disk.abort || p.aborts,
                          recoveries := disk.recoveries + 1);
          }
          return p.step;
        }
        if left == 0 {
          return Failed;
        }
        left := left - 1;
      }
    }

    /** `verify_post_dispatch_live` */
    method ProveLive() returns (step: Step)
      requires process.alive
      modifies this`points, this`process, this`proved
      ensures Lives(step, 1)
      ensures step == Head(old(points)).step
      ensures points == Tail(old(points))
      ensures proved == if step.Done? then Some(disk) else old(proved)
    {
      step := Checkpoint();
      if step.Done? {
        proved := Some(disk);
      }
    }

    method RecoverAndProve() returns (step: Step)
      requires process.alive
      requires StageVerified()
      requires Valid() && k == 6 && Intent in disk.finals
      modifies this`points, this`process, this`disk, this`proved
      ensures Lives(step, 2)
      ensures Valid() && OnlyControlled() && disk.dispatches == old(disk).dispatches
      ensures old(disk).recoveries <= disk.recoveries <= old(disk).recoveries + 1
      ensures step.Done? ==> disk.recoveries == old(disk).recoveries + 1 && proved == Some(disk)
      ensures old(points) == [] ==> step.Done? && points == []
    {
      hide Consistent;
      :- RecoverSealed();
      step := ProveLive();
    }

    /** The original controller is dispatched forward and proved, in full. */
    twostate predicate Forwarded()
      reads this
    {
      disk.dispatches == old(disk).dispatches + 1 && disk.recoveries == old(disk).recoveries
    }

    /** The sealed recovery ran, once. */
    twostate predicate Recovered()
      reads this
    {
      disk.recoveries == old(disk).recoveries + 1
    }

    /** `dispatch_or_recover_after_durable_intent` */
    method DispatchOrRecover(recoveryOnly: bool) returns (step: Step)
      requires process.alive
      requires StageVerified()
      requires Valid() && k == 6 && Intent in disk.finals
      requires !recoveryOnly ==> disk.dispatches == 0
      modifies this`points, this`process, this`disk, this`proved
      ensures Lives(step, 2)
      ensures Valid() && OnlyControlled()
      ensures old(disk).recoveries <= disk.recoveries <= old(disk).recoveries + 1
      // success is a controller that ran in this call, and the world it left proved
      ensures step.Done? ==> (Forwarded() || Recovered()) && proved == Some(disk)
      ensures recoveryOnly || old(disk).rootState ==>
        disk.dispatches == old(disk).dispatches && (step.Done? ==> Recovered())
      ensures old(points) == [] ==> step.Done? && points == []
      ensures old(points) == [] && !recoveryOnly && !old(disk).rootState ==> Forwarded()
      // an error on the way forward, up to the proof behind it, is recovered from
      ensures FailsAtLast(old(points)) && |old(points)| <= 4 && !recoveryOnly && !old(disk).rootState ==>
        step.Done? && Recovered()
    {
      hide Consistent;
      var observation := Present;
      if !recoveryOnly {
        var observed := Checkpoint();
        if observed.Died? {
          return Died;
        }
        observation := if observed.Failed? then Ambiguous else if disk.rootState then Present else Absent;
      }
      if AllowsForwardDispatch(recoveryOnly, observation) {
        var forward := DispatchOnce();
        if forward.Died? {
          return Died;
        }
        if forward.Done? {
          var live := ProveLive();
          if !live.Failed? {
            return live;
          }
        }
      }
      step := RecoverAndProve();
    }

    /** The stage is in order, and what this run may still do. */
    method Preflight() returns (step: Step, disposition: Disposition)
      requires process.alive
      requires Valid()
      modifies this`points, this`process, this`verified
      ensures Lives(step, 2)
      ensures step.Done? ==> (disposition == RecoveryOnly <==> IsRecoveryOnly(disk))
      ensures old(points) == [] ==> step.Done? && points == []
    {
      hide Consistent;
      var prefix;
      disposition := RecoveryOnly;
      step, prefix := VerifyStage();
      if !step.Done? {
        return;
      }
      step, disposition := ClassifyState();
    }

    /** The stage is complete, and still what this run made of it. */
    method VerifyComplete() returns (step: Step)
      requires process.alive
      requires Valid()
      modifies this`points, this`process, this`verified
      ensures Lives(step, 1)
      ensures step.Done? ==> k == 6
      ensures old(points) == [] && k == 6 && disk.support ==> step.Done? && points == []
      ensures step.Done? ==> verified == Some(disk)
    {
      hide PrefixAt;
      SixIsComplete(disk, expected, k, partial);
      hide Consistent;
      var prefix;
      step, prefix := VerifyStage();
      if step.Done? && prefix != Complete {
        return Failed;
      }
    }

    /** Everything before the intent: the run may dispatch only if no intent and no root state was
        there at the start. */
    method Prepare() returns (step: Step, recoveryOnly: bool)
      requires process.alive
      requires Valid()
      modifies this`points, this`process, this`verified, this`disk, this`k, this`partial
      ensures Lives(step, 21)
      ensures Valid() && OnlyStaged()
      ensures step.Done? ==> k == 6 && disk.support && recoveryOnly == old(IsRecoveryOnly(disk))
      ensures old(points) == [] ==> step.Done? && points == []
      ensures step.Done? ==> verified == Some(disk)
    {
      hide Consistent;
      var initial, again, final;
      recoveryOnly := true;
      step, initial := Preflight();
      if !step.Done? {
        return;
      }
      step := Stage();
      if !step.Done? {
        return;
      }
      step, again := Preflight();
      if !step.Done? {
        return;
      }
      step, final := ClassifyState();
      if !step.Done? {
        return;
      }
      step := VerifyComplete();
      recoveryOnly := initial == RecoveryOnly || final == RecoveryOnly;
    }

    /** `execute_authorized_resume` */
    method Execute() returns (step: Step)
      requires process.alive
      requires Valid()
      modifies this`points, this`process, this`verified, this`disk, this`k, this`partial, this`proved
      ensures Lives(step, 25)
      ensures Valid() && k >= old(k)
      ensures forall f :: f in old(disk).finals ==> f in disk.finals && disk.finals[f] == old(disk).finals[f]
      ensures old(IsRecoveryOnly(disk)) ==> IsRecoveryOnly(disk) && disk.dispatches == old(disk).dispatches
      ensures disk.dispatches != old(disk).dispatches ==>
        old(disk).dispatches == 0 && disk.dispatches == 1 && Intent in disk.finals && k == 6
      ensures old(disk).recoveries <= disk.recoveries <= old(disk).recoveries + 1
      // success is a controller that ran in this run, and the world it left proved
      ensures step.Done? ==> (Forwarded() || Recovered()) && proved == Some(disk) && k == 6 && Intent in disk.finals
      ensures old(IsRecoveryOnly(disk)) && step.Done? ==> Recovered()
      ensures old(points) == [] ==> step.Done?
      ensures old(points) == [] && !old(IsRecoveryOnly(disk)) ==> Forwarded()
      ensures step.Done? ==> verified == Some(disk)
    {
      DispatchedIsRecoveryOnly(disk, expected, k, partial);
      hide Consistent;
      var recoveryOnly;
      step, recoveryOnly := Prepare();
      if !step.Done? {
        return;
      }
      :- PublishIntent();
      SupportStays(disk, expected, k, partial);
      :- DispatchOrRecover(recoveryOnly);
      step := VerifyComplete();
    }
  }

  datatype Disposition = FreshDispatch | RecoveryOnly

  /** `classify_dispatch_observation` */
  function ClassifyDispatch(canonical: bool, pending: bool, rootState: bool): Option<Disposition> {
    if canonical && pending then None
    else if canonical || pending || rootState then Some(RecoveryOnly)
    else Some(FreshDispatch)
  }

  datatype Observation = Absent | Present | Ambiguous

  /** `durable_intent_allows_forward_dispatch` */
  predicate AllowsForwardDispatch(recoveryOnly: bool, observation: Observation) {
    !recoveryOnly && observation == Absent
  }

  /** What makes every run a recovery. */
  predicate IsRecoveryOnly(d: Disk) {
    Intent in d.finals || Intent in d.pendings || d.rootState
  }

  lemma IntentIsConsistent(d: Disk, expected: File -> string, k: nat, partial: bool)
    requires Consistent(d, expected, k, partial)
    ensures IntentAgrees(d, expected)
  {
  }

  lemma DispatchedIsRecoveryOnly(d: Disk, expected: File -> string, k: nat, partial: bool)
    requires Consistent(d, expected, k, partial)
    ensures d.dispatches <= 1 && (d.dispatches == 1 ==> IsRecoveryOnly(d))
  {
  }

  lemma SixIsComplete(d: Disk, expected: File -> string, k: nat, partial: bool)
    requires Consistent(d, expected, k, partial)
    ensures PrefixAt(d, k, partial) == Complete ==> k == 6
    ensures k == 6 && d.support ==> PrefixAt(d, k, partial) == Complete
  {
  }

  lemma SupportStays(d: Disk, expected: File -> string, k: nat, partial: bool)
    requires Consistent(d, expected, k, partial)
    ensures k > 0 ==> d.support
    ensures k <= 6
  {
  }

  // ------------------------------------------------------------------------- whole runs

  /** Any number of runs, each cut anywhere: the original controller is dispatched at most once
      in all, once some run has seen the point of no return no later one dispatches, and each run
      that reports success ran a controller of its own. */
  method AnyRuns(expected: File -> string, patience: nat, runs: seq<seq<Point>>)
    returns (stager: Stager, successes: nat)
    ensures stager.Valid() && stager.expected == expected && stager.disk.dispatches <= 1
    ensures stager.disk.dispatches == 1 ==> Intent in stager.disk.finals
    ensures successes <= stager.disk.dispatches + stager.disk.recoveries
    ensures stager.disk.recoveries <= |runs|
  {
    hide Consistent;
    stager := new Stager(expected, patience, []);
    successes := 0;
    for i := 0 to |runs|
      invariant stager.Valid() && stager.expected == expected
      invariant successes <= stager.disk.dispatches + stager.disk.recoveries && stager.disk.recoveries <= i
    {
      stager.Open(runs[i]);
      var step := stager.Execute();
      if step.Done? {
        successes := successes + 1;
      }
    }
    DispatchIsBounded(stager.disk, expected, stager.k, stager.partial);
  }

  lemma RecoveryFits(d: Disk, expected: File -> string, k: nat, partial: bool, rootState: bool, abort: bool)
    requires Consistent(d, expected, k, partial) && k == 6
    ensures Consistent(d.(rootState := rootState, abort := abort, recoveries := d.recoveries + 1), expected, k, partial)
  {
  }

  lemma DispatchIsBounded(d: Disk, expected: File -> string, k: nat, partial: bool)
    requires Consistent(d, expected, k, partial)
    ensures DispatchAgrees(d)
  {
  }

  /** Lists the children of a directory, in no particular order. */
  method ListChildren(children: set<Child>) returns (names: seq<string>)
    ensures Lists(names, children)
  {
    hide Leaf;
    names := [];
    var rest := children;
    ghost var done: set<Child> := {};
    assert Elements([]) == {} && Names({}) == {};
    while rest != {}
      invariant done + rest == children && done !! rest && Lists(names, done)
      decreases |rest|
    {
      var c :| c in rest;
      ListOneMore(names, done, c);
      names := names + [Leaf(c)];
      rest, done := rest - {c}, done + {c};
    }
    assert done == children;
  }

  lemma ListOneMore(names: seq<string>, children: set<Child>, c: Child)
    requires Lists(names, children) && c !in children
    ensures Lists(names + [Leaf(c)], children + {c})
  {
    hide Leaf;
    ListsMeans(names, children, c);
    assert Elements(names + [Leaf(c)]) == Elements(names) + {Leaf(c)};
    assert Names(children + {c}) == Names(children) + {Leaf(c)};
  }

  /** A listed file passes when its bytes are the expected ones, or a prefix while it is pending. */
  predicate Verified(d: Disk, expected: File -> string, c: Child) {
    match c
    case Final(a) => Staged(a) in d.finals && d.finals[Staged(a)] == expected(Staged(a))
    case Pending(a) => Staged(a) in d.pendings && d.pendings[Staged(a)].bytes <= expected(Staged(a))
    case _ => true
  }

  function VerifiedFiles(d: Disk, expected: File -> string): set<Child> {
    set c | c in ALLOWED_SUPPORT + ALLOWED_PARENT && Verified(d, expected, c)
  }

  lemma ConsistentStage(d: Disk, expected: File -> string, k: nat, partial: bool)
    requires Consistent(d, expected, k, partial)
    ensures StageAgrees(d, expected, k, partial)
    ensures k <= 6 && (partial ==> k < 6)
  {
  }

  lemma FilesAreVerified(d: Disk, expected: File -> string, k: nat, partial: bool, parent: seq<string>,
                         support: seq<string>)
    requires StageAgrees(d, expected, k, partial)
    requires Lists(parent, ParentDirectory(d)) && Lists(support, SupportDirectory(d))
    ensures AllVerified(parent, support, VerifiedFiles(d, expected))
    ensures !d.support ==> support == []
    ensures Has(parent, Support) <==> d.support
  {
    hide Lists, Has, Place;
    forall i | 0 <= i < 6 ensures PlaceVerified(parent, support, VerifiedFiles(d, expected), i) {
      PlaceIsVerified(d, expected, k, partial, parent, support, i);
    }
    ListsMeans(parent, ParentDirectory(d), Support);
    if !d.support {
      NothingStaged(d, expected, k, partial);
      EmptyListing(support);
    }
  }

  lemma PlaceIsVerified(d: Disk, expected: File -> string, k: nat, partial: bool, parent: seq<string>,
                        support: seq<string>, i: nat)
    requires StageAgrees(d, expected, k, partial) && i < 6
    requires Lists(parent, ParentDirectory(d)) && Lists(support, SupportDirectory(d))
    ensures PlaceVerified(parent, support, VerifiedFiles(d, expected), i)
  {
    hide Lists, Has, Place;
    var a := ARTIFACTS[i];
    ArtifactsHaveTheirPlace();
    AllowedIff(Final(a));
    AllowedIff(Pending(a));
    hide ALLOWED_SUPPORT, ALLOWED_PARENT;
    if i < TRANSACTION {
      ListsMeans(support, SupportDirectory(d), Final(a));
      ListsMeans(support, SupportDirectory(d), Pending(a));
    } else {
      ListsMeans(parent, ParentDirectory(d), Final(a));
      ListsMeans(parent, ParentDirectory(d), Pending(a));
    }
  }

  lemma FileIsSomewhere(d: Disk, expected: File -> string, k: nat, partial: bool, f: File)
    requires Consistent(d, expected, k, partial) && (f.Staged? ==> Place(f.artifact) <= k)
    ensures f in d.finals ==> f !in d.pendings && d.finals[f] == expected(f)
    ensures f !in d.finals && f !in d.pendings && f.Staged? ==> Place(f.artifact) == k && !partial
  {
  }

  lemma PublishedMeansPlace(d: Disk, expected: File -> string, k: nat, partial: bool, a: Artifact)
    requires Consistent(d, expected, k, partial) && Staged(a) in d.finals
    ensures k > Place(a)
  {
  }

  lemma CompleteIsSix(d: Disk, expected: File -> string, k: nat, partial: bool)
    requires Consistent(d, expected, k, partial) && k >= 6 && d.support
    ensures k == 6 && PrefixAt(d, k, partial) == Complete
  {
  }

  lemma PendingBytesFit(d: Disk, expected: File -> string, k: nat, partial: bool, f: File)
    requires Consistent(d, expected, k, partial) && f in d.pendings
    ensures d.pendings[f].bytes <= expected(f)
    ensures f.Staged? ==> partial && Place(f.artifact) == k
    ensures f !in d.finals
  {
  }

  lemma PendingFits(d: Disk, expected: File -> string, k: nat, partial: bool, f: File, p: PendingFile)
    requires Consistent(d, expected, k, partial) && f !in d.finals && p.bytes <= expected(f)
    requires f.Staged? ==> d.support && Place(f.artifact) == k
    ensures Consistent(d.(pendings := d.pendings[f := p]), expected, k, partial || f.Staged?)
  {
    if f.Staged? {
      forall a: Artifact | Place(a) == k ensures a == f.artifact {
        assert ARTIFACTS[Place(a)] == a && ARTIFACTS[Place(f.artifact)] == f.artifact;
      }
    }
  }

  lemma PublicationFits(d: Disk, expected: File -> string, k: nat, partial: bool, f: File)
    requires Consistent(d, expected, k, partial) && f in d.pendings && d.pendings[f].bytes == expected(f)
    ensures Consistent(d.(finals := d.finals[f := d.pendings[f].bytes], pendings := d.pendings - {f}), expected,
                       if f.Staged? then k + 1 else k, if f.Staged? then false else partial)
  {
    if f.Staged? {
      forall a: Artifact | Place(a) == k ensures a == f.artifact {
        assert ARTIFACTS[Place(a)] == a && ARTIFACTS[Place(f.artifact)] == f.artifact;
      }
    }
  }
}
