/** What the diagnostic-driver transaction leaves on disk and in the system, and what is always
    true of it: the slots, the two durable images, and the count of Core Audio restarts. */
module DriverDisk {
  import opened Text
  import opened DriverStates

  // ------------------------------------------------------------------ the durable state

  datatype Driver = NoDriver | V7 | Candidate

  datatype Slot = Canonical | Prior | Stage | Failed

  datatype Slots = Slots(canonical: Driver, prior: Driver, stage: Driver, failed: Driver) {
    function Get(slot: Slot): Driver {
      match slot
      case Canonical => canonical
      case Prior => prior
      case Stage => stage
      case Failed => failed
    }

    function Put(slot: Slot, driver: Driver): Slots {
      match slot
      case Canonical => this.(canonical := driver)
      case Prior => this.(prior := driver)
      case Stage => this.(stage := driver)
      case Failed => this.(failed := driver)
    }

    function Moved(from: Slot, to: Slot): Slots {
      Put(to, Get(from)).Put(from, NoDriver)
    }
  }

  /** One start of coreaudiod: launchd's run count, and the pid the kernel gave it. */
  datatype Generation = Generation(pid: nat, runs: nat)

  const NONE := Generation(0, 0)

  /** What `read_coreaudio_generation` can return: it refuses a zero and what overflows. */
  predicate ValidGeneration(g: Generation) {
    0 < g.pid <= U32_MAX && 0 < g.runs <= U64_MAX
  }

  /** A journal record.  `before` and `after` are the Core Audio generations it carries. */
  datatype Entry = Entry(state: State, before: Generation, after: Generation)

  function Plain(state: State): Entry {
    Entry(state, NONE, NONE)
  }

  /** The pending journal snapshot.  `Whole` holds the last entry of the journal, which is not
      published yet; a stuck one is refused by every later run. */
  datatype Pending = NoPending | Torn | Stuck | Whole

  datatype Disk = Disk(
    entries: seq<Entry>,       // the journal, a whole pending snapshot included
    pending: Pending,
    image: Option<State>,      // the root state image
    slots: Slots,
    hostUp: bool,
    starts: nat,               // the run count of the running coreaudiod
    base: nat,                 // its run count before the transaction
    outside: nat,              // how often something else restarted it
    termed: bool,              // the forward run has sent its TERM
    retermed: bool,            // a rollback has sent its TERM
    rollbacks: nat,            // how often the rollback was entered
    lagged: bool               // the state image lagged when it was last entered
  )

  function Current(d: Disk): State
    requires |d.entries| > 0
  {
    d.entries[|d.entries| - 1].state
  }

  /** The state of the record before the last one. */
  function Before(d: Disk): State
    requires |d.entries| > 0
  {
    d.entries[if |d.entries| >= 2 then |d.entries| - 2 else 0].state
  }

  function States(entries: seq<Entry>): (states: seq<State>)
    ensures |states| == |entries| && forall i :: 0 <= i < |states| ==> states[i] == entries[i].state
  {
    seq(|entries|, i requires 0 <= i < |entries| => entries[i].state)
  }

  // ------------------------------------------------------------------------- the slots

  const UNSTAGED := Slots(V7, NoDriver, NoDriver, NoDriver)
  const ORIGINAL := Slots(V7, NoDriver, Candidate, NoDriver)
  const RETAINED := Slots(NoDriver, V7, Candidate, NoDriver)
  const SWAPPED := Slots(Candidate, V7, NoDriver, NoDriver)
  const ARCHIVED := Slots(NoDriver, V7, NoDriver, Candidate)
  const RESTORED := Slots(V7, NoDriver, NoDriver, Candidate)

  predicate Arranged(slots: Slots) {
    || slots == ORIGINAL || slots == RETAINED || slots == SWAPPED || slots == ARCHIVED || slots == RESTORED
  }

  /** What each journal state says about the slots and the host. */
  predicate SlotsAgree(state: State, slots: Slots, hostUp: bool) {
    match state
    case Begun => (slots == UNSTAGED || slots == ORIGINAL) && hostUp
    case PrestopAborted => (slots == UNSTAGED || slots == ORIGINAL) && hostUp
    case Authenticated => slots == ORIGINAL && hostUp
    case HostStopInitiated => slots == ORIGINAL
    case HostStopped => (slots == ORIGINAL || slots == RETAINED) && !hostUp
    case PriorDriverRetained => (slots == RETAINED || slots == SWAPPED) && !hostUp
    case CandidatePublished => slots == SWAPPED && !hostUp
    case CoreAudioReloaded => slots == SWAPPED && !hostUp
    case DriverValidated => slots == SWAPPED
    case HostBootstrapped => slots == SWAPPED && hostUp
    case ReadyVerified => slots == SWAPPED && hostUp
    case Committed => slots == SWAPPED && hostUp
    case RollbackStarted => Arranged(slots)
    case CriticalFailure => Arranged(slots)
    case FailedDriverArchived => slots == ARCHIVED || slots == RESTORED
    case PriorDriverRestored => slots == ORIGINAL || slots == RESTORED
    case RollbackCoreAudioReloadInitiated => slots == ORIGINAL || slots == RESTORED
    case RollbackCoreAudioReloaded => slots == ORIGINAL || slots == RESTORED
    case HostRebootstrapped => (slots == ORIGINAL || slots == RESTORED) && hostUp
    case RolledBack => (slots == ORIGINAL || slots == RESTORED) && hostUp
  }

  function Count(driver: Driver, wanted: Driver): nat {
    if driver == wanted then 1 else 0
  }

  function Copies(slots: Slots, wanted: Driver): nat {
    Count(slots.canonical, wanted) + Count(slots.prior, wanted) + Count(slots.stage, wanted)
    + Count(slots.failed, wanted)
  }

  /** In every journal state the old driver is in exactly one of its two slots and the
      candidate, once staged, in exactly one of its three. */
  lemma SlotInvariant(state: State, slots: Slots, hostUp: bool)
    requires SlotsAgree(state, slots, hostUp)
    ensures Copies(slots, V7) == 1 && (slots.canonical == V7) != (slots.prior == V7)
    ensures Copies(slots, Candidate) == if slots == UNSTAGED then 0 else 1
    ensures slots.prior != Candidate
    ensures slots == UNSTAGED ==> state == Begun || state == PrestopAborted
  {
  }

  /** Where the restore section of the rollback ends. */
  function Restored(slots: Slots): Slots {
    if slots.stage == Candidate then ORIGINAL else RESTORED
  }

  lemma RestoredMeans(slots: Slots)
    requires Arranged(slots)
    ensures Restored(slots).canonical == V7 && Arranged(Restored(slots))
    ensures Restored(Restored(slots)) == Restored(slots)
  {
  }

  // ------------------------------------------------------------------ the two images

  predicate IsForward(state: State) {
    (BeforeReload(state) && state != PrestopAborted) || state == CandidatePublished || AfterReload(state)
  }

  /** The journal is one record, not of a failure, past a pair that recovery resumes and whose
      image lagged: the run was cut before the image of that record was written. */
  predicate OneRecordPast(before: State, state: State, image: Option<State>) {
    RecoveryPlan(before, image) == ResumeRollback && Lags(before, image) && state != CriticalFailure
  }

  /** Recovery has a plan for whatever the journal and the state image say, unless the last
      rollback was entered with an image that lagged, which the first never is; before the first
      entry only forward states are recorded. */
  predicate PairAgrees(before: State, state: State, image: Option<State>, rollbacks: nat, lagged: bool) {
    && (RecoveryPlan(state, image) == Reject ==> lagged && OneRecordPast(before, state, image))
    && (lagged ==> rollbacks >= 2)
    && (rollbacks == 0 ==> IsForward(state) || state == PrestopAborted)
  }

  // ------------------------------------------------------------- Core Audio restarts

  function SaturatingSucc(n: nat): nat {
    if n >= U64_MAX then U64_MAX else n + 1
  }

  /** `coreaudio_restart_successor_is_exact` */
  predicate ExactSuccessor(before: Generation, after: Generation) {
    after.pid != before.pid && after.runs == SaturatingSucc(before.runs)
  }

  /** The generations journalled before a rollback reload. */
  function Intents(entries: seq<Entry>): seq<Generation> {
    if entries == [] then []
    else
      var last := entries[|entries| - 1];
      Intents(entries[..|entries| - 1])
      + if last.state == RollbackCoreAudioReloadInitiated then [last.before] else []
  }

  /** `exact_fields_for_state` on the reload intent: a second record of it is refused. */
  function ExactIntent(entries: seq<Entry>): Option<Generation> {
    if |Intents(entries)| == 1 then Some(Intents(entries)[0]) else None
  }

  function Bit(b: bool): nat {
    if b then 1 else 0
  }

  predicate BeforeReload(s: State) {
    || s == Begun || s == Authenticated || s == PrestopAborted || s == HostStopInitiated
    || s == HostStopped || s == PriorDriverRetained
  }

  predicate AfterReload(s: State) {
    || s == CoreAudioReloaded || s == DriverValidated || s == HostBootstrapped || s == ReadyVerified
    || s == Committed
  }

  predicate AfterRollbackReload(s: State) {
    s == RollbackCoreAudioReloaded || s == HostRebootstrapped || s == RolledBack
  }

  /** Every restart is accounted for, and none is ordered twice. */
  predicate Accounts(d: Disk) {
    && d.starts == d.base + d.outside + Bit(d.termed) + Bit(d.retermed)
    && var intents := Intents(d.entries);
       && (intents == [] ==> !d.retermed)
       && (intents != [] ==>
             && d.base + Bit(d.termed) <= intents[0].runs <= d.base + d.outside + Bit(d.termed)
             && (d.retermed ==> intents[0].runs < d.starts))
  }

  /** What the journal's last state says about the restarts. */
  predicate RestartsAgree(d: Disk)
    requires |d.entries| > 0
  {
    var s, intents := Current(d), Intents(d.entries);
    && (BeforeReload(s) ==> !d.termed)
    && (AfterReload(s) ==> d.termed)
    && (IsForward(s) || s == PrestopAborted ==> intents == [])
    && (s == RollbackCoreAudioReloadInitiated ==> intents != [])
    && (AfterRollbackReload(s) ==> |intents| == 1 && intents[0].runs < d.starts)
  }

  predicate IsReload(s: State) {
    s == CoreAudioReloaded || s == RollbackCoreAudioReloaded
  }

  /** The generations a record carries were read from the running system. */
  predicate Carries(e: Entry) {
    && (e.state == Authenticated || e.state == RollbackCoreAudioReloadInitiated || IsReload(e.state) ==>
          ValidGeneration(e.before))
    && (IsReload(e.state) ==> ValidGeneration(e.after))
  }

  /** A reload is only ever on record with the exact successor generation; a rollback's
      names the generation that its intent, the record before it, had journalled. */
  predicate Bracketed(entries: seq<Entry>, i: nat)
    requires i < |entries|
  {
    && Carries(entries[i])
    && (IsReload(entries[i].state) ==>
      && ExactSuccessor(entries[i].before, entries[i].after)
      && (entries[i].state == RollbackCoreAudioReloaded ==>
            && i > 0 && entries[i - 1].state == RollbackCoreAudioReloadInitiated
            && entries[i].before == entries[i - 1].before))
  }

  predicate AllBracketed(entries: seq<Entry>) {
    forall i :: 0 <= i < |entries| ==> Bracketed(entries, i)
  }

  // --------------------------------------------------------------------- all together

  predicate Consistent(d: Disk) {
    && LegalHistory(States(d.entries))
    && (d.pending == Whole ==> |d.entries| >= 2)
    && SlotsAgree(Current(d), d.slots, d.hostUp)
    && PairAgrees(Before(d), Current(d), d.image, d.rollbacks, d.lagged)
    && Accounts(d) && RestartsAgree(d) && AllBracketed(d.entries)
  }

  function Initial(base: nat): Disk {
    Disk([Plain(Begun)], NoPending, None, UNSTAGED, true, base, base, 0, false, false, 0, false)
  }

  lemma InitialIsConsistent(base: nat)
    ensures Consistent(Initial(base))
  {
    var entries := [Plain(Begun)];
    assert Intents(entries[..0]) == [];
    assert Intents(entries) == [];
  }

  function Appended(d: Disk, e: Entry): Disk {
    d.(entries := d.entries + [e], pending := NoPending)
  }

  lemma IntentsAppend(entries: seq<Entry>, e: Entry)
    ensures Intents(entries + [e]) ==
            Intents(entries) + if e.state == RollbackCoreAudioReloadInitiated then [e.before] else []
  {
    assert (entries + [e])[..|entries|] == entries;
  }

  /** The restart facts an appended record must bring along itself. */
  predicate RestartFits(d: Disk, e: Entry)
    requires |d.entries| > 0
  {
    && (BeforeReload(e.state) ==> !d.termed)
    && (AfterReload(e.state) ==> d.termed)
    && (e.state == RollbackCoreAudioReloadInitiated ==> e.before.runs == d.starts)
    && Carries(e)
    && (IsReload(e.state) ==> ExactSuccessor(e.before, e.after))
    && (e.state == RollbackCoreAudioReloaded ==>
          ExactIntent(d.entries) == Some(e.before) && e.before.runs < d.starts
          && e.before == d.entries[|d.entries| - 1].before)
  }

  lemma AppendIsConsistent(d: Disk, e: Entry)
    requires Consistent(d) && ValidTransition(Current(d), e.state)
    requires SlotsAgree(e.state, d.slots, d.hostUp) && PairAgrees(Current(d), e.state, d.image, d.rollbacks, d.lagged)
    requires RestartFits(d, e)
    ensures Consistent(Appended(d, e))
  {
    hide SlotsAgree, PairAgrees, Accounts, RestartsAgree, AllBracketed, ValidTransition, RestartFits, Intents;
    AppendedHistory(d, e);
    AppendedAccounts(d, e);
    AppendedRestarts(d, e);
    AppendedBrackets(d, e);
  }

  lemma AppendedHistory(d: Disk, e: Entry)
    requires LegalHistory(States(d.entries)) && ValidTransition(Current(d), e.state)
    ensures LegalHistory(States(d.entries + [e]))
  {
    hide ValidTransition;
    var states, longer := States(d.entries), States(d.entries + [e]);
    forall i | 1 <= i < |longer| ensures ValidTransition(longer[i - 1], longer[i]) {
      if i < |states| {
        assert longer[i] == states[i] && longer[i - 1] == states[i - 1];
      }
    }
  }

  lemma AppendedAccounts(d: Disk, e: Entry)
    requires |d.entries| > 0 && Accounts(d) && RestartFits(d, e)
    ensures Accounts(Appended(d, e))
  {
    hide Intents, ExactSuccessor, BeforeReload, AfterReload, IsReload, ExactIntent, Carries;
    IntentsAppend(d.entries, e);
  }

  lemma AppendedRestarts(d: Disk, e: Entry)
    requires |d.entries| > 0 && RestartsAgree(d) && ValidTransition(Current(d), e.state) && RestartFits(d, e)
    ensures RestartsAgree(Appended(d, e))
  {
    hide Intents, ExactSuccessor, ValidTransition, IsForward, BeforeReload, AfterReload, Carries;
    IntentsAppend(d.entries, e);
    ForwardStaysBehind(Current(d), e.state);
  }

  /** Only forward states lead to forward states, and the rollback's reload is passed only once. */
  lemma ForwardStaysBehind(from: State, to: State)
    requires ValidTransition(from, to)
    ensures IsForward(to) || to == PrestopAborted ==> IsForward(from)
    ensures AfterRollbackReload(to) ==> from == RollbackCoreAudioReloadInitiated || AfterRollbackReload(from)
    ensures to == RollbackCoreAudioReloaded ==> from == RollbackCoreAudioReloadInitiated
    ensures to == HostRebootstrapped || to == RolledBack ==> AfterRollbackReload(from)
    ensures to == RollbackCoreAudioReloadInitiated ==> !IsForward(from)
  {
  }

  lemma AppendedBrackets(d: Disk, e: Entry)
    requires |d.entries| > 0 && AllBracketed(d.entries)
    requires ValidTransition(Current(d), e.state) && RestartFits(d, e)
    ensures AllBracketed(d.entries + [e])
  {
    hide Intents, ExactSuccessor, ValidTransition, Carries;
    ForwardStaysBehind(Current(d), e.state);
    var longer := d.entries + [e];
    forall i | 0 <= i < |longer| ensures Bracketed(longer, i) {
      if i < |d.entries| {
        assert Bracketed(d.entries, i);
        assert longer[i] == d.entries[i] && (i > 0 ==> longer[i - 1] == d.entries[i - 1]);
      }
    }
  }

  /** Every journalled intent was read from the running system. */
  lemma {:induction false} IntentsAreValid(entries: seq<Entry>)
    requires AllBracketed(entries)
    ensures forall g :: g in Intents(entries) ==> ValidGeneration(g)
  {
    if entries != [] {
      var before := entries[..|entries| - 1];
      forall i | 0 <= i < |before| ensures Bracketed(before, i) {
        assert Bracketed(entries, i);
      }
      IntentsAreValid(before);
      assert Bracketed(entries, |entries| - 1);
    }
  }

  // ------------------------------------------------------------ changes that keep it all

  lemma SlotsMayChange(d: Disk, slots: Slots, hostUp: bool)
    requires Consistent(d) && SlotsAgree(Current(d), slots, hostUp)
    ensures Consistent(d.(slots := slots, hostUp := hostUp))
  {
    hide SlotsAgree, PairAgrees, Intents, AllBracketed, LegalHistory;
  }

  lemma ImageMayChange(d: Disk, image: Option<State>)
    requires Consistent(d) && PairAgrees(Before(d), Current(d), image, d.rollbacks, d.lagged)
    ensures Consistent(d.(image := image))
  {
    hide SlotsAgree, PairAgrees, Intents, AllBracketed, LegalHistory;
  }

  lemma PendingMayChange(d: Disk, pending: Pending)
    requires Consistent(d) && pending != Whole
    ensures Consistent(d.(pending := pending))
  {
    hide SlotsAgree, PairAgrees, Intents, AllBracketed, LegalHistory;
  }

  /** A rollback is only entered where recovery has a plan. */
  lemma RollbackMayBeEntered(d: Disk)
    requires Consistent(d) && RecoveryPlan(Current(d), d.image) != Reject
    ensures Consistent(d.(rollbacks := d.rollbacks + 1, lagged := Lags(Current(d), d.image)))
  {
    hide SlotsAgree, Intents, AllBracketed, LegalHistory, RecoveryPlan;
  }

  lemma MayDrift(d: Disk, n: nat)
    requires Consistent(d)
    ensures Consistent(d.(starts := d.starts + n, outside := d.outside + n))
  {
    hide SlotsAgree, PairAgrees, Intents, AllBracketed, LegalHistory, IsForward, BeforeReload, AfterReload,
      AfterRollbackReload;
  }

  lemma MayTerm(d: Disk)
    requires Consistent(d) && Current(d) == CandidatePublished && !d.termed
    ensures Consistent(d.(starts := d.starts + 1, termed := true))
  {
    hide SlotsAgree, PairAgrees, Intents, AllBracketed, LegalHistory;
  }

  lemma MayReterm(d: Disk)
    requires Consistent(d) && Current(d) == RollbackCoreAudioReloadInitiated
    requires ExactIntent(d.entries).Some? && ExactIntent(d.entries).value.runs == d.starts
    ensures Consistent(d.(starts := d.starts + 1, retermed := true)) && !d.retermed
  {
    hide SlotsAgree, PairAgrees, Intents, AllBracketed, LegalHistory;
  }
}
