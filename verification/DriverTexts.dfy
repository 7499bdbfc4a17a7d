/** The typed records of the transaction and the bytes of the journal file: what the fields of a
    record say of Core Audio, and that they are read back as they were meant. */
module DriverTexts {
  import opened Text
  import opened DriverStates
  import opened DriverJournalText
  import opened DriverSnapshot
  import opened DriverJournal
  import opened DriverDisk
  import opened DriverUpdate
  import Faults

  // --------------------------------------------------------------- fields of a record

  /** What the fields of a record say of the generations its entry carries. */
  predicate Tells(e: Entry, fields: Fields) {
    && (e.state == RollbackCoreAudioReloadInitiated ==>
          && "old_pid" in fields && fields["old_pid"] == ToDecimal(e.before.pid)
          && "old_runs" in fields && fields["old_runs"] == ToDecimal(e.before.runs))
    && (IsReload(e.state) ==>
          && "old_pid" in fields && fields["old_pid"] == ToDecimal(e.before.pid)
          && "new_pid" in fields && fields["new_pid"] == ToDecimal(e.after.pid)
          && "new_runs" in fields && fields["new_runs"] == ToDecimal(e.after.runs))
    && (e.state == Authenticated ==>
          && "coreaudiod_pid" in fields && fields["coreaudiod_pid"] == ToDecimal(e.before.pid)
          && "coreaudiod_runs" in fields && fields["coreaudiod_runs"] == ToDecimal(e.before.runs))
  }

  /** What else the transaction puts on record: the host, the release, the rollback reserve, the
      retained driver, the validated driver generation and the nonce of the user's transaction. */
  datatype Facts = Facts(hostPid: nat, hostRuns: nat, hostNonce: string, commit: string, tree: string,
                         available: nat, reserveDevice: nat, reserveInode: nat, reserveBytes: nat,
                         device: nat, inode: nat, driverGeneration: nat, nonce: string)

  predicate IsNumber(n: nat) {
    0 < n <= U64_MAX
  }

  predicate ValidFacts(f: Facts) {
    && IsNumber(f.hostPid) && IsNumber(f.hostRuns) && LowerHex(f.hostNonce, 64)
    && LowerHex(f.commit, 40) && LowerHex(f.tree, 40)
    && IsNumber(f.available) && IsNumber(f.reserveDevice) && IsNumber(f.reserveInode) && IsNumber(f.reserveBytes)
    && IsNumber(f.device) && IsNumber(f.inode) && IsNumber(f.driverGeneration)
    && LowerHex(f.nonce, 32)
  }

  /** The fields that the transaction hands to `record`, in the order it names them. */
  function FieldsFor(e: Entry, f: Facts): seq<Pair> {
    match e.state
    case Authenticated =>
      [Pair("host_pid", ToDecimal(f.hostPid)), Pair("host_runs", ToDecimal(f.hostRuns)),
       Pair("coreaudiod_pid", ToDecimal(e.before.pid)), Pair("coreaudiod_runs", ToDecimal(e.before.runs)),
       Pair("release_commit", f.commit), Pair("release_tree", f.tree)]
    case HostStopInitiated =>
      [Pair("available_bytes", ToDecimal(f.available)), Pair("reserve_device", ToDecimal(f.reserveDevice)),
       Pair("reserve_inode", ToDecimal(f.reserveInode)), Pair("reserve_bytes", ToDecimal(f.reserveBytes))]
    case PriorDriverRetained => [Pair("device", ToDecimal(f.device)), Pair("inode", ToDecimal(f.inode))]
    case CoreAudioReloaded => ReloadFields(e)
    case DriverValidated => [Pair("driver_generation", ToDecimal(f.driverGeneration))]
    case HostBootstrapped => HostFields(f)
    case RollbackCoreAudioReloadInitiated =>
      [Pair("old_pid", ToDecimal(e.before.pid)), Pair("old_runs", ToDecimal(e.before.runs))]
    case RollbackCoreAudioReloaded => ReloadFields(e)
    case HostRebootstrapped => HostFields(f)
    case _ => []
  }

  function ReloadFields(e: Entry): seq<Pair> {
    [Pair("old_pid", ToDecimal(e.before.pid)), Pair("new_pid", ToDecimal(e.after.pid)),
     Pair("new_runs", ToDecimal(e.after.runs))]
  }

  function HostFields(f: Facts): seq<Pair> {
    [Pair("pid", ToDecimal(f.hostPid)), Pair("runs", ToDecimal(f.hostRuns)), Pair("nonce", f.hostNonce)]
  }

  /** A key whose value must be a number. */
  predicate IsNumberKey(key: string) {
    |key| > 2 && key[2] != 'l' && (key[2] == 'n' ==> key[0] != 'n')
  }

  lemma NumberIsValid(state: State, key: string, n: nat)
    requires IsNumber(n) && IsNumberKey(key)
    ensures ValidValue(state, key, ToDecimal(n)) && ToDecimal(n) != ""
  {
    CanonicalPositiveIff(ToDecimal(n), n, U64_MAX);
  }

  predicate AllValid(state: State, fields: seq<Pair>) {
    forall i :: 0 <= i < |fields| ==> fields[i].value != "" && ValidValue(state, fields[i].key, fields[i].value)
  }

  lemma AuthenticatedIsValid(e: Entry, f: Facts)
    requires e.state == Authenticated && Carries(e) && ValidFacts(f)
    ensures AllValid(Authenticated, FieldsFor(e, f))
  {
    hide ToDecimal, CanonicalPositive;
    NumberIsValid(e.state, "host_pid", f.hostPid);
    NumberIsValid(e.state, "host_runs", f.hostRuns);
    NumberIsValid(e.state, "coreaudiod_pid", e.before.pid);
    NumberIsValid(e.state, "coreaudiod_runs", e.before.runs);
  }

  lemma StopIsValid(e: Entry, f: Facts)
    requires e.state == HostStopInitiated && ValidFacts(f)
    ensures AllValid(HostStopInitiated, FieldsFor(e, f))
  {
    hide ToDecimal, ValidValue;
    NumberIsValid(e.state, "available_bytes", f.available);
    NumberIsValid(e.state, "reserve_device", f.reserveDevice);
    NumberIsValid(e.state, "reserve_inode", f.reserveInode);
    NumberIsValid(e.state, "reserve_bytes", f.reserveBytes);
  }

  lemma DriverIsValid(e: Entry, f: Facts)
    requires (e.state == PriorDriverRetained || e.state == DriverValidated) && ValidFacts(f)
    ensures AllValid(e.state, FieldsFor(e, f))
  {
    hide ToDecimal, ValidValue;
    NumberIsValid(e.state, "device", f.device);
    NumberIsValid(e.state, "inode", f.inode);
    NumberIsValid(e.state, "driver_generation", f.driverGeneration);
  }

  lemma ReloadIsValid(e: Entry)
    requires IsReload(e.state) && Carries(e)
    ensures AllValid(e.state, ReloadFields(e))
  {
    hide ToDecimal, ValidValue;
    NumberIsValid(e.state, "old_pid", e.before.pid);
    NumberIsValid(e.state, "new_pid", e.after.pid);
    NumberIsValid(e.state, "new_runs", e.after.runs);
  }

  lemma IntentIsValid(e: Entry, f: Facts)
    requires e.state == RollbackCoreAudioReloadInitiated && Carries(e)
    ensures AllValid(e.state, FieldsFor(e, f))
  {
    hide ToDecimal, ValidValue;
    NumberIsValid(e.state, "old_pid", e.before.pid);
    NumberIsValid(e.state, "old_runs", e.before.runs);
  }

  lemma HostIsValid(state: State, f: Facts)
    requires state != Authenticated && ValidFacts(f)
    ensures AllValid(state, HostFields(f))
  {
    hide ToDecimal, CanonicalPositive;
    NumberIsValid(state, "pid", f.hostPid);
    NumberIsValid(state, "runs", f.hostRuns);
  }

  lemma ValuesAreValid(e: Entry, f: Facts)
    requires Carries(e) && ValidFacts(f)
    ensures AllValid(e.state, FieldsFor(e, f))
  {
    hide ToDecimal, ValidValue;
    match e.state {
      case Authenticated => AuthenticatedIsValid(e, f);
      case HostStopInitiated => StopIsValid(e, f);
      case PriorDriverRetained => DriverIsValid(e, f);
      case CoreAudioReloaded => ReloadIsValid(e);
      case DriverValidated => DriverIsValid(e, f);
      case HostBootstrapped => HostIsValid(e.state, f);
      case RollbackCoreAudioReloadInitiated => IntentIsValid(e, f);
      case RollbackCoreAudioReloaded => ReloadIsValid(e);
      case HostRebootstrapped => HostIsValid(e.state, f);
      case _ =>
    }
  }

  lemma LongKeysAreTheSchema(e: Entry, f: Facts)
    requires e.state == Authenticated || e.state == HostStopInitiated
    ensures DistinctKeys(FieldsFor(e, f)) && Keys(FieldsFor(e, f)) == Schema(RootJournal, e.state)
  {
    hide ToDecimal, Keys;
    KeysOfSix(FieldsFor(e, f));
  }

  lemma KeysAreTheSchema(e: Entry, f: Facts)
    ensures DistinctKeys(FieldsFor(e, f)) && Keys(FieldsFor(e, f)) == Schema(RootJournal, e.state)
  {
    hide ToDecimal, Keys;
    if e.state == Authenticated || e.state == HostStopInitiated {
      LongKeysAreTheSchema(e, f);
    } else {
      KeysOfSix(FieldsFor(e, f));
    }
  }

  /** The same for the journal that the user's side keeps of the transaction. */
  function UserFieldsFor(state: State, f: Facts): seq<Pair> {
    if state == Authenticated then
      [Pair("nonce", f.nonce), Pair("host_pid", ToDecimal(f.hostPid)), Pair("release_commit", f.commit),
       Pair("release_tree", f.tree)]
    else []
  }

  lemma UserRecordIsRecordable(state: State, f: Facts)
    requires ValidFacts(f)
    ensures Recordable(UserJournal, state, UserFieldsFor(state, f))
  {
    hide ToDecimal, CanonicalPositive, Recordable, Keys;
    NumberIsValid(state, "host_pid", f.hostPid);
    KeysOfSix(UserFieldsFor(state, f));
    DistinctIsRecordable(UserJournal, state, UserFieldsFor(state, f));
  }

  /** Whatever the transaction puts on record passes the journal's checks, and its fields tell the
      generations of Core Audio that it is about. */
  lemma EntryIsRecordable(e: Entry, f: Facts)
    requires Carries(e) && ValidFacts(f)
    ensures Recordable(RootJournal, e.state, FieldsFor(e, f)) && Tells(e, FieldMap(FieldsFor(e, f)))
  {
    hide ToDecimal, Recordable, ValidValue, Schema, FieldMap, FieldsFor, Tells;
    ValuesAreValid(e, f);
    KeysAreTheSchema(e, f);
    DistinctIsRecordable(RootJournal, e.state, FieldsFor(e, f));
    DistinctMap(FieldsFor(e, f));
    FieldsTell(e, f, FieldMap(FieldsFor(e, f)));
  }

  lemma FieldsTell(e: Entry, f: Facts, m: Fields)
    requires forall i :: 0 <= i < |FieldsFor(e, f)| ==>
               FieldsFor(e, f)[i].key in m && m[FieldsFor(e, f)[i].key] == FieldsFor(e, f)[i].value
    ensures Tells(e, m)
  {
    hide ToDecimal;
    var fields := FieldsFor(e, f);
    assert |fields| > 1 ==> fields[0].key in m && fields[1].key in m;
    assert |fields| > 2 ==> fields[2].key in m;
    assert |fields| > 3 ==> fields[3].key in m;
  }

  // -------------------------------------------------- a journal text tells its entries

  predicate TellsOf(line: string, e: Entry) {
    var record := ParseRecord(RootJournal, line);
    record.Some? && record.value.state == e.state && Tells(e, record.value.fields)
  }

  /** The text is an accepted journal whose records are those of the entries, fields and all. */
  predicate Describes(text: string, entries: seq<Entry>) {
    && JournalState(RootJournal, text).Some?
    && |Lines(text)| == |entries| + 1
    && forall i :: 1 <= i < |Lines(text)| ==> TellsOf(Lines(text)[i], entries[i - 1])
  }

  lemma DescribedState(text: string, entries: seq<Entry>)
    requires Describes(text, entries)
    ensures |entries| > 0 && JournalState(RootJournal, text) == Some(entries[|entries| - 1].state)
  {
    hide Lines, ParseRecord, RecordFits;
    assert TellsOf(Lines(text)[|entries|], entries[|entries| - 1]);
  }

  /** A new journal describes the machine's first entry. */
  lemma FreshDescribes()
    ensures Describes(FreshText(RootJournal), [Plain(Begun)])
  {
    hide Lines, ParseRecord, RecordLine, Header;
    var header, line, text := Header(RootJournal), RecordLine(Begun, []), FreshText(RootJournal);
    FreshCut(RootJournal, |text|);
    assert text[..|text|] == text;
    HeaderIsPlain(RootJournal);
    BegunIsRecordable(RootJournal);
    RecordReadsBack(RootJournal, Begun, []);
    LinesOfLine(header);
    LinesOfLine(line);
    LinesOfAppend(header + "\n", line + "\n");
  }

  /** Recording an entry: the next text describes the next entries. */
  lemma AppendDescribes(text: string, entries: seq<Entry>, e: Entry, fields: seq<Pair>)
    requires Describes(text, entries) && |entries| > 0
    requires ValidTransition(entries[|entries| - 1].state, e.state)
    requires Recordable(RootJournal, e.state, fields) && Tells(e, FieldMap(fields))
    ensures Describes(text + (RecordLine(e.state, fields) + "\n"), entries + [e])
  {
    hide Lines, ParseRecord, ValidTransition, Recordable, RecordLine, FieldMap, StateOfLines, Tells;
    DescribedState(text, entries);
    var line := RecordLine(e.state, fields);
    RecordReadsBack(RootJournal, e.state, fields);
    RecordIsPublished(RootJournal, text, entries[|entries| - 1].state, e.state, fields);
    LinesOfLine(line);
    LinesOfAppend(text, line + "\n");
    var lines, longer := Lines(text + (line + "\n")), entries + [e];
    forall i | 1 <= i < |lines| ensures TellsOf(lines[i], longer[i - 1]) {
      if i < |Lines(text)| {
        assert TellsOf(Lines(text)[i], entries[i - 1]);
      }
    }
  }

  // ------------------------------------------------------- reading the intent back

  /** The only reload intent among the entries. */
  predicate OnlyIntent(entries: seq<Entry>, i: nat) {
    && i < |entries| && entries[i].state == RollbackCoreAudioReloadInitiated
    && forall j :: 0 <= j < |entries| && j != i ==> entries[j].state != RollbackCoreAudioReloadInitiated
  }

  lemma {:induction false} NoIntents(entries: seq<Entry>)
    ensures Intents(entries) == [] <==>
            forall j :: 0 <= j < |entries| ==> entries[j].state != RollbackCoreAudioReloadInitiated
  {
    if entries != [] {
      var before := entries[..|entries| - 1];
      NoIntents(before);
      assert forall j :: 0 <= j < |before| ==> before[j] == entries[j];
    }
  }

  /** There is exactly one intent on the typed record exactly when there is an only one. */
  lemma {:induction false} ExactIntentIff(entries: seq<Entry>, g: Generation)
    ensures ExactIntent(entries) == Some(g) <==> exists i: nat :: OnlyIntent(entries, i) && entries[i].before == g
  {
    if entries != [] {
      var last := |entries| - 1;
      var before := entries[..last];
      assert forall j :: 0 <= j < last ==> before[j] == entries[j];
      if entries[last].state == RollbackCoreAudioReloadInitiated {
        NoIntents(before);
        assert Intents(before) == [] ==> OnlyIntent(entries, last);
      } else {
        ExactIntentIff(before, g);
        assert forall i: nat :: i < last ==> (OnlyIntent(before, i) <==> OnlyIntent(entries, i));
      }
    }
  }

  lemma OnlyRecordIff(text: string, entries: seq<Entry>, i: nat)
    requires Describes(text, entries)
    ensures OnlyRecordOf(RootJournal, Lines(text), RollbackCoreAudioReloadInitiated, i) <==>
            i >= 1 && OnlyIntent(entries, i - 1)
  {
    hide Lines, ParseRecord, Tells;
    var lines := Lines(text);
    forall j | 1 <= j < |lines| ensures StateOn(RootJournal, lines[j]) == Some(entries[j - 1].state) {
      assert TellsOf(lines[j], entries[j - 1]);
    }
    if OnlyRecordOf(RootJournal, lines, RollbackCoreAudioReloadInitiated, i) {
      forall j | 0 <= j < |entries| && j != i - 1
        ensures entries[j].state != RollbackCoreAudioReloadInitiated
      {
        assert StateOn(RootJournal, lines[j + 1]) == Some(entries[j + 1 - 1].state);
      }
    }
  }

  /** The journal holds one record of the reload intent exactly when the entries hold one intent. */
  lemma OnlyRecordIsExactIntent(text: string, entries: seq<Entry>)
    requires Describes(text, entries)
    ensures (exists i: nat :: OnlyRecordOf(RootJournal, Lines(text), RollbackCoreAudioReloadInitiated, i)) <==>
            |Intents(entries)| == 1
  {
    hide Lines, Describes, OnlyRecordOf, OnlyIntent, Intents;
    if i: nat :| OnlyRecordOf(RootJournal, Lines(text), RollbackCoreAudioReloadInitiated, i) {
      OnlyRecordIff(text, entries, i);
      IntentAt(entries, i - 1);
    }
    if |Intents(entries)| == 1 {
      ExactIntentIff(entries, Intents(entries)[0]);
      var i: nat :| OnlyIntent(entries, i);
      OnlyRecordIff(text, entries, i + 1);
    }
  }

  lemma IntentAt(entries: seq<Entry>, i: nat)
    requires OnlyIntent(entries, i)
    ensures ExactIntent(entries) == Some(entries[i].before)
  {
    ExactIntentIff(entries, entries[i].before);
  }

  /** Reads the journalled intent back, as the rollback does before the reload: the fields of its
      only record, parsed.  What comes back is the generation that was journalled. */
  method ReadIntent(journal: Journal, ghost entries: seq<Entry>) returns (result: Option<Generation>)
    requires journal.kind == RootJournal && |journal.files.canonical| <= MAX_BYTES
    requires Describes(journal.files.canonical, entries) && AllBracketed(entries)
    requires JournalState(RootJournal, journal.files.canonical) == Some(journal.state)
    ensures result == ExactIntent(entries)
  {
    hide Lines, Describes, OnlyRecordOf, OnlyIntent, ParseRecord, Intents, AllBracketed, JournalState;
    OnlyRecordIsExactIntent(journal.files.canonical, entries);
    var fields := journal.ExactFields(RollbackCoreAudioReloadInitiated);
    if fields.None? {
      return None;
    }
    IntentFields(journal.files.canonical, entries, fields.value);
    var pid := ParseUnsigned(fields.value["old_pid"], U32_MAX);
    var runs := ParseUnsigned(fields.value["old_runs"], U64_MAX);
    if pid.None? || runs.None? {
      return None;
    }
    return Some(Generation(pid.value, runs.value));
  }

  /** The fields of the only intent record are the numbers of the only intent. */
  lemma IntentFields(text: string, entries: seq<Entry>, fields: Fields)
    requires Describes(text, entries) && AllBracketed(entries)
    requires exists i: nat :: OnlyRecordOf(RootJournal, Lines(text), RollbackCoreAudioReloadInitiated, i)
               && ParseRecord(RootJournal, Lines(text)[i]) == Some(Record(RollbackCoreAudioReloadInitiated, fields))
    ensures "old_pid" in fields && "old_runs" in fields && ExactIntent(entries).Some?
    ensures ParseUnsigned(fields["old_pid"], U32_MAX) == Some(ExactIntent(entries).value.pid)
    ensures ParseUnsigned(fields["old_runs"], U64_MAX) == Some(ExactIntent(entries).value.runs)
  {
    hide Lines, ParseRecord, Intents, ParseUnsigned, ToDecimal;
    var i: nat :| OnlyRecordOf(RootJournal, Lines(text), RollbackCoreAudioReloadInitiated, i)
               && ParseRecord(RootJournal, Lines(text)[i]) == Some(Record(RollbackCoreAudioReloadInitiated, fields));
    OnlyRecordIff(text, entries, i);
    IntentAt(entries, i - 1);
    assert TellsOf(Lines(text)[i], entries[i - 1]);
    assert Bracketed(entries, i - 1);
    ParseDecimal(entries[i - 1].before.pid, U32_MAX);
    ParseDecimal(entries[i - 1].before.runs, U64_MAX);
  }

  // ------------------------------------------------ the record step and the journal file

  /** The machine's view of how publishing a record of the journal file goes. */
  function MachineFate(text: string, size: nat, fate: PublishFate): Fate {
    match fate
    case Published => Go
    case InReconcile(_, dies) => Stop(dies, false, NoPending)
    case BeforePending(dies) => Stop(dies, false, NoPending)
    case InPending(cut, dies) =>
      Stop(dies, false, if cut >= size then Whole else if IsStuckCut(text, cut) then Stuck else Torn)
    case AfterRename(dies) => Stop(dies, true, NoPending)
  }

  /** What a later run reads in the journal file is what the disk of the machine says. */
  predicate Represents(text: Option<string>, d: Disk) {
    if d.pending == Stuck then text.None? else text.Some? && Describes(text.value, d.entries)
  }

  /** However the publication of a record goes, the journal file and the machine's disk agree
      before and after it: on the text, fields included, or on a journal nobody gets past. */
  lemma RecordIsAMachineStep(text: string, d: Disk, e: Entry, fields: seq<Pair>, fate: PublishFate)
    requires Describes(text, d.entries) && d.pending == NoPending && |d.entries| > 0
    requires ValidTransition(Current(d), e.state)
    requires Recordable(RootJournal, e.state, fields) && Tells(e, FieldMap(fields))
    ensures var whole := text + (RecordLine(e.state, fields) + "\n");
            var machine := MachineFate(text, |whole|, fate);
            && Represents(TextAfter(text, whole, fate), AfterPublish(d, e, machine))
            && StepOf(fate) == Seen(machine)
  {
    hide IsStuckCut, Describes, RecordLine, Recordable, Tells, ValidTransition;
    AppendDescribes(text, d.entries, e, fields);
  }

  /** The two steps taken together: the machine publishes the entry, the journal records its
      fields, and the file goes on representing the disk. */
  method RecordTogether(m: Machine, journal: Journal, e: Entry, fields: seq<Pair>, fate: PublishFate)
    returns (step: Faults.Step)
    requires m.process.alive && m.Fresh()
    requires Consistent(Appended(m.disk, e)) && ValidTransition(Current(m.disk), e.state)
    requires e.state == RollbackCoreAudioReloadInitiated ==> e.before.pid == m.pids(e.before.runs)
    requires journal.kind == RootJournal && Represents(journal.files.Text(RootJournal), m.disk)
    requires Recordable(RootJournal, e.state, fields) && Tells(e, FieldMap(fields))
    requires |journal.files.Text(RootJournal).value| + |RecordLine(e.state, fields)| < MAX_BYTES
    modifies m, journal, journal.files
    ensures m.Valid() && Represents(journal.files.Text(RootJournal), m.disk)
    ensures step.Done? ==> m.Fresh() && m.disk == Appended(old(m.disk), e)
  {
    hide Consistent, Describes, RecordLine, Recordable, Tells, ValidTransition, IsStuckCut, Intents, EffectiveOf;
    var text := journal.files.Text(RootJournal).value;
    EffectiveIsDescribed(journal.files.canonical, journal.files.pending, m.disk);
    RecordIsAMachineStep(text, m.disk, e, fields, fate);
    var line := PrintRecord(e.state, fields);
    m.fates := [MachineFate(text, |text| + |line|, fate)];
    step := m.Publish(e);
    var recorded := journal.Record(e.state, fields, fate);
  }

  lemma EffectiveIsDescribed(canonical: string, pending: Option<string>, d: Disk)
    requires EffectiveText(RootJournal, canonical, pending).Some?
    requires Describes(EffectiveText(RootJournal, canonical, pending).value, d.entries)
    ensures |d.entries| > 0 && EffectiveOf(RootJournal, canonical, pending) == Some(Current(d))
  {
    hide JournalState, Classify, Lines, TellsOf;
    ReconciledMeans(RootJournal, canonical, pending);
    DescribedState(EffectiveText(RootJournal, canonical, pending).value, d.entries);
  }

  // ---------------------------------------------------------- restarts, as recorded

  /** What is written of a restart: the reload record and the record before it. */
  predicate RestartOnRecord(before: Record, after: Record) {
    && before.state == RollbackCoreAudioReloadInitiated
    && "old_pid" in before.fields && "old_runs" in before.fields
    && "old_pid" in after.fields && "new_pid" in after.fields && "new_runs" in after.fields
    && after.fields["old_pid"] == before.fields["old_pid"]
    && after.fields["new_pid"] != before.fields["old_pid"]
    && var oldRuns, newRuns :=
         ParseUnsigned(before.fields["old_runs"], U64_MAX), ParseUnsigned(after.fields["new_runs"], U64_MAX);
       oldRuns.Some? && newRuns == Some(SaturatingSucc(oldRuns.value))
  }

  /** In the journal text of every reachable disk, a reload record follows its intent record,
      names the same old pid and another new one, and counts exactly one more run. */
  lemma RecordedRestartsAreExact(text: string, entries: seq<Entry>, i: nat)
    requires Describes(text, entries) && AllBracketed(entries)
    requires 1 <= i < |Lines(text)| && StateOn(RootJournal, Lines(text)[i]) == Some(RollbackCoreAudioReloaded)
    ensures var lines := Lines(text);
            && i > 1 && ParseRecord(RootJournal, lines[i - 1]).Some?
            && RestartOnRecord(ParseRecord(RootJournal, lines[i - 1]).value, ParseRecord(RootJournal, lines[i]).value)
  {
    hide Lines, ParseRecord, ParseUnsigned, ToDecimal;
    var lines := Lines(text);
    assert TellsOf(lines[i], entries[i - 1]);
    assert Bracketed(entries, i - 1);
    assert TellsOf(lines[i - 1], entries[i - 2]);
    var before, after := entries[i - 1].before, entries[i - 1].after;
    ParseDecimal(before.runs, U64_MAX);
    ParseDecimal(after.runs, U64_MAX);
    ParseDecimal(before.pid, U32_MAX);
    ParseDecimal(after.pid, U32_MAX);
  }
}
