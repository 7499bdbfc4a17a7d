/** The append-only journal file of the paired-host updater. */
module PairedJournal {
  import opened Text
  import opened Faults
  import opened PairedStates
  import opened PairedJournalText
  import opened TornTail

  const MAX_JOURNAL_BYTES := 1_048_576

  /** The length of the text up to and including its last newline. */
  function CompleteLength(bytes: string): (n: nat)
    ensures n <= |bytes|
    ensures n == 0 || bytes[n - 1] == '\n'
    ensures forall k :: n <= k < |bytes| ==> bytes[k] != '\n'
  {
    if bytes == "" then 0
    else if bytes[|bytes| - 1] == '\n' then |bytes|
    else CompleteLength(bytes[..|bytes| - 1])
  }

  /** The state a freshly started process finds in the file, or `None` when it refuses it. */
  function RecoveredState(bytes: string): Option<State> {
    if |bytes| > MAX_JOURNAL_BYTES then None
    else
      var n := CompleteLength(bytes);
      var state := JournalState(bytes[..n]);
      if state.None? || n == |bytes| || IsPlausibleTornTail(bytes[n..], state.value) then state
      else None
  }

  /** The text has no tail. */
  predicate Whole(bytes: string) {
    CompleteLength(bytes) == |bytes|
  }

  lemma CompleteLengthIs(complete: string, tail: string)
    requires EndsWithNewline(complete) && '\n' !in tail
    ensures CompleteLength(complete + tail) == |complete|
  {
    var bytes := complete + tail;
    assert bytes[|complete| - 1] == '\n';
    assert forall k :: |complete| <= k < |bytes| ==> bytes[k] == tail[k - |complete|];
  }

  lemma AcceptedIsNotEmpty(text: string)
    requires JournalState(text).Some?
    ensures text != ""
  {
    assert Lines("") == [];
  }

  /** What a crash leaves.  Whatever part of one allowed record reached the file, the next
      process finds the state from before it, or the state after it when the whole line got
      there; only a cut longer than the torn-tail bound is refused. */
  lemma CrashedAppendRecovers(text: string, previous: State, next: State, values: seq<string>, cut: nat)
    requires EndsWithNewline(text) && JournalState(text) == Some(previous)
    requires ValidTransition(previous, next) && FitsSchema(next, values)
    requires cut <= |RecordLine(next, values) + "\n"|
    requires |text| + cut <= MAX_JOURNAL_BYTES
    ensures RecoveredState(text + (RecordLine(next, values) + "\n")[..cut]) ==
            if cut == |RecordLine(next, values) + "\n"| then Some(next)
            else if cut <= MAX_TORN_TAIL then Some(previous)
            else None
  {
    hide RecordLine, JournalState, IsPlausibleTornTail, ValidTransition, Schema, IsSafeValue;
    var line := RecordLine(next, values) + "\n";
    var bytes := text + line[..cut];
    if cut == |line| {
      AppendRecord(text, previous, next, values);
      assert line[..cut] == line;
      CompleteLengthIs(bytes, "");
      assert bytes + "" == bytes && bytes[..|bytes|] == bytes;
    } else {
      var tail := line[..cut];
      if cut > 0 {
        assert IsCutOf(tail, previous, next, values);
        CutHasNoLineEnd(tail, previous, next, values);
        TornTailExact(tail, previous);
      }
      CompleteLengthIs(text, tail);
      assert bytes[..|text|] == text && bytes[|text|..] == tail;
    }
  }

  // ------------------------------------------------------- what the updater records

  /** What the updater puts on record: the release, the host's pid, the built executable, the
      rollback reserve, and the host that came up. */
  datatype Facts = Facts(commit: string, tree: string, initialPid: nat, executable: string,
                         reserveDevice: nat, reserveInode: nat, reserveBytes: nat,
                         pid: nat, runs: nat, nonce: string)

  predicate ValidFacts(f: Facts) {
    && LowerHex(f.commit, 40) && LowerHex(f.tree, 40) && LowerHex(f.executable, 64) && LowerHex(f.nonce, 64)
  }

  /** The fields that the updater hands to `record`. */
  function FieldsFor(state: State, f: Facts): seq<Pair> {
    match state
    case SourceExported =>
      [Pair("commit", f.commit), Pair("tree", f.tree), Pair("initial_pid", ToDecimal(f.initialPid))]
    case BuildVerified => [Pair("executable_sha256", f.executable)]
    case StopInitiated =>
      [Pair("reserve_device", ToDecimal(f.reserveDevice)), Pair("reserve_inode", ToDecimal(f.reserveInode)),
       Pair("reserve_bytes", ToDecimal(f.reserveBytes))]
    case ReadyVerified => [Pair("pid", ToDecimal(f.pid)), Pair("runs", ToDecimal(f.runs)), Pair("nonce", f.nonce)]
    case CriticalFailure => [Pair("phase", "rollback")]
    case _ => []
  }

  lemma DigitsAreSafe(n: nat)
    ensures IsSafeValue(ToDecimal(n))
  {
    assert AllDigits(ToDecimal(n));
  }

  lemma HexIsSafe(s: string, length: nat)
    requires LowerHex(s, length) && length > 0
    ensures IsSafeValue(s)
  {
  }

  /** Whatever the updater puts on record passes the journal's checks. */
  lemma UpdateIsRecordable(state: State, f: Facts)
    requires ValidFacts(f)
    ensures ValidFields(state, FieldsFor(state, f))
  {
    HexIsSafe(f.commit, 40);
    HexIsSafe(f.tree, 40);
    HexIsSafe(f.executable, 64);
    HexIsSafe(f.nonce, 64);
    assert IsSafeValue("rollback");
    hide IsSafeValue, ToDecimal, LowerHex;
    DigitsAreSafe(f.initialPid);
    DigitsAreSafe(f.reserveDevice);
    DigitsAreSafe(f.reserveInode);
    DigitsAreSafe(f.reserveBytes);
    DigitsAreSafe(f.pid);
    DigitsAreSafe(f.runs);
  }

  // ---------------------------------------------------------------- the journal

  /** How one append to the file goes. */
  datatype AppendFate =
    | Substituted                          // the file is no longer the journal's own
    | Appended
    | AppendedUnproved                     // written, but the final identity proof fails
    | Crashed(cut: nat)                    // the process dies with `cut` bytes written
    | Broken(cut: nat, repair: Repair)     // an error after `cut` bytes

  /** How undoing a broken append goes. */
  datatype Repair = Repaired | TruncateFails | TruncatedUnproved

  predicate ValidFields(state: State, fields: seq<Pair>) {
    && |fields| == |Schema(state)|
    && forall i :: 0 <= i < |fields| ==> fields[i].key == Schema(state)[i] && IsSafeValue(fields[i].value)
  }

  function Values(fields: seq<Pair>): (values: seq<string>)
    ensures |values| == |fields|
  {
    seq(|fields|, i requires 0 <= i < |fields| => fields[i].value)
  }

  lemma ValidFieldsFit(state: State, fields: seq<Pair>)
    requires ValidFields(state, fields)
    ensures FitsSchema(state, Values(fields))
  {
  }

  function RecordBytes(state: State, fields: seq<Pair>): string
    requires |fields| == |Schema(state)|
  {
    RecordLine(state, Values(fields)) + "\n"
  }

  function Min(a: nat, b: nat): nat {
    if a < b then a else b
  }

  /** The bytes on disk; they outlive the process. */
  class JournalFile {
    var bytes: string

    constructor ()
      ensures bytes == ""
    {
      bytes := "";
    }
  }

  class Journal {
    const file: JournalFile
    var state: State
    var healthy: bool

    /** Only the header has been written; the next record must be BEGUN. */
    predicate OnlyHeader()
      reads this, file
    {
      OnlyHeaderBytes(file.bytes) && state == Begun
    }

    /** While the journal is healthy, the file parses to exactly the state in memory. */
    ghost predicate Valid()
      reads this, file
    {
      healthy ==>
        EndsWithNewline(file.bytes) && (OnlyHeader() || JournalState(file.bytes) == Some(state))
    }

    constructor Over(file: JournalFile, state: State)
      ensures this.file == file && this.state == state && healthy
    {
      this.file := file;
      this.state := state;
      this.healthy := true;
    }

    /** `V2Journal::create` on a new, empty file. */
    static method Create(file: JournalFile, headerCut: nat, fate: AppendFate)
      returns (step: Step, journal: Journal?)
      requires file.bytes == ""
      modifies file
      ensures step.Done? ==>
        && journal != null && fresh(journal) && journal.file == file && journal.Valid() && journal.healthy
        && journal.state == Begun && JournalState(file.bytes) == Some(Begun)
      ensures step.Done? <==> headerCut > |HEADER| && fate.Appended?
      // a creation that was cut leaves no journal, unless all of it got there
      ensures RecoveredState(file.bytes) ==
        if headerCut > |HEADER| && Lands(Outcome(fate, |RecordBytes(Begun, [])|)) then Some(Begun) else None
    {
      hide RecordLine, JournalState, RecoveredState, IsSafeValue;
      journal := null;
      var header := HEADER + "\n";
      CreationIsRecovered(headerCut, fate);
      if headerCut < |header| {
        file.bytes := header[..headerCut];
        return Died, null;
      }
      file.bytes := header;
      journal := new Journal.Over(file, Begun);
      step := journal.Record(Begun, [], fate);
    }

    /** `V2Journal::open`: drops a plausible torn tail and adopts the state before it.
        `truncated` tells how a needed truncation goes. */
    static method Open(file: JournalFile, truncated: Repair) returns (step: Step, journal: Journal?)
      modifies file
      ensures RecoveredState(file.bytes) == RecoveredState(old(file.bytes))
      ensures step.Done? ==>
        && journal != null && fresh(journal) && journal.file == file && journal.Valid() && journal.healthy
        && RecoveredState(old(file.bytes)) == Some(journal.state)
        && JournalState(file.bytes) == Some(journal.state)
      // a tail has to be truncated, and the truncation proved
      ensures step == if RecoveredState(old(file.bytes)).Some? && (Whole(old(file.bytes)) || truncated == Repaired)
                      then Done else Failed
      ensures file.bytes ==
        if RecoveredState(old(file.bytes)).None? || truncated == TruncateFails then old(file.bytes)
        else old(file.bytes)[..CompleteLength(old(file.bytes))]
    {
      hide JournalState, IsPlausibleTornTail;
      journal := null;
      var bytes := file.bytes;
      if |bytes| > MAX_JOURNAL_BYTES {
        return Failed, null;
      }
      var complete := CompleteLength(bytes);
      var state := ParseJournal(bytes[..complete]);
      if state.None? {
        return Failed, null;
      }
      AcceptedIsNotEmpty(bytes[..complete]);
      if complete != |bytes| {
        if !IsPlausibleTornTail(bytes[complete..], state.value) || truncated == TruncateFails {
          return Failed, null;
        }
        file.bytes := bytes[..complete];
        CompleteLengthIs(bytes[..complete], "");
        assert bytes[..complete] + "" == bytes[..complete];
        assert file.bytes[..complete] == file.bytes;
        if truncated == TruncatedUnproved {
          return Failed, null;
        }
      }
      assert bytes[..|bytes|] == bytes;
      journal := new Journal.Over(file, state.value);
      step := Done;
    }

    /** `V2Journal::record`: appends one record, or leaves the file as it was, or poisons the
        journal so that it never writes again.  Seen through what the next process recovers, it
        is the record step of the update's machine. */
    method Record(next: State, fields: seq<Pair>, fate: AppendFate) returns (step: Step)
      requires Valid() && (OnlyHeader() ==> next == Begun)
      modifies this, file
      ensures Valid()
      // refused: nothing is written
      ensures !old(healthy) ==> step.Failed? && unchanged(this) && unchanged(file)
      ensures !(ValidTransition(old(state), next) && ValidFields(next, fields)) ==>
        && step.Failed? && state == old(state) && unchanged(file)
        && (healthy <==> old(healthy) && !fate.Substituted?)
      // attempted: the step, the bytes and the memory
      ensures old(healthy) && ValidTransition(old(state), next) && ValidFields(next, fields) ==>
        var outcome := Outcome(fate, |RecordBytes(next, fields)|);
        && step == Seen(outcome)
        && file.bytes == BytesAfter(old(file.bytes), RecordBytes(next, fields), fate)
        && state == (if step.Done? then next else old(state))
        && (outcome.Err? && outcome.poisoned ==> !healthy)
        && (outcome == Err(false, false) && !old(OnlyHeader()) && |old(file.bytes)| <= MAX_JOURNAL_BYTES ==> healthy)
        && (step.Done? ==> healthy)
      ensures step.Failed? && healthy ==> file.bytes == old(file.bytes)
      // recovered: what a new process finds
      ensures && old(healthy) && !old(OnlyHeader())
              && ValidTransition(old(state), next) && ValidFields(next, fields)
              && |RecordBytes(next, fields)| <= MAX_TORN_TAIL
              && |old(file.bytes)| + |RecordBytes(next, fields)| <= MAX_JOURNAL_BYTES
              ==> RecoveredState(file.bytes) ==
                  Some(if Lands(Outcome(fate, |RecordBytes(next, fields)|)) then next else old(state))
    {
      hide RecordLine, JournalState, ValidTransition, Schema, IsSafeValue, RecoveredState;
      if !healthy {
        return Failed;
      }
      if !ValidTransition(state, next) || !ValidFields(next, fields) {
        healthy := !fate.Substituted?;
        return Failed;
      }
      ValidFieldsFit(next, fields);
      ghost var header := OnlyHeader();
      var prior, record := file.bytes, RecordBytes(next, fields);
      if !header {
        AppendIsRecovered(prior, state, next, fields, fate);
      }
      if fate.Substituted? {
        healthy := false;
        return Failed;
      }
      var written :=
        if fate.Crashed? || fate.Broken? then record[..Min(fate.cut, |record|)] else record;
      healthy := false;
      file.bytes := prior + written;
      match fate {
        case Crashed(_) =>
          return Died;
        case Broken(_, repair) =>
          assert (prior + written)[..|prior|] == prior;
          RestoreAfterFailedAppend(|prior|, repair);
          return Failed;
        case AppendedUnproved =>
          return Failed;
        case _ =>
      }
      if header && next == Begun {
        FirstRecord(prior, fields);
      } else {
        AppendRecord(prior, state, next, Values(fields));
      }
      state := next;
      healthy := true;
      return Done;
    }

    /** `restore_after_failed_append`: the journal becomes usable again only when the file is
        back to the bytes it had and still parses to the state in memory. */
    method RestoreAfterFailedAppend(priorLength: nat, repair: Repair)
      requires !healthy && priorLength <= |file.bytes|
      modifies this, file
      ensures state == old(state)
      ensures file.bytes ==
        if repair.TruncateFails? then old(file.bytes) else old(file.bytes)[..priorLength]
      ensures healthy <==>
        && repair.Repaired? && priorLength <= MAX_JOURNAL_BYTES
        && EndsWithNewline(old(file.bytes)[..priorLength])
        && JournalState(old(file.bytes)[..priorLength]) == Some(state)
    {
      if repair.TruncateFails? {
        return;
      }
      file.bytes := file.bytes[..priorLength];
      if repair.TruncatedUnproved? || |file.bytes| > MAX_JOURNAL_BYTES || !EndsWithNewline(file.bytes) {
        return;
      }
      var parsed := ParseJournal(file.bytes);
      if parsed == Some(state) {
        healthy := true;
      }
    }
  }

  /** The point of a machine run that an append with this fate amounts to. */
  function Outcome(fate: AppendFate, size: nat): Fate {
    match fate
    case Appended => Go
    case AppendedUnproved => Err(true, true)
    case Substituted => Err(false, true)
    case Crashed(cut) => Die(cut >= size)
    case Broken(_, Repaired) => Err(false, false)
    case Broken(cut, TruncateFails) => Err(cut >= size, true)
    case Broken(_, TruncatedUnproved) => Err(false, true)
  }

  /** What an append leaves in the file. */
  function BytesAfter(prior: string, record: string, fate: AppendFate): string {
    match fate
    case Appended => prior + record
    case AppendedUnproved => prior + record
    case Substituted => prior
    case Crashed(cut) => prior + record[..Min(cut, |record|)]
    case Broken(cut, TruncateFails) => prior + record[..Min(cut, |record|)]
    case Broken(_, _) => prior
  }

  lemma AppendIsRecovered(prior: string, previous: State, next: State, fields: seq<Pair>, fate: AppendFate)
    requires EndsWithNewline(prior) && JournalState(prior) == Some(previous)
    requires ValidTransition(previous, next) && ValidFields(next, fields)
    ensures |RecordBytes(next, fields)| <= MAX_TORN_TAIL
            && |prior| + |RecordBytes(next, fields)| <= MAX_JOURNAL_BYTES
            ==> RecoveredState(BytesAfter(prior, RecordBytes(next, fields), fate)) ==
                Some(if Lands(Outcome(fate, |RecordBytes(next, fields)|)) then next else previous)
  {
    hide RecordLine, JournalState, ValidTransition, Schema, IsSafeValue, RecoveredState;
    ValidFieldsFit(next, fields);
    var record := RecordBytes(next, fields);
    if |record| <= MAX_TORN_TAIL && |prior| + |record| <= MAX_JOURNAL_BYTES {
      var cut :=
        match fate
        case Appended => |record|
        case AppendedUnproved => |record|
        case Substituted => 0
        case Crashed(c) => Min(c, |record|)
        case Broken(c, TruncateFails) => Min(c, |record|)
        case Broken(_, _) => 0;
      CrashedAppendRecovers(prior, previous, next, Values(fields), cut);
      assert prior + record[..0] == prior && record[..|record|] == record;
      assert BytesAfter(prior, record, fate) == prior + record[..cut];
    }
  }

  /** The whole text of a new journal. */
  function NewText(): string {
    HEADER + "\n" + (RecordLine(Begun, []) + "\n")
  }

  /** Of the prefixes of a new journal only the whole is one. */
  lemma NewCut(k: nat)
    requires k <= |NewText()|
    ensures RecoveredState(NewText()[..k]) == if k == |NewText()| then Some(Begun) else None
  {
    hide RecordLine, JournalState, IsPlausibleTornTail;
    var header, line := HEADER + "\n", RecordLine(Begun, []);
    RecordLineSplits(Begun, []);
    HeaderIsPlain();
    HeaderIsNoJournal();
    NewIsSmall();
    if k == |NewText()| {
      FreshJournal();
      CompleteLengthIs(NewText(), "");
      assert NewText() + "" == NewText() && NewText()[..k] == NewText();
    } else if k >= |header| {
      var tail := line[..k - |header|];
      CompleteLengthIs(header, tail);
      assert NewText()[..k] == header + tail && (header + tail)[..|header|] == header;
    } else {
      assert NewText()[..k] == HEADER[..k];
      NoLineEndIsNoJournal(HEADER[..k]);
    }
  }

  lemma NoLineEndIsNoJournal(bytes: string)
    requires '\n' !in bytes
    ensures RecoveredState(bytes) == None
  {
    hide JournalState;
    assert CompleteLength(bytes) == 0;
    if JournalState("").Some? {
      AcceptedIsNotEmpty("");
    }
    assert bytes[..0] == "";
  }

  lemma HeaderIsNoJournal()
    ensures JournalState(HEADER + "\n") == None
  {
    HeaderIsPlain();
    LinesOfLine(HEADER);
  }

  lemma NewIsSmall()
    ensures |NewText()| <= MAX_JOURNAL_BYTES
  {
  }

  lemma CreationIsRecovered(headerCut: nat, fate: AppendFate)
    ensures headerCut <= |HEADER| ==> RecoveredState((HEADER + "\n")[..headerCut]) == None
    ensures RecoveredState(BytesAfter(HEADER + "\n", RecordBytes(Begun, []), fate)) ==
            if Lands(Outcome(fate, |RecordBytes(Begun, [])|)) then Some(Begun) else None
  {
    hide RecordLine, RecoveredState;
    var header, record := HEADER + "\n", RecordBytes(Begun, []);
    assert Values([]) == [];
    assert NewText() == header + record;
    if headerCut <= |HEADER| {
      NewCut(headerCut);
      assert NewText()[..headerCut] == header[..headerCut];
    }
    var cut :=
      match fate
      case Appended => |record|
      case AppendedUnproved => |record|
      case Substituted => 0
      case Crashed(c) => Min(c, |record|)
      case Broken(c, TruncateFails) => Min(c, |record|)
      case Broken(_, _) => 0;
    NewCut(|header| + cut);
    assert NewText()[..|header| + cut] == header + record[..cut];
    assert header + record[..0] == header && record[..|record|] == record;
  }

  predicate OnlyHeaderBytes(bytes: string) {
    bytes == HEADER + "\n"
  }

  lemma FirstRecord(bytes: string, fields: seq<Pair>)
    requires OnlyHeaderBytes(bytes) && ValidFields(Begun, fields)
    ensures JournalState(bytes + RecordBytes(Begun, fields)) == Some(Begun)
    ensures EndsWithNewline(bytes + RecordBytes(Begun, fields))
  {
    assert fields == [];
    assert Values(fields) == [];
    FreshJournal();
  }
}
