/** The text of the diagnostic-driver journals and what a crash leaves of a new snapshot. */
module DriverJournalText {
  import opened Text
  import opened DriverStates

  /** The same code keeps two journals: one for root and one for the user. */
  datatype Kind = RootJournal | UserJournal

  function Header(kind: Kind): string {
    match kind
    case RootJournal => ROOT_HEADER
    case UserJournal => USER_HEADER
  }

  const ROOT_HEADER := "OPENSTEAMER_DIAGNOSTIC_DRIVER_ROOT_UPDATE_V1"
  const USER_HEADER := "OPENSTEAMER_DIAGNOSTIC_DRIVER_UPDATE_V1"

  type Fields = map<string, string>

  // ------------------------------------------------------------------ field checks

  /** The exact field names of a record. */
  function Schema(kind: Kind, state: State): set<string> {
    match (kind, state)
    case (RootJournal, Authenticated) =>
      {"coreaudiod_pid", "coreaudiod_runs", "host_pid", "host_runs", "release_commit", "release_tree"}
    case (RootJournal, HostStopInitiated) =>
      {"available_bytes", "reserve_bytes", "reserve_device", "reserve_inode"}
    case (RootJournal, PriorDriverRetained) => {"device", "inode"}
    case (RootJournal, RollbackCoreAudioReloadInitiated) => {"old_pid", "old_runs"}
    case (RootJournal, CoreAudioReloaded) => {"new_pid", "new_runs", "old_pid"}
    case (RootJournal, RollbackCoreAudioReloaded) => {"new_pid", "new_runs", "old_pid"}
    case (RootJournal, DriverValidated) => {"driver_generation"}
    case (RootJournal, HostBootstrapped) => {"nonce", "pid", "runs"}
    case (RootJournal, HostRebootstrapped) => {"nonce", "pid", "runs"}
    case (UserJournal, Authenticated) => {"host_pid", "nonce", "release_commit", "release_tree"}
    case _ => {}
  }

  predicate ValidValue(state: State, key: string, value: string) {
    if key == "release_commit" || key == "release_tree" then LowerHex(value, 40)
    else if key == "nonce" then LowerHex(value, if state == Authenticated then 32 else 64)
    else CanonicalPositive(value, U64_MAX).Some?
  }

  /** `validate_journal_fields` */
  predicate ValidFields(kind: Kind, state: State, fields: Fields) {
    && fields.Keys == Schema(kind, state)
    && forall key :: key in fields ==> ValidValue(state, key, fields[key])
  }

  // ------------------------------------------------------------------- parsing

  /** The fields of a record; an empty part or a repeated key is refused. */
  function FieldsOf(words: seq<string>): Option<Fields> {
    if words == [] then Some(map[])
    else
      var last := |words| - 1;
      var pair := SplitOnce(words[last], '=');
      var before := FieldsOf(words[..last]);
      if pair.None? || before.None? then None
      else
        var Pair(key, value) := pair.value;
        if key == "" || value == "" || key in before.value then None
        else Some(before.value[key := value])
  }

  datatype Record = Record(state: State, fields: Fields)

  /** The record a line holds, when the line is well formed. */
  function ParseRecord(kind: Kind, line: string): Option<Record> {
    var words := Words(line);
    if |words| < 2 || words[0] != "STATE" then None
    else
      var state, fields := ParseToken(words[1]), FieldsOf(words[2..]);
      if state.Some? && fields.Some? && ValidFields(kind, state.value, fields.value)
      then Some(Record(state.value, fields.value))
      else None
  }

  /** Whether the record on line `i` may stand there. */
  predicate RecordFits(kind: Kind, lines: seq<string>, i: nat)
    requires 1 <= i < |lines|
  {
    var next := ParseRecord(kind, lines[i]);
    && next.Some?
    && if i == 1 then next.value.state == Begun
       else
         var previous := ParseRecord(kind, lines[i - 1]);
         previous.Some? && ValidTransition(previous.value.state, next.value.state)
  }

  predicate Accepted(kind: Kind, lines: seq<string>) {
    && |lines| >= 2
    && lines[0] == Header(kind)
    && forall i :: 1 <= i < |lines| ==> RecordFits(kind, lines, i)
  }

  function StateOfLines(kind: Kind, lines: seq<string>): Option<State> {
    if Accepted(kind, lines)
    then
      assert RecordFits(kind, lines, |lines| - 1);
      Some(ParseRecord(kind, lines[|lines| - 1]).value.state)
    else None
  }

  /** The state a journal text is in, or `None` when it is refused. */
  function JournalState(kind: Kind, text: string): Option<State> {
    if EndsWithNewline(text) then StateOfLines(kind, Lines(text)) else None
  }

  /** The field loop of one record. */
  method ParseFields(words: seq<string>) returns (result: Option<Fields>)
    ensures result == FieldsOf(words)
  {
    var fields: Fields := map[];
    for i := 0 to |words|
      invariant FieldsOf(words[..i]) == Some(fields)
    {
      assert words[..i + 1][..i] == words[..i];
      var pair := SplitOnce(words[i], '=');
      if pair.None? || pair.value.key == "" || pair.value.value == "" || pair.value.key in fields {
        FieldsFail(words, i + 1);
        return None;
      }
      fields := fields[pair.value.key := pair.value.value];
    }
    assert words[..|words|] == words;
    return Some(fields);
  }

  lemma {:induction false} FieldsFail(words: seq<string>, k: nat)
    requires k <= |words| && FieldsOf(words[..k]).None?
    ensures FieldsOf(words).None?
  {
    if k < |words| {
      var last := |words| - 1;
      assert words[..last][..k] == words[..k];
      FieldsFail(words[..last], k);
    } else {
      assert words[..k] == words;
    }
  }

  /** `parse_journal_text`: one pass over the lines, keeping the last state. */
  method ParseJournal(kind: Kind, text: string) returns (result: Option<State>)
    ensures result == JournalState(kind, text)
  {
    hide Words, FieldsOf, ValidFields, Lines, ParseToken, Header;
    var lines := Lines(text);
    if |lines| == 0 || lines[0] != Header(kind) || !EndsWithNewline(text) {
      return None;
    }
    var state: Option<State> := None;
    for i := 1 to |lines|
      invariant forall k :: 1 <= k < i ==> RecordFits(kind, lines, k)
      invariant i == 1 ==> state == None
      invariant i > 1 ==> ParseRecord(kind, lines[i - 1]).Some?
      invariant i > 1 ==> state == Some(ParseRecord(kind, lines[i - 1]).value.state)
    {
      var words := Words(lines[i]);
      if |words| < 2 || words[0] != "STATE" {
        assert !RecordFits(kind, lines, i);
        return None;
      }
      var parsed := ParseToken(words[1]);
      var fields := ParseFields(words[2..]);
      if parsed.None? || fields.None? || !ValidFields(kind, parsed.value, fields.value) {
        assert !RecordFits(kind, lines, i);
        return None;
      }
      assert ParseRecord(kind, lines[i]) == Some(Record(parsed.value, fields.value));
      if i > 1 {
        assert RecordFits(kind, lines, i - 1);
      }
      if (if state.Some? then !ValidTransition(state.value, parsed.value) else parsed.value != Begun) {
        assert !RecordFits(kind, lines, i);
        return None;
      }
      state := parsed;
    }
    return state;
  }

  // ------------------------------------------------------- what acceptance means

  /** The lines are the header and then one well-formed record per state of `history`. */
  predicate Records(kind: Kind, lines: seq<string>, history: seq<State>) {
    && |lines| == |history| + 1
    && lines[0] == Header(kind)
    && forall i :: 0 <= i < |history| ==>
         StateOn(kind, lines[i + 1]) == Some(history[i])
  }

  /** The state of the record a line holds. */
  function StateOn(kind: Kind, line: string): Option<State> {
    var record := ParseRecord(kind, line);
    if record.None? then None else Some(record.value.state)
  }

  lemma AcceptedHasHistory(kind: Kind, lines: seq<string>, s: State) returns (history: seq<State>)
    requires StateOfLines(kind, lines) == Some(s)
    ensures LegalHistory(history) && Last(history) == s && Records(kind, lines, history)
  {
    hide ParseRecord, ValidTransition, Header;
    history := seq(|lines| - 1, i requires 0 <= i < |lines| - 1 =>
      ParseRecord(kind, lines[i + 1]).GetOr(Record(Begun, map[])).state);
    forall i | 0 <= i < |history|
      ensures StateOn(kind, lines[i + 1]) == Some(history[i])
    {
      assert RecordFits(kind, lines, i + 1);
    }
    forall i | 1 <= i < |history| ensures ValidTransition(history[i - 1], history[i]) {
      assert RecordFits(kind, lines, i + 1);
    }
    assert RecordFits(kind, lines, 1);
    assert RecordFits(kind, lines, |lines| - 1);
  }

  lemma RecordAt(kind: Kind, lines: seq<string>, history: seq<State>, i: nat)
    requires Records(kind, lines, history) && 1 <= i <= |history|
    ensures StateOn(kind, lines[i]) == Some(history[i - 1])
  {
  }

  lemma HistoryIsAccepted(kind: Kind, lines: seq<string>, history: seq<State>)
    requires LegalHistory(history) && Records(kind, lines, history)
    ensures StateOfLines(kind, lines) == Some(Last(history))
  {
    hide ParseRecord, ValidTransition, Header;
    forall i | 1 <= i < |lines| ensures RecordFits(kind, lines, i) {
      RecordAt(kind, lines, history, i);
      if i > 1 {
        RecordAt(kind, lines, history, i - 1);
      }
    }
    RecordAt(kind, lines, history, |history|);
  }

  /** A journal is accepted in state `s` exactly when it is newline-terminated and its lines are
      the header followed by the records of a legal history that ends at `s`. */
  lemma AcceptedIffLegalHistory(kind: Kind, text: string, s: State)
    ensures JournalState(kind, text) == Some(s) <==>
            && EndsWithNewline(text)
            && exists history :: LegalHistory(history) && Last(history) == s
                                 && Records(kind, Lines(text), history)
  {
    hide Lines, StateOfLines, Records;
    if JournalState(kind, text) == Some(s) {
      var history := AcceptedHasHistory(kind, Lines(text), s);
    }
    if EndsWithNewline(text) {
      if history :| LegalHistory(history) && Last(history) == s && Records(kind, Lines(text), history) {
        HistoryIsAccepted(kind, Lines(text), history);
      }
    }
  }

  /** An accepted committed journal, of any length, records exactly the eleven forward states. */
  lemma CommittedJournal(kind: Kind, text: string)
    requires JournalState(kind, text) == Some(Committed)
    ensures Records(kind, Lines(text), FORWARD)
  {
    hide Lines, StateOfLines, Records;
    var history := AcceptedHasHistory(kind, Lines(text), Committed);
    HistoryTheorem(history);
  }

  /** An accepted rolled-back journal, of any length, ends with the whole restore sequence. */
  lemma RolledBackJournal(kind: Kind, text: string) returns (history: seq<State>)
    requires JournalState(kind, text) == Some(RolledBack)
    ensures LegalHistory(history) && Records(kind, Lines(text), history)
    ensures |history| > 5 && history[|history| - 5..] == ROLLBACK_TAIL
  {
    hide Lines, StateOfLines, Records;
    history := AcceptedHasHistory(kind, Lines(text), RolledBack);
    HistoryTheorem(history);
  }
}
