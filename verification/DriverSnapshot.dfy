/** Writing a journal record, and judging the unpublished snapshot a crash may leave behind. */
module DriverSnapshot {
  import opened Text
  import opened DriverStates
  import opened DriverJournalText

  // --------------------------------------------------------------- printing a record

  predicate IsKeyChar(c: char) {
    IsDigit(c) || 'a' <= c <= 'z' || 'A' <= c <= 'Z' || c == '_'
  }

  predicate CanonicalField(field: Pair) {
    && field.key != "" && (forall c :: c in field.key ==> IsKeyChar(c))
    && field.value != "" && (forall c :: c in field.value ==> !IsAsciiWhitespace(c) && c != '=')
  }

  /** The fields as a map; a repeated key keeps its last value. */
  function FieldMap(fields: seq<Pair>): Fields {
    if fields == [] then map[]
    else FieldMap(fields[..|fields| - 1])[fields[|fields| - 1].key := fields[|fields| - 1].value]
  }

  /** What `record` demands of the fields it is given. */
  predicate Recordable(kind: Kind, state: State, fields: seq<Pair>) {
    && (forall field :: field in fields ==> CanonicalField(field))
    && |FieldMap(fields)| == |fields|
    && ValidFields(kind, state, FieldMap(fields))
  }

  function FieldWord(field: Pair): string {
    field.key + ['='] + field.value
  }

  function FieldWords(fields: seq<Pair>): (words: seq<string>)
    ensures |words| == |fields| && forall i :: 0 <= i < |fields| ==> words[i] == FieldWord(fields[i])
  {
    seq(|fields|, i requires 0 <= i < |fields| => FieldWord(fields[i]))
  }

  function RecordWords(state: State, fields: seq<Pair>): (words: seq<string>)
    ensures |words| == |fields| + 2
  {
    ["STATE", Token(state)] + FieldWords(fields)
  }

  /** A record line without its line end. */
  function RecordLine(state: State, fields: seq<Pair>): string {
    Join(RecordWords(state, fields), ' ')
  }

  /** The printing loop of `record`. */
  method PrintRecord(state: State, fields: seq<Pair>) returns (line: string)
    ensures line == RecordLine(state, fields) + "\n"
  {
    hide Token;
    line := "STATE " + Token(state);
    var words := RecordWords(state, fields);
    assert words[..2] == ["STATE", Token(state)];
    JoinSnoc(["STATE"], Token(state), ' ');
    for i := 0 to |fields|
      invariant line == Join(words[..i + 2], ' ')
    {
      assert words[..i + 3] == words[..i + 2] + [FieldWord(fields[i])];
      JoinSnoc(words[..i + 2], FieldWord(fields[i]), ' ');
      line := line + [' '] + (fields[i].key + ['='] + fields[i].value);
    }
    assert words[..|fields| + 2] == words;
    line := line + "\n";
  }

  // ---------------------------------------------------- a printed record reads back

  predicate IsKeyText(s: string) {
    |s| > 0 && forall i :: 0 <= i < |s| ==> IsKeyChar(s[i])
  }

  function Group(s: State): nat {
    match s
    case Begun => 0
    case Authenticated => 0
    case PrestopAborted => 0
    case HostStopInitiated => 0
    case HostStopped => 1
    case PriorDriverRetained => 1
    case ReadyVerified => 1
    case Committed => 1
    case CandidatePublished => 2
    case CoreAudioReloaded => 2
    case DriverValidated => 2
    case HostBootstrapped => 3
    case RollbackStarted => 3
    case RolledBack => 3
    case CriticalFailure => 3
    case FailedDriverArchived => 4
    case PriorDriverRestored => 4
    case HostRebootstrapped => 4
    case _ => 5
  }

  lemma FirstTokens(s: State)
    requires Group(s) == 0
    ensures IsKeyText(Token(s))
  {
  }

  lemma SecondTokens(s: State)
    requires Group(s) == 1
    ensures IsKeyText(Token(s))
  {
  }

  lemma ThirdTokens(s: State)
    requires Group(s) == 2
    ensures IsKeyText(Token(s))
  {
  }

  lemma FourthTokens(s: State)
    requires Group(s) == 3
    ensures IsKeyText(Token(s))
  {
  }

  lemma FifthTokens(s: State)
    requires Group(s) == 4
    ensures IsKeyText(Token(s))
  {
  }

  lemma SixthTokens(s: State)
    requires Group(s) == 5
    ensures IsKeyText(Token(s))
  {
  }

  lemma TokenIsWord(s: State)
    ensures IsWord(Token(s))
  {
    assert IsKeyText(Token(s)) by {
      hide Token, IsKeyText;
      match Group(s) {
        case 0 => FirstTokens(s);
        case 1 => SecondTokens(s);
        case 2 => ThirdTokens(s);
        case 3 => FourthTokens(s);
        case 4 => FifthTokens(s);
        case _ => SixthTokens(s);
      }
    }
    hide Token;
  }

  lemma FieldWordIsWord(field: Pair)
    requires CanonicalField(field)
    ensures IsWord(FieldWord(field)) && SplitOnce(FieldWord(field), '=') == Some(field)
  {
    var w := FieldWord(field);
    forall i | 0 <= i < |w| ensures !IsAsciiWhitespace(w[i]) {
      if i < |field.key| {
        assert w[i] in field.key;
      } else if i > |field.key| {
        assert w[i] == field.value[i - |field.key| - 1];
        assert w[i] in field.value;
      }
    }
    assert '=' !in field.key;
    SplitOnceOf(field.key, '=', field.value);
  }

  lemma InsertSize(m: Fields, field: Pair)
    ensures |m[field.key := field.value]| == |m| + if field.key in m then 0 else 1
  {
    var more := m[field.key := field.value];
    if field.key in m {
      assert more.Keys == m.Keys;
    } else {
      assert more.Keys == m.Keys + {field.key};
    }
  }

  lemma {:induction false} FieldMapSize(fields: seq<Pair>)
    ensures |FieldMap(fields)| <= |fields|
  {
    if fields != [] {
      var before := FieldMap(fields[..|fields| - 1]);
      FieldMapSize(fields[..|fields| - 1]);
      InsertSize(before, fields[|fields| - 1]);
    }
  }

  lemma {:induction false} FieldWordsRead(fields: seq<Pair>)
    requires forall field :: field in fields ==> CanonicalField(field)
    requires |FieldMap(fields)| == |fields|
    ensures FieldsOf(FieldWords(fields)) == Some(FieldMap(fields))
  {
    if fields != [] {
      var last := |fields| - 1;
      var before := FieldMap(fields[..last]);
      FieldMapSize(fields[..last]);
      InsertSize(before, fields[last]);
      FieldWordsRead(fields[..last]);
      assert FieldWords(fields)[..last] == FieldWords(fields[..last]);
      FieldWordIsWord(fields[last]);
    }
  }

  lemma RecordWordsAreWords(state: State, fields: seq<Pair>)
    requires forall field :: field in fields ==> CanonicalField(field)
    ensures forall w :: w in RecordWords(state, fields) ==> IsWord(w)
  {
    hide CanonicalField, FieldWord, Token;
    TokenIsWord(state);
    assert IsWord("STATE");
    var words := RecordWords(state, fields);
    forall i | 0 <= i < |words| ensures IsWord(words[i]) {
      if i >= 2 {
        assert words[i] == FieldWord(fields[i - 2]);
        assert fields[i - 2] in fields;
        FieldWordIsWord(fields[i - 2]);
      }
    }
  }

  lemma {:induction false} JoinedWordsArePlain(words: seq<string>)
    requires |words| >= 1 && forall w :: w in words ==> IsWord(w)
    ensures |Join(words, ' ')| > 0 && PlainLine(Join(words, ' '))
  {
    var w := words[0];
    assert w in words;
    forall c | c in w ensures !IsAsciiWhitespace(c) {
      var i :| 0 <= i < |w| && w[i] == c;
    }
    assert w[|w| - 1] in w;
    if |words| > 1 {
      var rest := Join(words[1..], ' ');
      JoinedWordsArePlain(words[1..]);
      var line := Join(words, ' ');
      assert line == w + [' '] + rest;
      assert line[|line| - 1] == rest[|rest| - 1];
    }
  }

  /** A record line parses back to exactly its state and fields. */
  lemma RecordReadsBack(kind: Kind, state: State, fields: seq<Pair>)
    requires Recordable(kind, state, fields)
    ensures ParseRecord(kind, RecordLine(state, fields)) == Some(Record(state, FieldMap(fields)))
    ensures PlainLine(RecordLine(state, fields))
  {
    hide ValidFields, FieldMap, FieldsOf, Words, Join, Token;
    var words := RecordWords(state, fields);
    RecordWordsAreWords(state, fields);
    WordsJoin(words);
    JoinedWordsArePlain(words);
    FieldWordsRead(fields);
    ParseTokenIff(words[1], state);
    assert words[2..] == FieldWords(fields);
  }

  /** What the field loop has read, word for word. */
  lemma {:induction false} FieldsOfRead(words: seq<string>) returns (fields: seq<Pair>)
    requires FieldsOf(words).Some?
    ensures |fields| == |words| && FieldWords(fields) == words
    ensures FieldMap(fields) == FieldsOf(words).value && |FieldMap(fields)| == |fields|
    ensures forall field :: field in fields ==>
      && field.key != "" && field.value != ""
      && field.key in FieldMap(fields) && FieldMap(fields)[field.key] == field.value
  {
    fields := [];
    if words != [] {
      var last := |words| - 1;
      var before := FieldsOfRead(words[..last]);
      var field := SplitOnce(words[last], '=').value;
      fields := before + [field];
      assert fields[..last] == before;
      InsertSize(FieldMap(before), field);
      assert FieldWord(field) == words[last];
      assert FieldWords(fields) == FieldWords(before) + [words[last]];
      assert words == words[..last] + [words[last]];
    }
  }

  lemma ValidFieldIsCanonical(kind: Kind, state: State, fields: Fields, field: Pair)
    requires ValidFields(kind, state, fields)
    requires field.key in fields && fields[field.key] == field.value && field.key != "" && field.value != ""
    ensures CanonicalField(field)
  {
    hide CanonicalPositive;
    ValidValueIsClean(state, field.key, field.value);
    hide ValidValue;
    SchemaKeysAreClean(kind, state, field.key);
  }

  lemma SchemaKeysAreClean(kind: Kind, state: State, key: string)
    requires key in Schema(kind, state)
    ensures IsKeyText(key)
  {
    LongKeysAreClean();
    HostKeysAreClean();
    ShortKeysAreClean();
    hide IsKeyText;
    assert key in LONG_KEYS + HOST_KEYS + SHORT_KEYS;
  }

  const LONG_KEYS := {"coreaudiod_pid", "coreaudiod_runs", "release_commit", "release_tree", "available_bytes",
                      "reserve_bytes", "reserve_device", "reserve_inode", "driver_generation"}
  const HOST_KEYS := {"host_pid", "host_runs", "device", "inode"}
  const SHORT_KEYS := {"old_pid", "old_runs", "new_pid", "new_runs", "nonce", "pid", "runs"}

  lemma LongKeysAreClean()
    ensures forall key :: key in LONG_KEYS ==> IsKeyText(key)
  {
  }

  lemma HostKeysAreClean()
    ensures forall key :: key in HOST_KEYS ==> IsKeyText(key)
  {
  }

  lemma ShortKeysAreClean()
    ensures forall key :: key in SHORT_KEYS ==> IsKeyText(key)
  {
  }

  lemma ValidValueIsClean(state: State, key: string, value: string)
    requires ValidValue(state, key, value)
    ensures forall c :: c in value ==> !IsAsciiWhitespace(c) && c != '='
  {
    if CanonicalPositive(value, U64_MAX).Some? {
      CanonicalPositiveIff(value, CanonicalPositive(value, U64_MAX).value, U64_MAX);
      assert AllDigits(value);
    }
  }

  /** No key stands twice. */
  predicate DistinctKeys(fields: seq<Pair>) {
    forall i, j :: 0 <= i < j < |fields| ==> fields[i].key != fields[j].key
  }

  function Keys(fields: seq<Pair>): set<string> {
    set i | 0 <= i < |fields| :: fields[i].key
  }

  lemma KeysSnoc(fields: seq<Pair>, last: Pair)
    ensures Keys(fields + [last]) == Keys(fields) + {last.key}
  {
    var more := fields + [last];
    forall key | key in Keys(fields) ensures key in Keys(more) {
      var i :| 0 <= i < |fields| && fields[i].key == key;
      assert more[i].key == key;
    }
    assert more[|fields|].key in Keys(more);
  }

  lemma {:induction false} DistinctMap(fields: seq<Pair>)
    requires DistinctKeys(fields)
    ensures |FieldMap(fields)| == |fields| && FieldMap(fields).Keys == Keys(fields)
    ensures forall i :: 0 <= i < |fields| ==>
      fields[i].key in FieldMap(fields) && FieldMap(fields)[fields[i].key] == fields[i].value
  {
    hide Keys;
    if fields == [] {
      NoKeys();
    } else {
      var last := |fields| - 1;
      var before := fields[..last];
      DistinctMap(before);
      assert fields == before + [fields[last]];
      KeysSnoc(before, fields[last]);
      LastIsNew(fields);
      InsertSize(FieldMap(before), fields[last]);
    }
  }

  lemma NoKeys()
    ensures Keys([]) == {}
  {
  }

  lemma LastIsNew(fields: seq<Pair>)
    requires fields != [] && DistinctKeys(fields)
    ensures fields[|fields| - 1].key !in Keys(fields[..|fields| - 1])
  {
  }

  /** The keys of a short record. */
  lemma KeysOfSix(fields: seq<Pair>)
    requires |fields| <= 6
    ensures Keys(fields) ==
            KeyAt(fields, 0) + KeyAt(fields, 1) + KeyAt(fields, 2)
            + KeyAt(fields, 3) + KeyAt(fields, 4) + KeyAt(fields, 5)
  {
    forall i: nat | i < 6 ensures KeyAt(fields, i) <= Keys(fields) {
    }
  }

  function KeyAt(fields: seq<Pair>, i: nat): set<string> {
    if i < |fields| then {fields[i].key} else {}
  }

  /** What makes fields recordable: the keys are those of the schema, once each, with valid values. */
  lemma DistinctIsRecordable(kind: Kind, state: State, fields: seq<Pair>)
    requires DistinctKeys(fields) && Keys(fields) == Schema(kind, state)
    requires forall i :: 0 <= i < |fields| ==>
               fields[i].value != "" && ValidValue(state, fields[i].key, fields[i].value)
    ensures Recordable(kind, state, fields)
  {
    hide Schema, ValidValue, CanonicalField, FieldMap;
    DistinctMap(fields);
    var m := FieldMap(fields);
    forall key | key in m ensures ValidValue(state, key, m[key]) {
      var i :| 0 <= i < |fields| && fields[i].key == key;
      assert fields[i] in fields;
    }
    forall field | field in fields ensures CanonicalField(field) {
      var i :| 0 <= i < |fields| && fields[i] == field;
      assert fields[i].key in m && m[fields[i].key] == fields[i].value;
      SchemaKeysAreClean(kind, state, field.key);
      ValidFieldIsCanonical(kind, state, m, field);
    }
  }

  lemma ReadPairs(kind: Kind, line: string, state: State, fields: Fields) returns (pairs: seq<Pair>)
    requires ParseRecord(kind, line) == Some(Record(state, fields))
    ensures Recordable(kind, state, pairs) && FieldMap(pairs) == fields && Words(line) == RecordWords(state, pairs)
  {
    hide Token, ParseToken, ValidFields, CanonicalField, Words, FieldsOf, FieldMap;
    var words := Words(line);
    pairs := FieldsOfRead(words[2..]);
    ParseTokenIff(words[1], state);
    assert words == RecordWords(state, pairs);
    forall field | field in pairs ensures CanonicalField(field) {
      ValidFieldIsCanonical(kind, state, fields, field);
    }
  }

  lemma WrittenWordsParse(kind: Kind, line: string, state: State, pairs: seq<Pair>)
    requires Recordable(kind, state, pairs) && Words(line) == RecordWords(state, pairs)
    ensures ParseRecord(kind, line) == Some(Record(state, FieldMap(pairs)))
  {
    hide Token, ParseToken, ValidFields, CanonicalField, Words, FieldsOf, FieldMap;
    FieldWordsRead(pairs);
    ParseTokenIff(Words(line)[1], state);
    assert Words(line)[2..] == FieldWords(pairs);
  }

  /** A line is read as a record exactly when its words are those that are written for it: nothing
      else is accepted, whatever the spaces between the words. */
  lemma ParseRecordIff(kind: Kind, line: string, state: State, fields: Fields)
    ensures ParseRecord(kind, line) == Some(Record(state, fields)) <==>
            exists pairs ::
              && Recordable(kind, state, pairs) && FieldMap(pairs) == fields
              && Words(line) == RecordWords(state, pairs)
  {
    hide ParseRecord, Recordable, Words, FieldMap, RecordWords;
    if ParseRecord(kind, line) == Some(Record(state, fields)) {
      var pairs := ReadPairs(kind, line, state, fields);
    }
    if pairs :|
      && Recordable(kind, state, pairs) && FieldMap(pairs) == fields
      && Words(line) == RecordWords(state, pairs) {
      WrittenWordsParse(kind, line, state, pairs);
    }
  }

  /** Adding one well-formed line to accepted lines. */
  lemma AppendLine(kind: Kind, lines: seq<string>, line: string, previous: State)
    requires StateOfLines(kind, lines) == Some(previous)
    ensures StateOfLines(kind, lines + [line]) ==
            var next := StateOn(kind, line);
            if next.Some? && ValidTransition(previous, next.value) then next else None
  {
    hide ParseRecord, ValidTransition, Header;
    var whole := lines + [line];
    assert RecordFits(kind, lines, |lines| - 1);
    assert forall i :: 1 <= i < |lines| ==> RecordFits(kind, whole, i) == RecordFits(kind, lines, i);
    assert whole[|lines|] == line && whole[|lines| - 1] == lines[|lines| - 1];
    assert RecordFits(kind, whole, |lines|) ==
           (StateOn(kind, line).Some? && ValidTransition(previous, StateOn(kind, line).value));
  }

  /** Appending one line to a journal: the text stays acceptable exactly when the line holds a
      record that is allowed next. */
  lemma AppendText(kind: Kind, text: string, line: string, previous: State)
    requires JournalState(kind, text) == Some(previous) && '\n' !in line
    ensures JournalState(kind, text + (line + "\n")) ==
            var next := StateOn(kind, StripCr(line));
            if next.Some? && ValidTransition(previous, next.value) then next else None
  {
    hide StateOfLines, StateOn, ValidTransition, Lines, StripCr;
    LinesOfAppend(text, line + "\n");
    assert Lines(line + "\n") == [StripCr(line)] by {
      var whole := line + "\n";
      assert whole[..|line|] == line && whole[|line| + 1..] + "" == "" && whole + "" == whole;
      FirstLine(whole, "", |line|);
      EmptyHasNoLines();
    }
    AppendLine(kind, Lines(text), StripCr(line), previous);
  }

  lemma EmptyHasNoLines()
    ensures Lines("") == []
  {
  }

  // ------------------------------------------------------------ the pending snapshot

  datatype PendingAction = Discard | Promote(next: State) | Diverged

  /** The pending text is the canonical one plus exactly one terminated line. */
  predicate ExactSuccessor(canonical: string, pending: string) {
    && canonical <= pending
    && var suffix := pending[|canonical|..];
       && EndsWithNewline(suffix)
       && '\n' !in suffix[..|suffix| - 1]
  }

  lemma ExactSuccessorIff(canonical: string, pending: string)
    ensures ExactSuccessor(canonical, pending) <==>
            exists line :: '\n' !in line && pending == canonical + (line + "\n")
  {
    if ExactSuccessor(canonical, pending) {
      var suffix := pending[|canonical|..];
      var line := suffix[..|suffix| - 1];
      assert suffix == line + "\n";
      assert pending == canonical + suffix;
    }
    if line :| '\n' !in line && pending == canonical + (line + "\n") {
      var suffix := line + "\n";
      assert pending[|canonical|..] == suffix && suffix[..|suffix| - 1] == line;
    }
  }

  /** `classify_pending_journal_snapshot`; `Diverged` is its error. */
  function Classify(kind: Kind, canonical: string, state: State, pending: string): PendingAction {
    if pending == canonical then Discard
    else
      var parsed := JournalState(kind, pending);
      if ExactSuccessor(canonical, pending) && parsed.Some? && ValidTransition(state, parsed.value)
      then Promote(parsed.value)
      else if parsed.None? then Discard
      else Diverged
  }

  /** What each verdict on an arbitrary pending text means. */
  lemma ClassifyMeaning(kind: Kind, canonical: string, state: State, pending: string, next: State)
    requires JournalState(kind, canonical) == Some(state)
    ensures Classify(kind, canonical, state, pending) == Promote(next) <==>
            && JournalState(kind, pending) == Some(next)
            && exists line :: '\n' !in line && pending == canonical + (line + "\n")
    ensures Classify(kind, canonical, state, pending) == Discard <==>
            pending == canonical || JournalState(kind, pending).None?
    ensures Classify(kind, canonical, state, pending) == Promote(next) ==> ValidTransition(state, next)
  {
    hide JournalState, ValidTransition, ExactSuccessor;
    ExactSuccessorIff(canonical, pending);
    if line :| '\n' !in line && pending == canonical + (line + "\n") {
      AppendText(kind, canonical, line, state);
    }
  }

  lemma Unterminated(kind: Kind, text: string)
    requires !EndsWithNewline(text)
    ensures JournalState(kind, text).None?
  {
  }

  lemma ShorterIsNoSuccessor(canonical: string, pending: string)
    requires |pending| < |canonical|
    ensures !ExactSuccessor(canonical, pending)
  {
  }

  /** A journal cut at one of its line ends is a journal, as long as a record is left. */
  lemma EarlierLineEnd(kind: Kind, text: string, state: State, k: nat)
    requires JournalState(kind, text) == Some(state)
    requires 0 < k <= |text| && text[k - 1] == '\n'
    ensures JournalState(kind, text[..k]).Some? <==> |Lines(text[..k])| >= 2
  {
    hide Lines, ParseRecord, ValidTransition, Header;
    LinesOfPrefix(text, k);
    var whole, lines := Lines(text), Lines(text[..k]);
    assert forall i :: 0 <= i < |lines| ==> lines[i] == whole[i];
    forall i | 1 <= i < |lines| ensures RecordFits(kind, lines, i) {
      assert RecordFits(kind, whole, i);
    }
  }

  /** How a snapshot of a journal and its next record can be cut: every byte prefix. */
  lemma CutSnapshot(kind: Kind, canonical: string, state: State, line: string, next: State, k: nat)
    requires JournalState(kind, canonical) == Some(state)
    requires '\n' !in line && JournalState(kind, canonical + (line + "\n")) == Some(next)
    requires k <= |canonical| + |line| + 1
    ensures Classify(kind, canonical, state, (canonical + (line + "\n"))[..k]) ==
            if k == |canonical| + |line| + 1 then Promote(next)
            else if 0 < k < |canonical| && canonical[k - 1] == '\n' && |Lines(canonical[..k])| >= 2 then Diverged
            else Discard
  {
    hide JournalState, ValidTransition, Lines, ExactSuccessor;
    var whole := canonical + (line + "\n");
    var pending := whole[..k];
    if k == |whole| {
      assert pending == whole;
      ClassifyMeaning(kind, canonical, state, whole, next);
      assert '\n' !in line && whole == canonical + (line + "\n");
    } else if k > |canonical| {
      assert pending[k - 1] == line[k - 1 - |canonical|];
      Unterminated(kind, pending);
    } else {
      assert pending == canonical[..k];
      if 0 < k < |canonical| && canonical[k - 1] == '\n' {
        EarlierLineEnd(kind, canonical, state, k);
        ShorterIsNoSuccessor(canonical, pending);
      } else if k < |canonical| {
        Unterminated(kind, pending);
      }
    }
  }
}
