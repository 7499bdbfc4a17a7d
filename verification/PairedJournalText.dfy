/** The text of the paired-host journal: a header, then one record line per state. */
module PairedJournalText {
  import opened Text
  import opened PairedStates

  const HEADER := "OPENSTEAMER_PAIRED_HOST_UPDATE_V2"

  // ------------------------------------------------------------------ printing

  function Field(key: string, value: string): string {
    key + ['='] + value
  }

  /** The fields of one record, each preceded by a space. */
  function FieldsText(keys: seq<string>, values: seq<string>): string
    requires |keys| == |values|
  {
    if keys == [] then "" else [' '] + (Field(keys[0], values[0]) + FieldsText(keys[1..], values[1..]))
  }

  predicate SafeValues(values: seq<string>) {
    forall v :: v in values ==> IsSafeValue(v)
  }

  /** Values the journal accepts in a record for `state`. */
  predicate FitsSchema(state: State, values: seq<string>) {
    |values| == |Schema(state)| && SafeValues(values)
  }

  /** One record, without its final newline. */
  function RecordLine(state: State, values: seq<string>): string
    requires |values| == |Schema(state)|
  {
    "STATE " + Token(state) + FieldsText(Schema(state), values)
  }

  // ------------------------------------------------------------------- parsing

  /** The fields are exactly `keys`, in order, each with a safe value. */
  predicate FieldsMatch(fields: seq<string>, keys: seq<string>) {
    && |fields| == |keys|
    && forall i :: 0 <= i < |fields| ==> FieldMatches(fields[i], keys[i])
  }

  predicate FieldMatches(field: string, key: string) {
    var pair := SplitOnce(field, '=');
    pair.Some? && pair.value.key == key && IsSafeValue(pair.value.value)
  }

  /** The state a record line names, when the line is well formed. */
  function ParseRecord(line: string): Option<State> {
    var fields := Split(line, ' ');
    if fields[0] != "STATE" || |fields| < 2 then None
    else
      var next := ParseToken(fields[1]);
      if next.Some? && FieldsMatch(fields[2..], Schema(next.value)) then next else None
  }

  /** Whether the record on line `i` may stand there: the first record must be BEGUN, and
      every later one must be an allowed successor of the one before. */
  predicate RecordFits(lines: seq<string>, i: nat)
    requires 1 <= i < |lines|
  {
    var next := ParseRecord(lines[i]);
    && next.Some?
    && if i == 1 then next.value == Begun
       else
         var previous := ParseRecord(lines[i - 1]);
         previous.Some? && ValidTransition(previous.value, next.value)
  }

  predicate Accepted(lines: seq<string>) {
    && |lines| >= 2
    && lines[0] == HEADER
    && forall i :: 1 <= i < |lines| ==> RecordFits(lines, i)
  }

  /** The state the journal is in, or `None` when the text is refused. */
  function JournalState(text: string): Option<State> {
    StateOfLines(Lines(text))
  }

  function StateOfLines(lines: seq<string>): Option<State> {
    if Accepted(lines) then ParseRecord(lines[|lines| - 1]) else None
  }

  /** `parse_v2_journal`: one pass over the lines, keeping the last state. */
  method ParseJournal(text: string) returns (result: Option<State>)
    ensures result == JournalState(text)
  {
    hide ParseRecord, Lines;
    var lines := Lines(text);
    if |lines| == 0 || lines[0] != HEADER {
      return None;
    }
    var state: Option<State> := None;
    for i := 1 to |lines|
      invariant forall k :: 1 <= k < i ==> RecordFits(lines, k)
      invariant i == 1 ==> state == None
      invariant i > 1 ==> state.Some? && state == ParseRecord(lines[i - 1])
    {
      var next := ParseRecord(lines[i]);
      if next.None? {
        assert !RecordFits(lines, i);
        return None;
      }
      match state {
        case Some(previous) =>
          if !ValidTransition(previous, next.value) {
            assert !RecordFits(lines, i);
            return None;
          }
        case None =>
          if next.value != Begun {
            assert !RecordFits(lines, i);
            return None;
          }
      }
      state := next;
    }
    return state;
  }

  // --------------------------------------------------- appending one record line

  /** A key or a value: nothing in it ends a field or a line. */
  predicate Unbroken(s: string) {
    ' ' !in s && '\n' !in s && '\r' !in s
  }

  lemma SafeIsUnbroken(value: string)
    requires AllSafe(value)
    ensures Unbroken(value)
  {
  }

  lemma EarlyTokens(s: State)
    requires Rank(s) < 6
    ensures AllSafe(Token(s))
  {
  }

  lemma MiddleTokens(s: State)
    requires 6 <= Rank(s) < 12
    ensures AllSafe(Token(s))
  {
  }

  lemma LateTokens(s: State)
    requires 12 <= Rank(s)
    ensures AllSafe(Token(s))
  {
  }

  lemma TokenIsUnbroken(s: State)
    ensures Unbroken(Token(s)) && Token(s) != ""
  {
    assert Token(s) != "";
    assert AllSafe(Token(s)) by {
      if Rank(s) < 6 {
        EarlyTokens(s);
      } else if Rank(s) < 12 {
        MiddleTokens(s);
      } else {
        LateTokens(s);
      }
    }
    hide Token;
    SafeIsUnbroken(Token(s));
  }

  lemma KeyIsSafe(s: State, i: nat)
    requires i < |Schema(s)|
    ensures IsSafeValue(Schema(s)[i])
  {
  }

  lemma KeysAreUnbroken(s: State)
    ensures forall key :: key in Schema(s) ==> Unbroken(key) && '=' !in key && key != ""
  {
    hide Schema;
    forall i | 0 <= i < |Schema(s)|
      ensures Unbroken(Schema(s)[i]) && '=' !in Schema(s)[i] && Schema(s)[i] != ""
    {
      KeyIsSafe(s, i);
    }
  }

  lemma HeaderIsPlain()
    ensures PlainLine(HEADER)
  {
    assert AllSafe(HEADER);
  }

  /** The record split at its spaces. */
  function RecordParts(state: State, values: seq<string>): (parts: seq<string>)
    requires |values| == |Schema(state)|
    ensures |parts| >= 2
  {
    ["STATE", Token(state)] + FieldParts(Schema(state), values)
  }

  function FieldParts(keys: seq<string>, values: seq<string>): (parts: seq<string>)
    requires |keys| == |values|
    ensures |parts| == |keys|
    ensures forall i :: 0 <= i < |keys| ==> parts[i] == Field(keys[i], values[i])
  {
    seq(|keys|, i requires 0 <= i < |keys| => Field(keys[i], values[i]))
  }

  lemma {:induction false} FieldsTextJoins(first: string, keys: seq<string>, values: seq<string>)
    requires |keys| == |values|
    ensures Join([first] + FieldParts(keys, values), ' ') == first + FieldsText(keys, values)
    decreases |keys|
  {
    var parts := FieldParts(keys, values);
    if keys == [] {
      assert [first] + parts == [first];
    } else {
      var rest := FieldParts(keys[1..], values[1..]);
      assert parts == [parts[0]] + rest;
      assert ([first] + parts)[1..] == [parts[0]] + rest;
      FieldsTextJoins(parts[0], keys[1..], values[1..]);
      assert parts[0] == Field(keys[0], values[0]);
    }
  }

  lemma PartsAreUnbroken(state: State, values: seq<string>)
    requires FitsSchema(state, values)
    ensures forall p :: p in RecordParts(state, values) ==> Unbroken(p)
  {
    hide Token, Schema;
    var parts := RecordParts(state, values);
    var keys := Schema(state);
    TokenIsUnbroken(state);
    KeysAreUnbroken(state);
    forall i | 0 <= i < |parts| ensures Unbroken(parts[i]) {
      if i >= 2 {
        assert parts[i] == Field(keys[i - 2], values[i - 2]);
        assert keys[i - 2] in keys && values[i - 2] in values;
        SafeIsUnbroken(values[i - 2]);
      }
    }
  }

  lemma RecordLineSplits(state: State, values: seq<string>)
    requires FitsSchema(state, values)
    ensures Split(RecordLine(state, values), ' ') == RecordParts(state, values)
    ensures '\n' !in RecordLine(state, values) && '\r' !in RecordLine(state, values)
  {
    hide Token, Schema, IsSafeValue;
    var parts := RecordParts(state, values);
    var fields := FieldParts(Schema(state), values);
    assert RecordLine(state, values) == Join(parts, ' ') by {
      FieldsTextJoins(Token(state), Schema(state), values);
      assert parts[1..] == [Token(state)] + fields;
    }
    hide FieldsText;
    PartsAreUnbroken(state, values);
    SplitJoin(parts, ' ');
    JoinIsPlain(parts);
  }

  lemma {:induction false} JoinIsPlain(parts: seq<string>)
    requires |parts| >= 1 && forall p :: p in parts ==> Unbroken(p)
    ensures '\n' !in Join(parts, ' ') && '\r' !in Join(parts, ' ')
  {
    assert parts[0] in parts;
    if |parts| > 1 {
      JoinIsPlain(parts[1..]);
    }
  }

  /** A record line with safe values parses back to its state. */
  lemma RecordParses(state: State, values: seq<string>)
    requires FitsSchema(state, values)
    ensures ParseRecord(RecordLine(state, values)) == Some(state)
  {
    RecordLineSplits(state, values);
    var parts := RecordParts(state, values);
    var fields := FieldParts(Schema(state), values);
    ParseTokenIff(parts[1], state);
    assert parts[2..] == fields;
    KeysAreUnbroken(state);
    forall i | 0 <= i < |fields| ensures FieldMatches(fields[i], Schema(state)[i]) {
      SplitOnceOf(Schema(state)[i], '=', values[i]);
    }
  }

  /** A line is read as a record exactly when it is one that is written for its state. */
  lemma ParseRecordIff(line: string, state: State)
    ensures ParseRecord(line) == Some(state) <==>
            exists values :: FitsSchema(state, values) && line == RecordLine(state, values)
  {
    hide Token, Schema, ParseToken, RecordLine, IsSafeValue;
    if ParseRecord(line) == Some(state) {
      var values := ReadValues(line, state);
      assert FitsSchema(state, values) && line == RecordLine(state, values);
    }
    if values :| FitsSchema(state, values) && line == RecordLine(state, values) {
      RecordParses(state, values);
    }
  }

  lemma ReadValues(line: string, state: State) returns (values: seq<string>)
    requires ParseRecord(line) == Some(state)
    ensures FitsSchema(state, values) && line == RecordLine(state, values)
  {
    hide Token, Schema, ParseToken, IsSafeValue;
    var keys, fields := Schema(state), Split(line, ' ')[2..];
    ParseTokenIff(Split(line, ' ')[1], state);
    values := seq(|fields|, i requires 0 <= i < |fields| => SplitOnce(fields[i], '=').GetOr(Pair("", "")).value);
    forall i | 0 <= i < |fields| ensures fields[i] == Field(keys[i], values[i]) && IsSafeValue(values[i]) {
      assert FieldMatches(fields[i], keys[i]);
    }
    assert Split(line, ' ') == RecordParts(state, values);
    JoinSplit(line, ' ');
    RecordJoins(state, values);
  }

  lemma RecordJoins(state: State, values: seq<string>)
    requires |values| == |Schema(state)|
    ensures RecordLine(state, values) == Join(RecordParts(state, values), ' ')
  {
    hide Token, Schema;
    FieldsTextJoins(Token(state), Schema(state), values);
    assert RecordParts(state, values)[1..] == [Token(state)] + FieldParts(Schema(state), values);
  }

  /** Adding one well-formed line to accepted lines. */
  lemma AppendLine(lines: seq<string>, line: string, previous: State, next: State)
    requires StateOfLines(lines) == Some(previous)
    requires ParseRecord(line) == Some(next)
    ensures StateOfLines(lines + [line]) ==
            if ValidTransition(previous, next) then Some(next) else None
  {
    hide ParseRecord;
    var whole := lines + [line];
    assert forall i :: 1 <= i < |lines| ==> RecordFits(whole, i) == RecordFits(lines, i);
    assert RecordFits(whole, |lines|) == ValidTransition(previous, next);
  }

  /** Appending a complete, allowed record moves the journal to the recorded state; a record
      that is not allowed next makes the whole text unacceptable. */
  lemma AppendRecord(text: string, previous: State, next: State, values: seq<string>)
    requires EndsWithNewline(text) && JournalState(text) == Some(previous)
    requires FitsSchema(next, values)
    ensures JournalState(text + (RecordLine(next, values) + "\n")) ==
            if ValidTransition(previous, next) then Some(next) else None
  {
    hide RecordLine, ParseRecord, StateOfLines, Lines;
    var line := RecordLine(next, values);
    RecordLineSplits(next, values);
    RecordParses(next, values);
    assert PlainLine(line);
    LinesOfLine(line);
    LinesOfAppend(text, line + "\n");
    AppendLine(Lines(text), line, previous, next);
  }

  lemma FreshJournal()
    ensures JournalState(HEADER + "\n" + (RecordLine(Begun, []) + "\n")) == Some(Begun)
  {
    var line := RecordLine(Begun, []);
    assert Lines(HEADER + "\n" + (line + "\n")) == [HEADER, line] by {
      hide RecordLine;
      RecordLineSplits(Begun, []);
      HeaderIsPlain();
      LinesOfLine(HEADER);
      LinesOfLine(line);
      LinesOfAppend(HEADER + "\n", line + "\n");
    }
    assert StateOfLines([HEADER, line]) == Some(Begun) by {
      hide RecordLine;
      RecordParses(Begun, []);
      hide ParseRecord;
      assert RecordFits([HEADER, line], 1);
    }
  }

  // ------------------------------------------------------- what acceptance means

  /** The lines are the header and then one well-formed record per state of `history`. */
  predicate Records(lines: seq<string>, history: seq<State>) {
    && |lines| == |history| + 1
    && lines[0] == HEADER
    && forall i :: 0 <= i < |history| ==> ParseRecord(lines[i + 1]) == Some(history[i])
  }

  lemma AcceptedHasHistory(lines: seq<string>, s: State) returns (history: seq<State>)
    requires StateOfLines(lines) == Some(s)
    ensures LegalHistory(history) && history[|history| - 1] == s && Records(lines, history)
  {
    hide ParseRecord, ValidTransition;
    history := seq(|lines| - 1, i requires 0 <= i < |lines| - 1 => ParseRecord(lines[i + 1]).GetOr(Begun));
    forall i | 0 <= i < |history| ensures ParseRecord(lines[i + 1]) == Some(history[i]) {
      assert RecordFits(lines, i + 1);
    }
    forall i | 1 <= i < |history| ensures ValidTransition(history[i - 1], history[i]) {
      assert RecordFits(lines, i + 1);
    }
    assert RecordFits(lines, 1);
  }

  lemma HistoryIsAccepted(lines: seq<string>, history: seq<State>)
    requires LegalHistory(history) && Records(lines, history)
    ensures StateOfLines(lines) == Some(history[|history| - 1])
  {
    hide ParseRecord, ValidTransition;
    forall i | 1 <= i < |lines| ensures RecordFits(lines, i) {
      assert ParseRecord(lines[i - 1 + 1]) == Some(history[i - 1]);
      if i > 1 {
        assert ParseRecord(lines[i - 2 + 1]) == Some(history[i - 2]);
      }
    }
    assert ParseRecord(lines[|history| - 1 + 1]) == Some(history[|history| - 1]);
  }

  /** A journal is accepted in state `s` exactly when its lines are the header followed by
      the records of a legal history that ends at `s`. */
  lemma AcceptedIffLegalHistory(text: string, s: State)
    ensures JournalState(text) == Some(s) <==>
            exists history :: LegalHistory(history) && history[|history| - 1] == s
                              && Records(Lines(text), history)
  {
    hide Lines, StateOfLines;
    if JournalState(text) == Some(s) {
      var history := AcceptedHasHistory(Lines(text), s);
    }
    if history :| LegalHistory(history) && history[|history| - 1] == s && Records(Lines(text), history) {
      HistoryIsAccepted(Lines(text), history);
    }
  }
}
