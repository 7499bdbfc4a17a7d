/** The recogniser for a journal record that a crash cut short, and the proof that it accepts
    exactly the proper prefixes of the records that may come next. */
module TornTail {
  import opened Text
  import opened PairedStates
  import opened PairedJournalText

  const MAX_TORN_TAIL := 4096

  function StatePrefix(state: State): string {
    "STATE " + Token(state)
  }

  /** The field scan: every field but the last must be complete; the last may stop anywhere. */
  predicate FieldsPlausible(fields: seq<string>, keys: seq<string>)
    requires |fields| <= |keys|
  {
    if fields == [] then true
    else
      var field, expected, last := fields[0], keys[0] + ['='], |fields| == 1;
      if |field| <= |expected| then last && field <= expected
      else expected <= field && AllSafe(field[|expected|..]) && FieldsPlausible(fields[1..], keys[1..])
  }

  /** `is_plausible_v2_record_prefix`. */
  predicate IsPlausibleRecordPrefix(tail: string, state: State) {
    var prefix, keys := StatePrefix(state), Schema(state);
    if |tail| <= |prefix| then tail <= prefix
    else if !(prefix <= tail) || tail[|prefix|] != ' ' || keys == [] then false
    else
      var fields := Split(tail[|prefix| + 1..], ' ');
      |fields| <= |keys| && FieldsPlausible(fields, keys)
  }

  /** `is_plausible_v2_torn_tail`. */
  predicate IsPlausibleTornTail(tail: string, previous: State) {
    && tail != ""
    && |tail| <= MAX_TORN_TAIL
    && '\n' !in tail
    && '\r' !in tail
    && exists next | next in ALL_STATES ::
         ValidTransition(previous, next) && IsPlausibleRecordPrefix(tail, next)
  }

  /** The meaning of a torn tail: what is left of appending one allowed record, newline
      included, when only a proper part of it reached the file. */
  ghost predicate IsCutRecord(tail: string, previous: State) {
    exists next, values :: IsCutOf(tail, previous, next, values)
  }

  predicate IsCutOf(tail: string, previous: State, next: State, values: seq<string>) {
    && ValidTransition(previous, next)
    && FitsSchema(next, values)
    && 0 < |tail| < |RecordLine(next, values) + "\n"|
    && tail <= RecordLine(next, values) + "\n"
  }

  predicate FieldKeys(keys: seq<string>) {
    forall i :: 0 <= i < |keys| ==> Unbroken(keys[i])
  }

  lemma SplitAtSpace(first: string, rest: string)
    requires ' ' !in first
    ensures Split(first + [' '] + rest, ' ') == [first] + Split(rest, ' ')
  {
    FirstIndexAppend(first, ' ', rest);
  }

  lemma SplitWithoutSpace(s: string)
    requires ' ' !in s
    ensures Split(s, ' ') == [s]
  {
  }

  /** A cut inside the fields of a real record passes the field scan. */
  lemma {:induction false} CutFieldsArePlausible(t: string, keys: seq<string>, values: seq<string>)
    requires |keys| == |values| && keys != [] && FieldKeys(keys) && SafeValues(values)
    requires [' '] + t <= FieldsText(keys, values)
    ensures |Split(t, ' ')| <= |keys| && FieldsPlausible(Split(t, ' '), keys)
    decreases |keys|
  {
    var expected := keys[0] + ['='];
    var first, more := expected + values[0], FieldsText(keys[1..], values[1..]);
    assert FieldsText(keys, values) == [' '] + (first + more);
    assert t <= first + more by {
      assert ([' '] + t)[1..] == t;
    }
    assert values[0] in values;
    SafeIsUnbroken(values[0]);
    assert Unbroken(keys[0]);
    if |t| <= |first| {
      assert t <= first;
      SplitWithoutSpace(t);
      if |t| > |expected| {
        assert forall i :: 0 <= i < |t| - |expected| ==> t[|expected|..][i] == values[0][i];
      }
    } else {
      assert keys[1..] != [];
      var rest := t[|first| + 1..];
      assert more[0] == ' ';
      assert t[|first|] == (first + more)[|first|] == ' ';
      assert t == first + [' '] + rest;
      assert [' '] + rest == t[|first|..] <= more;
      CutFieldsArePlausible(rest, keys[1..], values[1..]);
      SplitAtSpace(first, rest);
      assert first[|expected|..] == values[0];
    }
  }

  function Fillers(n: nat): (values: seq<string>)
    ensures |values| == n && SafeValues(values)
  {
    seq(n, _ => "a")
  }

  /** A first field followed by more of the record. */
  lemma FieldsTextStartsWith(keys: seq<string>, value: string, rest: seq<string>, t: string, more: string)
    requires keys != [] && |rest| == |keys| - 1
    requires t == Field(keys[0], value) + more && more <= FieldsText(keys[1..], rest)
    ensures [' '] + t <= FieldsText(keys, [value] + rest)
  {
    assert ([value] + rest)[1..] == rest;
    hide Field;
    var field, after := Field(keys[0], value), FieldsText(keys[1..], rest);
    PrefixUnder(field, more, after);
    PrefixUnder([' '], t, field + after);
  }

  lemma PrefixUnder(head: string, a: string, b: string)
    requires a <= b
    ensures head + a <= head + b
  {
  }

  lemma PrefixOfConcat(p: string, a: string, b: string)
    requires p <= a
    ensures p <= a + b
  {
  }

  lemma PrefixTransitive(a: string, b: string, c: string)
    requires a <= b && b <= c
    ensures a <= c
  {
  }

  /** Whatever passes the field scan can be completed to the fields of a real record. */
  lemma {:induction false} PlausibleFieldsComplete(t: string, keys: seq<string>) returns (values: seq<string>)
    requires keys != []
    requires |Split(t, ' ')| <= |keys| && FieldsPlausible(Split(t, ' '), keys)
    ensures |values| == |keys| && SafeValues(values)
    ensures [' '] + t <= FieldsText(keys, values)
    decreases |keys|
  {
    var fields, i := Split(t, ' '), FirstIndex(t, ' ');
    var field, expected := fields[0], keys[0] + ['='];
    if i == |t| {
      values := CompleteLastField(t, keys);
    } else {
      var tail, value := t[i + 1..], field[|expected|..];
      assert fields == [field] + Split(tail, ' ');
      assert fields[1..] == Split(tail, ' ');
      var rest := PlausibleFieldsComplete(tail, keys[1..]);
      values := [value] + rest;
      assert t == Field(keys[0], value) + ([' '] + tail);
      hide FieldsText, Split;
      FieldsTextStartsWith(keys, value, rest, t, [' '] + tail);
    }
  }

  lemma CompleteLastField(t: string, keys: seq<string>) returns (values: seq<string>)
    requires keys != [] && FieldsPlausible([t], keys)
    ensures |values| == |keys| && SafeValues(values)
    ensures [' '] + t <= FieldsText(keys, values)
  {
    hide FieldsText;
    var expected := keys[0] + ['='];
    var value := if |t| <= |expected| then "a" else t[|expected|..];
    var rest := Fillers(|keys| - 1);
    values := [value] + rest;
    assert expected + value == Field(keys[0], value) + "";
    FieldsTextStartsWith(keys, value, rest, expected + value, "");
    assert t <= expected + value;
    assert [' '] + t <= [' '] + (expected + value);
    PrefixTransitive([' '] + t, [' '] + (expected + value), FieldsText(keys, values));
  }

  lemma RecordLineParts(state: State, values: seq<string>)
    requires |values| == |Schema(state)|
    ensures RecordLine(state, values) == StatePrefix(state) + FieldsText(Schema(state), values)
  {
  }

  lemma CutRecordIsPlausible(tail: string, state: State, values: seq<string>)
    requires FitsSchema(state, values) && tail <= RecordLine(state, values)
    ensures IsPlausibleRecordPrefix(tail, state)
  {
    hide Token, Schema, IsSafeValue, RecordLine, FieldsText, Split, StatePrefix;
    var prefix, keys, line := StatePrefix(state), Schema(state), RecordLine(state, values);
    RecordLineParts(state, values);
    assert tail == line[..|tail|];
    if |tail| > |prefix| {
      var t := tail[|prefix| + 1..];
      assert line[..|prefix|] == prefix && line[|prefix|..] == FieldsText(keys, values);
      assert prefix <= tail;
      assert tail[|prefix|..] <= FieldsText(keys, values);
      FieldsTextOpens(keys, values);
      assert tail[|prefix|] == line[|prefix|] == line[|prefix|..][0] == ' ';
      assert tail[|prefix|..] == [' '] + t;
      KeysAreUnbroken(state);
      CutFieldsArePlausible(t, keys, values);
    } else {
      assert tail == prefix[..|tail|];
    }
  }

  lemma FieldsTextOpens(keys: seq<string>, values: seq<string>)
    requires |keys| == |values|
    ensures keys == [] ==> FieldsText(keys, values) == ""
    ensures keys != [] ==> FieldsText(keys, values) != "" && FieldsText(keys, values)[0] == ' '
  {
  }

  lemma PlausibleRecordCompletes(tail: string, state: State) returns (values: seq<string>)
    requires IsPlausibleRecordPrefix(tail, state)
    ensures FitsSchema(state, values) && tail <= RecordLine(state, values)
  {
    hide Token, Schema, IsSafeValue, RecordLine, FieldsText, Split, StatePrefix;
    var prefix, keys := StatePrefix(state), Schema(state);
    if |tail| <= |prefix| {
      values := Fillers(|keys|);
      RecordLineParts(state, values);
      PrefixOfConcat(tail, prefix, FieldsText(keys, values));
    } else {
      var t := tail[|prefix| + 1..];
      values := PlausibleFieldsComplete(t, keys);
      RecordLineParts(state, values);
      assert tail == prefix + ([' '] + t);
    }
  }

  /** The record scan accepts exactly the prefixes of the records of `state`. */
  lemma RecordPrefixExact(tail: string, state: State)
    ensures IsPlausibleRecordPrefix(tail, state) <==>
            exists values :: FitsSchema(state, values) && tail <= RecordLine(state, values)
  {
    hide IsPlausibleRecordPrefix, RecordLine;
    if IsPlausibleRecordPrefix(tail, state) {
      var values := PlausibleRecordCompletes(tail, state);
    }
    if values :| FitsSchema(state, values) && tail <= RecordLine(state, values) {
      CutRecordIsPlausible(tail, state, values);
    }
  }

  /** The recogniser is exact: it accepts a tail precisely when the tail is within the size
      bound and is a cut of some record that may come next. */
  lemma TornTailExact(tail: string, previous: State)
    ensures IsPlausibleTornTail(tail, previous) <==> |tail| <= MAX_TORN_TAIL && IsCutRecord(tail, previous)
  {
    hide RecordLine, IsPlausibleRecordPrefix, ValidTransition, Schema;
    if IsPlausibleTornTail(tail, previous) {
      var next :| next in ALL_STATES && ValidTransition(previous, next) && IsPlausibleRecordPrefix(tail, next);
      var values := PlausibleRecordCompletes(tail, next);
      assert IsCutOf(tail, previous, next, values);
    }
    if |tail| <= MAX_TORN_TAIL && IsCutRecord(tail, previous) {
      var next, values :| IsCutOf(tail, previous, next, values);
      CutHasNoLineEnd(tail, previous, next, values);
      CutRecordIsPlausible(tail, next, values);
      AllStates(next);
    }
  }

  lemma CutHasNoLineEnd(tail: string, previous: State, next: State, values: seq<string>)
    requires IsCutOf(tail, previous, next, values)
    ensures tail <= RecordLine(next, values)
    ensures '\n' !in tail && '\r' !in tail
  {
    hide RecordLine, ValidTransition;
    var line := RecordLine(next, values);
    RecordLineSplits(next, values);
    assert tail == (line + "\n")[..|tail|] == line[..|tail|];
  }
}
