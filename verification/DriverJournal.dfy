/** The diagnostic-driver journal: one canonical file, and a pending snapshot that is renamed
    over it to publish a record. */
module DriverJournal {
  import opened Text
  import opened Faults
  import opened DriverStates
  import opened DriverJournalText
  import opened DriverSnapshot

  const MAX_BYTES := 128 * 1024

  /** The two directory entries; they outlive the process. */
  class JournalFiles {
    var canonical: string
    var pending: Option<string>

    constructor ()
      ensures canonical == "" && pending == None
    {
      canonical, pending := "", None;
    }

    /** The state a recovery must act on, or `None` when every run refuses the journal. */
    function Effective(kind: Kind): Option<State>
      reads this
    {
      EffectiveOf(kind, canonical, pending)
    }

    /** The journal text it will act on. */
    function Text(kind: Kind): Option<string>
      reads this
    {
      EffectiveText(kind, canonical, pending)
    }
  }

  /** `effective_state_with_pending` */
  function EffectiveOf(kind: Kind, canonical: string, pending: Option<string>): Option<State> {
    var state := JournalState(kind, canonical);
    if |canonical| > MAX_BYTES || state.None? then None
    else if pending.None? then state
    else if |pending.value| > MAX_BYTES then None
    else
      match Classify(kind, canonical, state.value, pending.value)
      case Discard => state
      case Promote(next) => Some(next)
      case Diverged => None
  }

  /** The canonical text after reconciliation: the promoted snapshot, or the old one. */
  function ReconciledText(kind: Kind, canonical: string, pending: Option<string>): string
    requires EffectiveOf(kind, canonical, pending).Some?
  {
    if pending.Some?
       && Classify(kind, canonical, JournalState(kind, canonical).value, pending.value).Promote?
    then pending.value else canonical
  }

  /** The journal text a recovery will work on, or `None` when every run refuses the journal. */
  function EffectiveText(kind: Kind, canonical: string, pending: Option<string>): Option<string> {
    if EffectiveOf(kind, canonical, pending).Some? then Some(ReconciledText(kind, canonical, pending)) else None
  }

  /** Reconciling commits to the state that was effective before, which is the canonical state
      or one valid successor of it, and leaves nothing for a second reconciliation. */
  lemma ReconciledMeans(kind: Kind, canonical: string, pending: Option<string>)
    requires EffectiveOf(kind, canonical, pending).Some?
    ensures var text, state := ReconciledText(kind, canonical, pending), JournalState(kind, canonical);
            var effective := EffectiveOf(kind, canonical, pending);
            && EffectiveOf(kind, text, None) == effective
            && ReconciledText(kind, text, None) == text
            && canonical <= text
            && state.Some? && (effective == state || ValidTransition(state.value, effective.value))
  {
    hide JournalState, ValidTransition, ExactSuccessor;
    var state := JournalState(kind, canonical).value;
    if pending.Some? {
      var verdict := Classify(kind, canonical, state, pending.value);
      if verdict.Promote? {
        ClassifyMeaning(kind, canonical, state, pending.value, verdict.next);
      }
    }
  }

  // ------------------------------------------------------------------- one record

  /** Where the publication of one record is cut short, if at all; `dies` tells a crash from an
      error that the caller sees. */
  datatype PublishFate =
    | Published
    | InReconcile(landed: bool, dies: bool)
    | BeforePending(dies: bool)
    | InPending(cut: nat, dies: bool)     // the pending file holds `cut` bytes
    | AfterRename(dies: bool)

  function StepOf(fate: PublishFate): Step {
    match fate
    case Published => Done
    case _ => if fate.dies then Died else Failed
  }

  function CutTo(text: string, n: nat): string {
    if n < |text| then text[..n] else text
  }

  /** A cut inside the pending write that no later run gets past: it ends at a line end of the
      canonical text after at least one record, without being all of it. */
  predicate IsStuckCut(canonical: string, k: nat) {
    0 < k < |canonical| && canonical[k - 1] == '\n' && |Lines(canonical[..k])| >= 2
  }

  /** The effective text after the publication of `whole` over `text` met `fate`. */
  function TextAfter(text: string, whole: string, fate: PublishFate): Option<string> {
    match fate
    case Published => Some(whole)
    case InReconcile(_, _) => Some(text)
    case BeforePending(_) => Some(text)
    case InPending(cut, _) =>
      if cut >= |whole| then Some(whole)
      else if IsStuckCut(text, cut) then None
      else Some(text)
    case AfterRename(_) => Some(whole)
  }

  /** The cut of a pending snapshot that nobody gets past is there to be met exactly when the
      journal holds more than one record. */
  lemma StuckCutIff(kind: Kind, canonical: string)
    requires JournalState(kind, canonical).Some?
    ensures (exists k: nat :: IsStuckCut(canonical, k)) <==> |Lines(canonical)| >= 3
  {
    hide Lines, StateOfLines;
    if k: nat :| IsStuckCut(canonical, k) {
      LinesOfPrefix(canonical, k);
      TextWithoutLines(canonical[k..]);
    }
    if |Lines(canonical)| >= 3 {
      var k := SecondLineEnd(canonical);
      assert IsStuckCut(canonical, k);
    }
  }

  /** The field loop of `exact_fields_for_state`, which refuses less than the journal parser. */
  method RecoverFields(words: seq<string>) returns (result: Option<Fields>)
    ensures FieldsOf(words).Some? ==> result == FieldsOf(words)
  {
    var fields: Fields := map[];
    for i := 0 to |words|
      invariant FieldsOf(words).Some? ==> FieldsOf(words[..i]) == Some(fields)
    {
      assert words[..i + 1][..i] == words[..i];
      if FieldsOf(words[..i + 1]).None? {
        FieldsFail(words, i + 1);
      }
      var pair := SplitOnce(words[i], '=');
      if pair.None? || pair.value.key in fields {
        return None;
      }
      fields := fields[pair.value.key := pair.value.value];
    }
    assert words[..|words|] == words;
    return Some(fields);
  }

  class Journal {
    const kind: Kind
    const files: JournalFiles
    var state: State

    constructor Over(kind: Kind, files: JournalFiles, state: State)
      ensures this.kind == kind && this.files == files && this.state == state
    {
      this.kind, this.files, this.state := kind, files, state;
    }

    /** `Journal::create`; `cut` bytes of the new file are written when `dies`. */
    static method Create(kind: Kind, files: JournalFiles, dies: bool, cut: nat)
      returns (step: Step, journal: Journal?)
      requires files.canonical == "" && files.pending == None
      modifies files
      ensures dies ==> step.Died? && files.pending == None
                       && files.Effective(kind) == if cut >= |FreshText(kind)| then Some(Begun) else None
      ensures !dies ==>
        && step.Done? && journal != null && fresh(journal) && journal.kind == kind && journal.files == files
        && journal.state == Begun && files.Effective(kind) == Some(Begun) && files.pending == None
      ensures files.canonical == if dies then CutTo(FreshText(kind), cut) else FreshText(kind)
    {
      hide JournalState, FreshText;
      FreshCut(kind, if cut < |FreshText(kind)| then cut else |FreshText(kind)|);
      FreshCut(kind, |FreshText(kind)|);
      assert FreshText(kind)[..|FreshText(kind)|] == FreshText(kind);
      if dies {
        files.canonical := CutTo(FreshText(kind), cut);
        return Died, null;
      }
      files.canonical := FreshText(kind);
      journal := new Journal.Over(kind, files, Begun);
      step := Done;
    }

    /** `Journal::open`: adopts the canonical state; a pending snapshot is only checked for size. */
    static method Open(kind: Kind, files: JournalFiles) returns (journal: Journal?)
      ensures journal != null <==>
        && |files.canonical| <= MAX_BYTES && JournalState(kind, files.canonical).Some?
        && (files.pending.Some? ==> |files.pending.value| <= MAX_BYTES)
      ensures journal != null ==>
        && fresh(journal) && journal.kind == kind && journal.files == files
        && JournalState(kind, files.canonical) == Some(journal.state)
      ensures files.Effective(kind).Some? ==> journal != null
    {
      if |files.canonical| > MAX_BYTES {
        return null;
      }
      var state := ParseJournal(kind, files.canonical);
      if state.None? || (files.pending.Some? && |files.pending.value| > MAX_BYTES) {
        return null;
      }
      journal := new Journal.Over(kind, files, state.value);
    }

    /** `Journal::reconcile`.  `landed` and `dies` describe a fault around its one effect; with
        `fault` false it runs through. */
    method Reconcile(fault: bool, landed: bool, dies: bool) returns (step: Step)
      modifies this, files
      ensures files.Effective(kind) == old(files.Effective(kind)) && files.Text(kind) == old(files.Text(kind))
      ensures step.Done? <==> !fault && old(files.Effective(kind)).Some?
      ensures step.Done? ==>
        && files.pending == None
        && files.canonical == ReconciledText(kind, old(files.canonical), old(files.pending))
        && files.Effective(kind) == Some(state)
      ensures !step.Done? ==> state == old(state)
      ensures old(files.Effective(kind)).None? ==> unchanged(files) && step.Failed?
      // a fault that comes first leaves the files, and one that comes later finds it done
      ensures old(files.Effective(kind)).Some? && fault && !landed ==> unchanged(files)
      ensures old(files.Effective(kind)).Some? && (fault ==> landed) ==>
        && files.canonical == ReconciledText(kind, old(files.canonical), old(files.pending))
        && files.pending == None
      ensures old(files.Effective(kind)).Some? && fault ==> step == if dies then Died else Failed
    {
      hide JournalState, ValidTransition, ExactSuccessor;
      if |files.canonical| > MAX_BYTES {
        return Failed;
      }
      var parsed := ParseJournal(kind, files.canonical);
      if parsed.None? {
        return Failed;
      }
      if files.pending.Some? {
        var text := files.pending.value;
        if |text| > MAX_BYTES {
          return Failed;
        }
        var verdict := Classify(kind, files.canonical, parsed.value, text);
        if verdict.Diverged? {
          return Failed;
        }
        ReconciledMeans(kind, files.canonical, files.pending);
        if fault && !landed {
          return if dies then Died else Failed;
        }
        if verdict.Promote? {
          files.canonical, files.pending := text, None;
          parsed := Some(verdict.next);
        } else {
          files.pending := None;
        }
      }
      if fault {
        return if dies then Died else Failed;
      }
      state := parsed.value;
      return Done;
    }

    /** `Journal::exact_fields_for_state`: the fields of the only record of `target`.  A state
        that was recorded twice is refused. */
    method ExactFields(target: State) returns (result: Option<Fields>)
      ensures result.Some? <==>
        && |files.canonical| <= MAX_BYTES && JournalState(kind, files.canonical) == Some(state)
        && exists i: nat :: OnlyRecordOf(kind, Lines(files.canonical), target, i)
      ensures result.Some? ==>
        exists i: nat :: OnlyRecordOf(kind, Lines(files.canonical), target, i)
                    && ParseRecord(kind, Lines(files.canonical)[i]) ==
                       Some(DriverJournalText.Record(target, result.value))
    {
      hide Lines, Words, FieldsOf, ValidFields, ParseToken, Token, Header, ValidTransition;
      if |files.canonical| > MAX_BYTES {
        return None;
      }
      var parsed := ParseJournal(kind, files.canonical);
      if parsed != Some(state) {
        return None;
      }
      var lines := Lines(files.canonical);
      var found: Option<Fields> := None;
      ghost var at := 0;
      for i := 1 to |lines|
        invariant found.None? ==> forall j :: 1 <= j < i ==> StateOn(kind, lines[j]) != Some(target)
        invariant found.Some? ==>
          && 1 <= at < i && ParseRecord(kind, lines[at]) == Some(DriverJournalText.Record(target, found.value))
          && forall j :: 1 <= j < i && j != at ==> StateOn(kind, lines[j]) != Some(target)
      {
        assert RecordFits(kind, lines, i);
        var words := Words(lines[i]);
        assert words[0] == "STATE";
        ParseTokenIff(words[1], target);
        if words[1] == Token(target) {
          if found.Some? {
            assert StateOn(kind, lines[at]) == Some(target) && StateOn(kind, lines[i]) == Some(target);
            return None;
          }
          var fields := RecoverFields(words[2..]);
          found, at := fields, i;
        }
      }
      if found.Some? {
        assert OnlyRecordOf(kind, lines, target, at);
      }
      return found;
    }

    /** `Journal::record`: reconcile, write the whole next text as a pending snapshot, rename it
        over the journal.  Whatever happens on the way, what a later run acts on is the text that
        was effective before or the one with the record; the one exception is a stuck cut. */
    method Record(next: State, fields: seq<Pair>, fate: PublishFate) returns (step: Step)
      modifies this, files
      // refused: what was effective stays effective
      ensures old(files.Effective(kind)).None? ==> step.Failed? && unchanged(files) && state == old(state)
      ensures old(files.Effective(kind)).Some?
              && !(ValidTransition(old(files.Effective(kind)).value, next) && Recordable(kind, next, fields))
              ==> !step.Done? && files.Text(kind) == old(files.Text(kind))
      // attempted
      ensures old(files.Effective(kind)).Some?
              && ValidTransition(old(files.Effective(kind)).value, next) && Recordable(kind, next, fields) ==>
        var before := old(files.Effective(kind)).value;
        var text := ReconciledText(kind, old(files.canonical), old(files.pending));
        var whole := text + (RecordLine(next, fields) + "\n");
        if |whole| > MAX_BYTES
        then !step.Done? && files.Text(kind) == Some(text) && files.Effective(kind) == Some(before)
        else
          var after := TextAfter(text, whole, fate);
          && step == StepOf(fate)
          && files.Text(kind) == after
          && files.Effective(kind) ==
             (if after.None? then None else Some(if after == Some(whole) then next else before))
          && (step.Done? ==> files.canonical == whole && files.pending == None && state == next)
          && (fate.InPending? ==> files.canonical == text && files.pending == Some(CutTo(whole, fate.cut)))
    {
      hide JournalState, ValidTransition, ExactSuccessor, Recordable, RecordLine, Classify, IsStuckCut;
      var reconciled := Reconcile(fate.InReconcile?, fate.InReconcile? && fate.landed, fate.InReconcile? && fate.dies);
      if !reconciled.Done? {
        return reconciled;
      }
      if !ValidTransition(state, next) || !Recordable(kind, next, fields) {
        return Failed;
      }
      var line := PrintRecord(next, fields);
      var prior := files.canonical;
      if |prior| + |line| > MAX_BYTES {
        return Failed;
      }
      var snapshot := prior + line;
      RecordIsPublished(kind, prior, state, next, fields);
      if fate.BeforePending? {
        return StepOf(fate);
      }
      if fate.InPending? {
        files.pending := Some(CutTo(snapshot, fate.cut));
        CutIsJudged(kind, prior, state, next, fields, fate.cut);
        return StepOf(fate);
      }
      files.pending := Some(snapshot);
      files.canonical, files.pending := snapshot, None;
      if fate.AfterRename? {
        return StepOf(fate);
      }
      state := next;
      return Done;
    }
  }

  function FreshText(kind: Kind): string {
    Header(kind) + "\n" + (RecordLine(Begun, []) + "\n")
  }

  lemma RootHeaderIsKeyText()
    ensures IsKeyText(ROOT_HEADER)
  {
  }

  lemma UserHeaderIsKeyText()
    ensures IsKeyText(USER_HEADER)
  {
  }

  lemma HeaderIsKeyText(kind: Kind)
    ensures IsKeyText(Header(kind)) && |Header(kind)| <= 50
  {
    if kind.RootJournal? {
      RootHeaderIsKeyText();
    } else {
      UserHeaderIsKeyText();
    }
    hide IsKeyText;
  }

  lemma HeaderIsPlain(kind: Kind)
    ensures PlainLine(Header(kind)) && |Header(kind)| <= 50
  {
    hide Header;
    HeaderIsKeyText(kind);
  }

  lemma BegunIsRecordable(kind: Kind)
    ensures Recordable(kind, Begun, []) && |RecordLine(Begun, [])| < 20
  {
  }

  /** A cut while the journal is created leaves a text that every run refuses, unless nothing
      is missing. */
  lemma FreshCut(kind: Kind, k: nat)
    requires k <= |FreshText(kind)|
    ensures JournalState(kind, FreshText(kind)[..k]) ==
            if k == |FreshText(kind)| then Some(Begun) else None
    ensures |FreshText(kind)| <= MAX_BYTES
  {
    hide Lines, ParseRecord, RecordLine, Header, Recordable;
    var header, line := Header(kind), RecordLine(Begun, []);
    var text := FreshText(kind);
    HeaderIsPlain(kind);
    BegunIsRecordable(kind);
    RecordReadsBack(kind, Begun, []);
    LinesOfLine(header);
    if k == |text| {
      assert text[..k] == text;
      LinesOfLine(line);
      LinesOfAppend(header + "\n", line + "\n");
      assert RecordFits(kind, [header, line], 1);
    } else if k == |header| + 1 {
      assert text[..k] == header + "\n";
    } else if k > |header| + 1 {
      assert text[..k][k - 1] == line[k - 2 - |header|];
    } else if k > 0 {
      assert text[..k][k - 1] == header[k - 1];
    }
  }

  // --------------------------------------------------- reading recorded fields back

  /** The one line of the journal that records `target`. */
  predicate OnlyRecordOf(kind: Kind, lines: seq<string>, target: State, i: nat) {
    && 1 <= i < |lines| && StateOn(kind, lines[i]) == Some(target)
    && forall j :: 1 <= j < |lines| && j != i ==> StateOn(kind, lines[j]) != Some(target)
  }

  /** The whole snapshot is a journal in the recorded state. */
  lemma RecordIsPublished(kind: Kind, text: string, state: State, next: State, fields: seq<Pair>)
    requires JournalState(kind, text) == Some(state)
    requires ValidTransition(state, next) && Recordable(kind, next, fields)
    ensures JournalState(kind, text + (RecordLine(next, fields) + "\n")) == Some(next)
  {
    hide JournalState, ValidTransition, Recordable, RecordLine, ParseRecord;
    RecordReadsBack(kind, next, fields);
    AppendText(kind, text, RecordLine(next, fields), state);
  }

  /** What a pending file cut after `cut` bytes makes of the effective text and state. */
  lemma CutIsJudged(kind: Kind, text: string, state: State, next: State, fields: seq<Pair>, cut: nat)
    requires JournalState(kind, text) == Some(state)
    requires ValidTransition(state, next) && Recordable(kind, next, fields)
    requires |text + (RecordLine(next, fields) + "\n")| <= MAX_BYTES
    ensures var whole := text + (RecordLine(next, fields) + "\n");
            var pending := Some(CutTo(whole, cut));
            var after := TextAfter(text, whole, InPending(cut, true));
            && EffectiveText(kind, text, pending) == after
            && EffectiveOf(kind, text, pending) ==
               if after.None? then None else Some(if after == Some(whole) then next else state)
  {
    hide JournalState, ValidTransition, Recordable, RecordLine, EffectiveOf, EffectiveText, TextAfter;
    RecordReadsBack(kind, next, fields);
    RecordIsPublished(kind, text, state, next, fields);
    CutIsEffective(kind, text, state, RecordLine(next, fields), next, cut);
  }

  lemma CutIsEffective(kind: Kind, text: string, state: State, line: string, next: State, cut: nat)
    requires JournalState(kind, text) == Some(state)
    requires '\n' !in line && JournalState(kind, text + (line + "\n")) == Some(next)
    requires |text| + |line| + 1 <= MAX_BYTES
    ensures var whole := text + (line + "\n");
            var pending := Some(CutTo(whole, cut));
            var after := TextAfter(text, whole, InPending(cut, true));
            && EffectiveText(kind, text, pending) == after
            && EffectiveOf(kind, text, pending) ==
               if after.None? then None else Some(if after == Some(whole) then next else state)
  {
    hide JournalState, Classify, Lines;
    var whole := text + (line + "\n");
    var k := if cut < |whole| then cut else |whole|;
    assert whole[..|whole|] == whole;
    assert CutTo(whole, cut) == whole[..k];
    CutSnapshot(kind, text, state, line, next, k);
  }

  /** Fields recorded for a state the journal did not hold yet are the ones a later run reads
      back for it. */
  lemma RecordedFieldsAreFound(kind: Kind, text: string, state: State, next: State, fields: seq<Pair>)
    requires JournalState(kind, text) == Some(state)
    requires ValidTransition(state, next) && Recordable(kind, next, fields)
    requires forall j :: 1 <= j < |Lines(text)| ==> StateOn(kind, Lines(text)[j]) != Some(next)
    ensures var lines := Lines(text + (RecordLine(next, fields) + "\n"));
            && OnlyRecordOf(kind, lines, next, |lines| - 1)
            && ParseRecord(kind, lines[|lines| - 1]) == Some(Record(next, FieldMap(fields)))
  {
    hide Lines, ParseRecord, RecordLine, Recordable, ValidTransition;
    var line := RecordLine(next, fields);
    RecordReadsBack(kind, next, fields);
    LinesOfLine(line);
    LinesOfAppend(text, line + "\n");
  }
}
