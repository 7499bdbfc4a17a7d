/** The root transaction's second durable image: the text that is written for it and the parser
    that reads it back. */
module RootState {
  import opened Text
  import opened DriverStates
  import opened ProcessStart
  import DriverSnapshot

  const HEADER := "OPENSTEAMER_DIAGNOSTIC_DRIVER_ROOT_STATE_V1"

  const RESERVE_BYTES: nat := 8 * 1_048_576

  datatype Generation = Generation(
    pid: nat, runs: nat, processStart: string, nonce: string, lockDevice: nat, lockInode: nat)

  datatype Route = Route(inputUid: string, outputUid: string, systemOutputUid: string)

  datatype Reserve = Reserve(device: nat, inode: nat, released: bool)

  datatype Image = Image(state: State, host: Generation, route: Option<Route>, reserve: Option<Reserve>)

  // ------------------------------------------------------------------ validation

  predicate ValidGeneration(host: Generation) {
    && 0 < host.pid <= U32_MAX && 0 < host.runs <= U64_MAX
    && ValidProcessStart(host.processStart) && LowerHex(host.nonce, 64)
    && 0 < host.lockDevice <= U64_MAX && 0 < host.lockInode <= U64_MAX
  }

  predicate CleanUid(uid: string) {
    uid != "" && forall c :: c in uid ==> !IsAsciiWhitespace(c)
  }

  predicate CleanRoute(route: Option<Route>) {
    route.Some? ==>
      CleanUid(route.value.inputUid) && CleanUid(route.value.outputUid) && CleanUid(route.value.systemOutputUid)
  }

  predicate ValidReserve(reserve: Option<Reserve>) {
    reserve.Some? ==> 0 < reserve.value.device <= U64_MAX && 0 < reserve.value.inode <= U64_MAX
  }

  // ------------------------------------------------------------------------ keys

  datatype Key =
    | StateKey | PidKey | RunsKey | StartKey | NonceKey | LockDeviceKey | LockInodeKey
    | NoReserveKey | StatusKey | DeviceKey | InodeKey | BytesKey
    | NoRouteKey | InputKey | OutputKey | SystemOutputKey

  function Name(key: Key): string {
    match key
    case StateKey => "state"
    case PidKey => "initial_host_pid"
    case RunsKey => "initial_host_runs"
    case StartKey => "initial_host_start"
    case NonceKey => "initial_host_nonce"
    case LockDeviceKey => "initial_host_lock_device"
    case LockInodeKey => "initial_host_lock_inode"
    case NoReserveKey => "rollback_reserve"
    case StatusKey => "rollback_reserve_status"
    case DeviceKey => "rollback_reserve_device"
    case InodeKey => "rollback_reserve_inode"
    case BytesKey => "rollback_reserve_bytes"
    case NoRouteKey => "route"
    case InputKey => "input_uid"
    case OutputKey => "output_uid"
    case SystemOutputKey => "system_output_uid"
  }

  /** A key name's length; names that share it are told apart by one character. */
  function NameLength(key: Key): nat {
    match key
    case StateKey => 5 case PidKey => 16 case RunsKey => 17 case StartKey => 18 case NonceKey => 18
    case LockDeviceKey => 24 case LockInodeKey => 23 case NoReserveKey => 16 case StatusKey => 23
    case DeviceKey => 23 case InodeKey => 22 case BytesKey => 22 case NoRouteKey => 5
    case InputKey => 9 case OutputKey => 10 case SystemOutputKey => 17
  }

  function NameMark(key: Key): char {
    match key
    case StateKey => 's' case NoRouteKey => 'r'
    case PidKey => 'i' case NoReserveKey => 'r'
    case RunsKey => 'i' case SystemOutputKey => 's'
    case StartKey => 's' case NonceKey => 'n'
    case LockInodeKey => 'n' case StatusKey => 'a' case DeviceKey => 'v'
    case InodeKey => 'i' case BytesKey => 'b'
    case _ => ' '
  }

  /** Where the telling character stands, or -1. */
  function MarkPosition(length: nat): int {
    if length == 5 || length == 16 || length == 17 then 0
    else if length == 18 then 13
    else if length == 23 then 19
    else if length == 22 then 17
    else -1
  }

  lemma NameHasLength(key: Key)
    ensures |Name(key)| == NameLength(key) > 0
  {
  }

  lemma NameHasMark(key: Key)
    requires MarkPosition(NameLength(key)) >= 0
    ensures MarkPosition(NameLength(key)) < |Name(key)|
    ensures Name(key)[MarkPosition(NameLength(key))] == NameMark(key)
  {
  }

  lemma NamesDiffer(a: Key, b: Key)
    requires Name(a) == Name(b)
    ensures a == b
  {
    hide Name;
    NameHasLength(a);
    NameHasLength(b);
    if MarkPosition(NameLength(a)) >= 0 {
      NameHasMark(a);
      NameHasMark(b);
    }
  }

  // -------------------------------------------------------------------- the text

  datatype Entry = Entry(key: Key, value: string)

  function ReserveEntries(reserve: Option<Reserve>): seq<Entry> {
    match reserve
    case None => [Entry(NoReserveKey, "unavailable")]
    case Some(r) => [
      Entry(StatusKey, if r.released then "released" else "allocated"),
      Entry(DeviceKey, ToDecimal(r.device)), Entry(InodeKey, ToDecimal(r.inode)),
      Entry(BytesKey, ToDecimal(RESERVE_BYTES))]
  }

  function RouteEntries(route: Option<Route>): (entries: seq<Entry>)
    ensures |entries| >= 1
  {
    match route
    case None => [Entry(NoRouteKey, "unavailable")]
    case Some(r) => [
      Entry(InputKey, r.inputUid), Entry(OutputKey, r.outputUid), Entry(SystemOutputKey, r.systemOutputUid)]
  }

  function HostEntries(image: Image): seq<Entry> {
    [ Entry(StateKey, Token(image.state)),
      Entry(PidKey, ToDecimal(image.host.pid)), Entry(RunsKey, ToDecimal(image.host.runs)),
      Entry(StartKey, image.host.processStart), Entry(NonceKey, image.host.nonce),
      Entry(LockDeviceKey, ToDecimal(image.host.lockDevice)), Entry(LockInodeKey, ToDecimal(image.host.lockInode))]
  }

  function Entries(image: Image): seq<Entry> {
    HostEntries(image) + (ReserveEntries(image.reserve) + RouteEntries(image.route))
  }

  function EntryLine(entry: Entry): string {
    Name(entry.key) + ['='] + entry.value
  }

  function EntryLines(entries: seq<Entry>): (lines: seq<string>)
    ensures |lines| == |entries| && forall i :: 0 <= i < |lines| ==> lines[i] == EntryLine(entries[i])
  {
    seq(|entries|, i requires 0 <= i < |entries| => EntryLine(entries[i]))
  }

  /** The bytes `write_root_state` builds. */
  function Print(image: Image): string {
    Unlines([HEADER] + EntryLines(Entries(image)))
  }

  predicate NoWhitespace(s: string) {
    forall c :: c in s ==> !IsAsciiWhitespace(c)
  }

  /** What the writer looks at on one line. */
  predicate LineAccepted(line: string) {
    var field := SplitOnce(line, '=');
    field.Some? ==> NoWhitespace(field.value.value)
  }

  /** The writer's own check of the route: it looks at the values it finds line by line, so it
      misses empty values, embedded line ends and a trailing carriage return. */
  predicate WriterAccepts(route: Option<Route>) {
    forall line :: line in Lines(Unlines(EntryLines(RouteEntries(route)))) ==> LineAccepted(line)
  }

  // ------------------------------------------------------------------- the parser

  type Values = map<string, string>

  function ValuesOf(lines: seq<string>): Option<Values> {
    if lines == [] then Some(map[])
    else
      var last := |lines| - 1;
      var field, before := SplitOnce(lines[last], '='), ValuesOf(lines[..last]);
      if field.None? || before.None? || field.value.key in before.value then None
      else Some(before.value[field.value.key := field.value.value])
  }

  /** The value of a key; a missing one reads as empty. */
  function Lookup(values: Values, key: Key): string {
    if Name(key) in values then values[Name(key)] else ""
  }

  predicate Has(values: Values, key: Key) {
    Name(key) in values
  }

  /** `None` is a refusal; `Some(None)` means that no reserve was available. */
  function ReserveOf(values: Values): Option<Option<Reserve>> {
    if Has(values, NoReserveKey) then
      if || Lookup(values, NoReserveKey) != "unavailable" || Has(values, StatusKey) || Has(values, DeviceKey)
         || Has(values, InodeKey) || Has(values, BytesKey)
      then None else Some(None)
    else
      var status := Lookup(values, StatusKey);
      var device := CanonicalPositive(Lookup(values, DeviceKey), U64_MAX);
      var inode := CanonicalPositive(Lookup(values, InodeKey), U64_MAX);
      var bytes := CanonicalPositive(Lookup(values, BytesKey), U64_MAX);
      if (status == "allocated" || status == "released") && device.Some? && inode.Some? && bytes == Some(RESERVE_BYTES)
      then Some(Some(Reserve(device.value, inode.value, status == "released")))
      else None
  }

  function RouteOf(values: Values): Option<Option<Route>> {
    if Has(values, NoRouteKey) then
      if Lookup(values, NoRouteKey) == "unavailable" then Some(None) else None
    else
      var route := Some(Route(Lookup(values, InputKey), Lookup(values, OutputKey), Lookup(values, SystemOutputKey)));
      if CleanRoute(route) then Some(route) else None
  }

  function GenerationOf(values: Values): Option<Generation> {
    var pid := CanonicalPositive(Lookup(values, PidKey), U32_MAX);
    var runs := CanonicalPositive(Lookup(values, RunsKey), U64_MAX);
    var device := CanonicalPositive(Lookup(values, LockDeviceKey), U64_MAX);
    var inode := CanonicalPositive(Lookup(values, LockInodeKey), U64_MAX);
    if && pid.Some? && runs.Some? && device.Some? && inode.Some?
       && ValidProcessStart(Lookup(values, StartKey)) && LowerHex(Lookup(values, NonceKey), 64)
    then Some(Generation(pid.value, runs.value, Lookup(values, StartKey), Lookup(values, NonceKey),
                         device.value, inode.value))
    else None
  }

  const HOST_KEYS: set<Key> := {StateKey, PidKey, RunsKey, StartKey, NonceKey, LockDeviceKey, LockInodeKey}

  function ReserveKeys(reserve: Option<Reserve>): set<Key> {
    if reserve.None? then {NoReserveKey} else {StatusKey, DeviceKey, InodeKey, BytesKey}
  }

  function RouteKeys(route: Option<Route>): set<Key> {
    if route.None? then {NoRouteKey} else {InputKey, OutputKey, SystemOutputKey}
  }

  /** The image a set of values stands for; every key must be accounted for. */
  function ImageOf(values: Values): Option<Image> {
    var state := ParseToken(Lookup(values, StateKey));
    var host, reserve, route := GenerationOf(values), ReserveOf(values), RouteOf(values);
    if state.None? || host.None? || reserve.None? || route.None? then None
    else if values.Keys != Names(HOST_KEYS + ReserveKeys(reserve.value) + RouteKeys(route.value)) then None
    else Some(Image(state.value, host.value, route.value, reserve.value))
  }

  function Names(keys: set<Key>): set<string> {
    set key | key in keys :: Name(key)
  }

  /** `parse_root_state_text` */
  function Parse(text: string): Option<Image> {
    var lines := Lines(text);
    if |lines| == 0 || lines[0] != HEADER || !EndsWithNewline(text) then None
    else
      var values := ValuesOf(lines[1..]);
      if values.None? then None else ImageOf(values.value)
  }

  // ----------------------------------------------------------- printing and parsing

  function KeysOf(entries: seq<Entry>): set<Key> {
    set entry | entry in entries :: entry.key
  }

  /** The values are exactly those of the entries. */
  predicate Holds(values: Values, entries: seq<Entry>) {
    && values.Keys == Names(KeysOf(entries))
    && forall entry :: entry in entries ==> Has(values, entry.key) && Lookup(values, entry.key) == entry.value
  }

  predicate Distinct(entries: seq<Entry>) {
    forall i, j :: 0 <= i < j < |entries| ==> entries[i].key != entries[j].key
  }

  predicate IsKeyText(s: string) {
    DriverSnapshot.IsKeyText(s)
  }

  predicate IsLongHostKey(key: Key) {
    key == StartKey || key == NonceKey || key == LockDeviceKey || key == LockInodeKey
  }

  lemma LongHostNames(key: Key)
    requires IsLongHostKey(key)
    ensures IsKeyText(Name(key))
  {
  }

  lemma HostNames(key: Key)
    requires key in HOST_KEYS && !IsLongHostKey(key)
    ensures IsKeyText(Name(key))
  {
  }

  lemma OtherNames(key: Key)
    requires key !in HOST_KEYS
    ensures IsKeyText(Name(key))
  {
  }

  lemma NameIsPlain(key: Key)
    ensures '=' !in Name(key) && '\n' !in Name(key) && '\r' !in Name(key)
  {
    if IsLongHostKey(key) {
      LongHostNames(key);
    } else if key in HOST_KEYS {
      HostNames(key);
    } else {
      OtherNames(key);
    }
    hide Name;
  }

  lemma HasIff(values: Values, entries: seq<Entry>, key: Key)
    requires Holds(values, entries)
    ensures Has(values, key) <==> key in KeysOf(entries)
  {
    hide Name, KeysOf;
    if Has(values, key) {
      var other :| other in KeysOf(entries) && Name(other) == Name(key);
      NamesDiffer(other, key);
    }
  }

  lemma DistinctLast(entries: seq<Entry>)
    requires Distinct(entries) && |entries| > 0
    ensures var last := |entries| - 1;
            Distinct(entries[..last]) && entries[last].key !in KeysOf(entries[..last])
  {
  }

  lemma LineReads(entry: Entry)
    ensures SplitOnce(EntryLine(entry), '=') == Some(Pair(Name(entry.key), entry.value))
  {
    NameIsPlain(entry.key);
    SplitOnceOf(Name(entry.key), '=', entry.value);
  }

  lemma {:induction false} EntriesRead(entries: seq<Entry>)
    requires Distinct(entries)
    ensures ValuesOf(EntryLines(entries)).Some? && Holds(ValuesOf(EntryLines(entries)).value, entries)
  {
    hide Name, SplitOnce, Distinct, KeysOf, EntryLine, Lookup;
    var lines := EntryLines(entries);
    if entries == [] {
      assert KeysOf(entries) == {} by { NoKeys(); }
    } else {
      hide Holds;
      var last := |entries| - 1;
      var entry := entries[last];
      DistinctLast(entries);
      EntriesRead(entries[..last]);
      var before := ValuesOf(EntryLines(entries[..last])).value;
      assert lines[..last] == EntryLines(entries[..last]);
      LineReads(entry);
      HasIff(before, entries[..last], entry.key);
      HoldsOneMore(before, entries[..last], entry);
      assert entries == entries[..last] + [entry];
    }
  }

  lemma NoKeys()
    ensures KeysOf([]) == {}
  {
  }

  lemma HoldsOneMore(values: Values, entries: seq<Entry>, entry: Entry)
    requires Holds(values, entries) && !Has(values, entry.key)
    ensures Holds(values[Name(entry.key) := entry.value], entries + [entry])
  {
    hide Name;
    var more, longer := values[Name(entry.key) := entry.value], entries + [entry];
    assert KeysOf(longer) == KeysOf(entries) + {entry.key} by {
      assert entry in longer;
      assert forall e :: e in entries ==> e in longer;
    }
    assert Names(KeysOf(longer)) == Names(KeysOf(entries)) + {Name(entry.key)};
  }

  lemma KeysOfSum(a: seq<Entry>, b: seq<Entry>)
    ensures KeysOf(a + b) == KeysOf(a) + KeysOf(b)
  {
  }

  lemma KeysOfEntries(image: Image)
    ensures KeysOf(Entries(image)) == HOST_KEYS + ReserveKeys(image.reserve) + RouteKeys(image.route)
  {
    var host, reserve, route := HostEntries(image), ReserveEntries(image.reserve), RouteEntries(image.route);
    KeysOfSum(host, reserve + route);
    KeysOfSum(reserve, route);
    KeysOfHost(image);
    KeysOfReserve(image.reserve);
    KeysOfRoute(image.route);
  }

  lemma KeysOfHost(image: Image)
    ensures KeysOf(HostEntries(image)) == HOST_KEYS
  {
    var e := HostEntries(image);
    assert e[0] in e && e[1] in e && e[2] in e && e[3] in e && e[4] in e && e[5] in e && e[6] in e;
  }

  lemma KeysOfReserve(reserve: Option<Reserve>)
    ensures KeysOf(ReserveEntries(reserve)) == ReserveKeys(reserve)
  {
    var e := ReserveEntries(reserve);
    assert e[0] in e && (reserve.Some? ==> e[1] in e && e[2] in e && e[3] in e);
  }

  lemma KeysOfRoute(route: Option<Route>)
    ensures KeysOf(RouteEntries(route)) == RouteKeys(route)
  {
    var e := RouteEntries(route);
    assert e[0] in e && (route.Some? ==> e[1] in e && e[2] in e);
  }

  lemma EntriesAreDistinct(image: Image)
    ensures Distinct(Entries(image))
  {
    hide Token, ToDecimal;
  }

  lemma HasExactly(values: Values, image: Image, key: Key)
    requires Holds(values, Entries(image))
    ensures Has(values, key) <==> key in HOST_KEYS + ReserveKeys(image.reserve) + RouteKeys(image.route)
  {
    hide Holds, Entries, KeysOf, Name;
    HasIff(values, Entries(image), key);
    KeysOfEntries(image);
  }

  lemma HoldsPart(values: Values, image: Image, part: seq<Entry>)
    requires Holds(values, Entries(image))
    requires part == HostEntries(image) || part == ReserveEntries(image.reserve) || part == RouteEntries(image.route)
    ensures forall entry :: entry in part ==> Has(values, entry.key) && Lookup(values, entry.key) == entry.value
  {
    hide Name, Token, ToDecimal, HostEntries, ReserveEntries, RouteEntries, KeysOf, Lookup;
  }

  lemma StateReads(values: Values, image: Image)
    requires Holds(values, Entries(image))
    ensures ParseToken(Lookup(values, StateKey)) == Some(image.state)
  {
    hide Name, Token, ToDecimal, Holds, Lookup, ParseToken;
    var e := HostEntries(image);
    HoldsPart(values, image, e);
    assert e[0] in e;
    ParseTokenIff(Token(image.state), image.state);
  }

  lemma GenerationReads(values: Values, image: Image)
    requires Holds(values, Entries(image)) && ValidGeneration(image.host)
    ensures GenerationOf(values) == Some(image.host)
  {
    hide Name, Token, ToDecimal, Holds, Lookup, CanonicalPositive, ValidProcessStart;
    var e, host := HostEntries(image), image.host;
    HoldsPart(values, image, e);
    assert e[1] in e && e[2] in e && e[3] in e && e[4] in e && e[5] in e && e[6] in e;
    CanonicalPositiveIff(ToDecimal(host.pid), host.pid, U32_MAX);
    CanonicalPositiveIff(ToDecimal(host.runs), host.runs, U64_MAX);
    CanonicalPositiveIff(ToDecimal(host.lockDevice), host.lockDevice, U64_MAX);
    CanonicalPositiveIff(ToDecimal(host.lockInode), host.lockInode, U64_MAX);
  }

  lemma ReserveReads(values: Values, image: Image)
    requires Holds(values, Entries(image)) && ValidReserve(image.reserve)
    ensures ReserveOf(values) == Some(image.reserve)
  {
    if image.reserve.None? {
      NoReserveReads(values, image);
    } else {
      SomeReserveReads(values, image);
    }
  }

  lemma NoReserveReads(values: Values, image: Image)
    requires Holds(values, Entries(image)) && image.reserve.None?
    ensures ReserveOf(values) == Some(None)
  {
    hide Name, Token, ToDecimal, Holds, Lookup, CanonicalPositive, Has, Entries, RouteKeys;
    var e := ReserveEntries(image.reserve);
    HoldsPart(values, image, e);
    assert e[0] in e;
    HasExactly(values, image, StatusKey);
    HasExactly(values, image, DeviceKey);
    HasExactly(values, image, InodeKey);
    HasExactly(values, image, BytesKey);
    RouteKeysAreRouteKeys(image.route);
  }

  lemma RouteKeysAreRouteKeys(route: Option<Route>)
    ensures RouteKeys(route) <= {NoRouteKey, InputKey, OutputKey, SystemOutputKey}
  {
  }

  lemma SomeReserveReads(values: Values, image: Image)
    requires Holds(values, Entries(image)) && image.reserve.Some? && ValidReserve(image.reserve)
    ensures ReserveOf(values) == Some(image.reserve)
  {
    hide Name, Token, ToDecimal, Holds, Lookup, CanonicalPositive, Has, Entries, RouteKeys;
    var e, r := ReserveEntries(image.reserve), image.reserve.value;
    HoldsPart(values, image, e);
    assert e[0] in e && e[1] in e && e[2] in e && e[3] in e;
    HasExactly(values, image, NoReserveKey);
    RouteKeysAreRouteKeys(image.route);
    CanonicalPositiveIff(ToDecimal(r.device), r.device, U64_MAX);
    CanonicalPositiveIff(ToDecimal(r.inode), r.inode, U64_MAX);
    CanonicalPositiveIff(ToDecimal(RESERVE_BYTES), RESERVE_BYTES, U64_MAX);
    assert "allocated"[0] == 'a' && "released"[0] == 'r';
  }

  lemma RouteReads(values: Values, image: Image)
    requires Holds(values, Entries(image)) && CleanRoute(image.route)
    ensures RouteOf(values) == Some(image.route)
  {
    hide Name, Token, ToDecimal, Holds, Lookup, CleanUid, Has, Entries;
    var e := RouteEntries(image.route);
    HoldsPart(values, image, e);
    HasExactly(values, image, NoRouteKey);
    assert e[0] in e && (image.route.Some? ==> e[1] in e && e[2] in e);
  }

  predicate ValidImage(image: Image) {
    ValidGeneration(image.host) && CleanRoute(image.route) && ValidReserve(image.reserve)
  }

  lemma ValuesReadBack(values: Values, image: Image)
    requires Holds(values, Entries(image)) && ValidImage(image)
    ensures ImageOf(values) == Some(image)
  {
    hide Name, Token, ToDecimal, Lookup, ParseToken, GenerationOf, ReserveOf, RouteOf, ValidGeneration, CleanRoute,
      Names, KeysOf, Entries, ReserveKeys, RouteKeys;
    StateReads(values, image);
    GenerationReads(values, image);
    ReserveReads(values, image);
    RouteReads(values, image);
    KeysOfEntries(image);
  }

  lemma ImageIsValid(values: Values)
    requires ImageOf(values).Some?
    ensures ValidImage(ImageOf(values).value)
  {
    hide Name, Token, ToDecimal, Lookup, ParseToken, ValidProcessStart, Names, CanonicalPositive;
    forall s, max: nat | CanonicalPositive(s, max).Some? ensures 0 < CanonicalPositive(s, max).value <= max {
      CanonicalPositiveIff(s, CanonicalPositive(s, max).value, max);
    }
  }

  // A value that ends no line early.

  lemma DigitsArePlain(s: string)
    requires AllDigits(s)
    ensures PlainLine(s)
  {
  }

  lemma CleanIsPlain(uid: string)
    requires CleanUid(uid)
    ensures PlainLine(uid)
  {
    assert uid[|uid| - 1] in uid;
  }

  lemma ProcessStartIsPlain(value: string)
    requires ValidProcessStart(value)
    ensures PlainLine(value) && value != ""
  {
    DriverSnapshot.JoinedWordsArePlain(Words(value));
  }

  lemma TokenIsPlain(state: State)
    ensures PlainLine(Token(state))
  {
    hide Token;
    DriverSnapshot.TokenIsWord(state);
    var t := Token(state);
    forall c | c in t ensures !IsAsciiWhitespace(c) {
      var i :| 0 <= i < |t| && t[i] == c;
    }
  }

  lemma EntryLineIsPlain(entry: Entry)
    requires PlainLine(entry.value)
    ensures PlainLine(EntryLine(entry))
  {
    hide Name;
    NameIsPlain(entry.key);
    var line := EntryLine(entry);
    assert entry.value != "" ==> line[|line| - 1] == entry.value[|entry.value| - 1];
  }

  lemma HostEntriesArePlain(image: Image)
    requires ValidGeneration(image.host)
    ensures forall entry :: entry in HostEntries(image) ==> PlainLine(entry.value)
  {
    hide Token, ToDecimal, ValidProcessStart, PlainLine;
    TokenIsPlain(image.state);
    DigitsArePlain(ToDecimal(image.host.pid));
    DigitsArePlain(ToDecimal(image.host.runs));
    DigitsArePlain(ToDecimal(image.host.lockDevice));
    DigitsArePlain(ToDecimal(image.host.lockInode));
    ProcessStartIsPlain(image.host.processStart);
    HexIsPlain(image.host.nonce);
  }

  lemma HexIsPlain(s: string)
    requires LowerHex(s, 64)
    ensures PlainLine(s)
  {
  }

  lemma OtherEntriesArePlain(image: Image)
    requires CleanRoute(image.route)
    ensures forall entry :: entry in ReserveEntries(image.reserve) + RouteEntries(image.route) ==>
      PlainLine(entry.value)
  {
    hide ToDecimal, PlainLine, CleanUid;
    if image.reserve.Some? {
      DigitsArePlain(ToDecimal(image.reserve.value.device));
      DigitsArePlain(ToDecimal(image.reserve.value.inode));
      DigitsArePlain(ToDecimal(RESERVE_BYTES));
    }
    if image.route.Some? {
      CleanIsPlain(image.route.value.inputUid);
      CleanIsPlain(image.route.value.outputUid);
      CleanIsPlain(image.route.value.systemOutputUid);
    }
    MarkersArePlain();
  }

  lemma MarkersArePlain()
    ensures PlainLine("unavailable") && PlainLine("allocated") && PlainLine("released")
  {
  }

  lemma HeaderIsPlain()
    ensures PlainLine(HEADER)
  {
    assert IsKeyText(HEADER);
  }

  lemma LinesReadBack(image: Image)
    requires ValidImage(image)
    ensures Lines(Print(image)) == [HEADER] + EntryLines(Entries(image)) && EndsWithNewline(Print(image))
  {
    hide HostEntries, ReserveEntries, RouteEntries, ValidGeneration, CleanRoute, PlainLine, EntryLine, Lines, Unlines;
    var entries := Entries(image);
    var lines := [HEADER] + EntryLines(entries);
    HostEntriesArePlain(image);
    OtherEntriesArePlain(image);
    HeaderIsPlain();
    forall i | 0 <= i < |lines| ensures PlainLine(lines[i]) {
      if i > 0 {
        assert lines[i] == EntryLine(entries[i - 1]);
        assert entries[i - 1] in entries;
        EntryLineIsPlain(entries[i - 1]);
      }
    }
    LinesUnlines(lines);
  }

  /** The parser gives back exactly what was written, for every state, generation, route and
      reserve, precisely when the written values meet the parser's own checks: a value the
      writer lets through against them never comes back unchanged. */
  lemma RoundTrip(image: Image)
    ensures Parse(Print(image)) == Some(image) <==> ValidImage(image)
  {
    hide Lines, EntryLines, Entries, ImageOf, ValidImage, Holds, Distinct, ValuesOf, Print;
    if ValidImage(image) {
      LinesReadBack(image);
      var entries := Entries(image);
      EntriesAreDistinct(image);
      EntriesRead(entries);
      assert ([HEADER] + EntryLines(entries))[1..] == EntryLines(entries);
      ValuesReadBack(ValuesOf(EntryLines(entries)).value, image);
    }
    if Parse(Print(image)) == Some(image) {
      ImageIsValid(ValuesOf(Lines(Print(image))[1..]).value);
    }
  }

  /** Everything the parser accepts is a valid image. */
  lemma ParsedIsValid(text: string)
    ensures Parse(text).Some? ==> ValidImage(Parse(text).value)
  {
    hide ImageOf, ValidImage, Lines, ValuesOf;
    if Parse(text).Some? {
      ImageIsValid(ValuesOf(Lines(text)[1..]).value);
    }
  }

  // --------------------------------------------------------- the lines of any route

  /** The pieces of a value between the line ends inside it. */
  function Pieces(value: string): seq<string> {
    Split(value, '\n')
  }

  /** The lines an entry of the route makes: its value may hold line ends. */
  function LinesOf(entry: Entry): (lines: seq<string>)
    ensures |lines| == |Pieces(entry.value)|
  {
    [EntryLine(Entry(entry.key, StripCr(Pieces(entry.value)[0])))] + StripAll(Pieces(entry.value)[1..])
  }

  lemma LinesOfIs(entry: Entry)
    ensures Lines(EntryLine(entry) + "\n") == LinesOf(entry)
  {
    hide Lines, StripCr, StripAll;
    var name, pieces := Name(entry.key) + ['='], Pieces(entry.value);
    NameIsPlain(entry.key);
    SplitPrefix(name, entry.value, '\n');
    assert EntryLine(entry) == name + entry.value;
    LinesOfSplit(EntryLine(entry));
    StripAllCons(name + pieces[0], pieces[1..]);
    StripOfEntry(entry.key, pieces[0]);
    hide Name;
  }

  lemma StripOfEntry(key: Key, value: string)
    ensures StripCr(Name(key) + ['='] + value) == EntryLine(Entry(key, StripCr(value)))
  {
    hide Name;
    var line := Name(key) + ['='] + value;
    if value != "" {
      assert line[|line| - 1] == value[|value| - 1];
      assert line[..|line| - 1] == Name(key) + ['='] + value[..|value| - 1];
    }
  }

  function RouteLines(route: Route): seq<string> {
    LinesOf(Entry(InputKey, route.inputUid)) + LinesOf(Entry(OutputKey, route.outputUid))
    + LinesOf(Entry(SystemOutputKey, route.systemOutputUid))
  }

  lemma RouteLinesAre(route: Route)
    ensures Lines(Unlines(EntryLines(RouteEntries(Some(route))))) == RouteLines(route)
  {
    hide Lines, Unlines, LinesOf, EntryLine;
    var e := RouteEntries(Some(route));
    var lines := EntryLines(e);
    assert lines == [EntryLine(e[0]), EntryLine(e[1]), EntryLine(e[2])];
    LinesOfUnlines(lines);
    LinesOfUnlines(lines[1..]);
    LinesOfUnlines(lines[2..]);
    assert lines[1..][1..] == lines[2..] && lines[2..][1..] == [];
    NoUnlines();
    LinesOfIs(e[0]);
    LinesOfIs(e[1]);
    LinesOfIs(e[2]);
  }

  lemma NoUnlines()
    ensures Unlines([]) == "" && Lines("") == []
  {
  }

  /** The lines of any published image whose other parts are valid. */
  lemma PrintedLines(image: Image)
    requires ValidGeneration(image.host) && image.route.Some?
    ensures EndsWithNewline(Print(image))
    ensures Lines(Print(image)) ==
            [HEADER] + EntryLines(HostEntries(image) + ReserveEntries(image.reserve)) + RouteLines(image.route.value)
  {
    hide HostEntries, ReserveEntries, RouteEntries, ValidGeneration, PlainLine, EntryLine, Lines, Unlines, RouteLines;
    var front := HostEntries(image) + ReserveEntries(image.reserve);
    var route := RouteEntries(image.route);
    var head := [HEADER] + EntryLines(front);
    FrontIsPlain(image);
    LinesUnlines(head);
    assert Entries(image) == front + route;
    assert [HEADER] + EntryLines(front + route) == head + EntryLines(route);
    UnlinesAppend(head, EntryLines(route));
    LinesOfAppend(Unlines(head), Unlines(EntryLines(route)));
    RouteLinesAre(image.route.value);
    UnlinesEnds(EntryLines(route));
  }

  lemma FrontIsPlain(image: Image)
    requires ValidGeneration(image.host)
    ensures var lines := [HEADER] + EntryLines(HostEntries(image) + ReserveEntries(image.reserve));
            forall line :: line in lines ==> PlainLine(line)
  {
    hide HostEntries, ReserveEntries, ValidGeneration, PlainLine, EntryLine;
    var entries := HostEntries(image) + ReserveEntries(image.reserve);
    var lines := [HEADER] + EntryLines(entries);
    HostEntriesArePlain(image);
    OtherEntriesArePlain(image.(route := None));
    HeaderIsPlain();
    forall i | 0 <= i < |lines| ensures PlainLine(lines[i]) {
      if i > 0 {
        assert lines[i] == EntryLine(entries[i - 1]);
        assert entries[i - 1] in HostEntries(image) || entries[i - 1] in ReserveEntries(image.reserve);
        assert entries[i - 1] in HostEntries(image)
               || entries[i - 1] in ReserveEntries(image.reserve) + RouteEntries(None);
        EntryLineIsPlain(entries[i - 1]);
      }
    }
  }

  // ------------------------------------------------------------ the writer's own check

  /** Which values the line-wise check lets through: no whitespace up to the first line end, and
      behind one only in what is not a field's value.  A carriage return in front of a line end
      is not seen. */
  predicate UidAccepted(uid: string) {
    && NoWhitespace(StripCr(Pieces(uid)[0]))
    && forall i :: 1 <= i < |Pieces(uid)| ==> LineAccepted(StripCr(Pieces(uid)[i]))
  }

  /** The writer's check, for every route. */
  lemma WriterAcceptsIff(route: Route)
    ensures WriterAccepts(Some(route)) <==>
            UidAccepted(route.inputUid) && UidAccepted(route.outputUid) && UidAccepted(route.systemOutputUid)
  {
    hide Lines, LinesOf, LineAccepted, UidAccepted, EntryLine;
    RouteLinesAre(route);
    var a, b, c := LinesOf(Entry(InputKey, route.inputUid)), LinesOf(Entry(OutputKey, route.outputUid)),
                   LinesOf(Entry(SystemOutputKey, route.systemOutputUid));
    LinesAccepted(Entry(InputKey, route.inputUid));
    LinesAccepted(Entry(OutputKey, route.outputUid));
    LinesAccepted(Entry(SystemOutputKey, route.systemOutputUid));
    AllInSum(a, b, c);
  }

  lemma AllInSum(a: seq<string>, b: seq<string>, c: seq<string>)
    ensures (forall line :: line in a + b + c ==> LineAccepted(line)) <==>
            && (forall line :: line in a ==> LineAccepted(line))
            && (forall line :: line in b ==> LineAccepted(line))
            && (forall line :: line in c ==> LineAccepted(line))
  {
    hide LineAccepted;
  }

  lemma LinesAccepted(entry: Entry)
    ensures (forall line :: line in LinesOf(entry) ==> LineAccepted(line)) <==> UidAccepted(entry.value)
  {
    hide Name, StripCr, SplitOnce, EntryLine, StripAll;
    var lines, pieces := LinesOf(entry), Pieces(entry.value);
    LineReads(Entry(entry.key, StripCr(pieces[0])));
    hide NoWhitespace;
    forall i | 1 <= i < |lines| ensures lines[i] == StripCr(pieces[i]) && lines[i] in lines {
      assert lines[i] == StripAll(pieces[1..])[i - 1];
    }
    assert lines[0] in lines;
  }

  // ---------------------------------------------------- reading any route back

  predicate OneLine(uid: string) {
    '\n' !in uid
  }

  predicate OneLineRoute(route: Route) {
    OneLine(route.inputUid) && OneLine(route.outputUid) && OneLine(route.systemOutputUid)
  }

  /** The route without the carriage returns that `str::lines` takes for part of a line end. */
  function Stripped(route: Route): Route {
    Route(StripCr(route.inputUid), StripCr(route.outputUid), StripCr(route.systemOutputUid))
  }

  lemma OneLineIff(uid: string)
    ensures OneLine(uid) <==> |Pieces(uid)| == 1
    ensures OneLine(uid) ==> Pieces(uid) == [uid]
  {
  }

  lemma OneLineRouteIff(route: Route)
    ensures OneLineRoute(route) <==> |RouteLines(route)| == 3
    ensures OneLineRoute(route) ==> RouteLines(route) == EntryLines(RouteEntries(Some(Stripped(route))))
  {
    hide EntryLine, StripCr, Split;
    OneLineIff(route.inputUid);
    OneLineIff(route.outputUid);
    OneLineIff(route.systemOutputUid);
  }

  lemma OneLineReads(image: Image)
    requires ValidGeneration(image.host) && ValidReserve(image.reserve) && image.route.Some?
    requires OneLineRoute(image.route.value)
    ensures Parse(Print(image)) ==
            var read := image.(route := Some(Stripped(image.route.value)));
            if CleanRoute(read.route) then Some(read) else None
  {
    hide Lines, EntryLines, HostEntries, ReserveEntries, ImageOf, Holds, Distinct, ValuesOf, Print, RouteLines,
      ValidGeneration, ValidReserve, CleanRoute;
    var read := image.(route := Some(Stripped(image.route.value)));
    var entries := Entries(read);
    PrintedLines(image);
    OneLineRouteIff(image.route.value);
    EntryLinesAppend(HostEntries(read) + ReserveEntries(read.reserve), RouteEntries(read.route));
    SameHostEntries(image, read);
    assert entries == HostEntries(read) + ReserveEntries(read.reserve) + RouteEntries(read.route);
    hide Entries;
    var lines := Lines(Print(image));
    assert lines == [HEADER] + EntryLines(entries) && lines[1..] == EntryLines(entries);
    EntriesAreDistinct(read);
    EntriesRead(entries);
    if CleanRoute(read.route) {
      ValuesReadBack(ValuesOf(EntryLines(entries)).value, read);
    } else {
      UncleanIsRefused(ValuesOf(EntryLines(entries)).value, read);
    }
  }

  lemma SameHostEntries(a: Image, b: Image)
    requires a.state == b.state && a.host == b.host
    ensures HostEntries(a) == HostEntries(b)
  {
  }

  lemma EntryLinesAppend(a: seq<Entry>, b: seq<Entry>)
    ensures EntryLines(a + b) == EntryLines(a) + EntryLines(b)
  {
    hide EntryLine;
  }

  lemma UncleanIsRefused(values: Values, image: Image)
    requires Holds(values, Entries(image)) && image.route.Some? && !CleanRoute(image.route)
    ensures ImageOf(values).None?
  {
    hide ParseToken, GenerationOf, ReserveOf, RouteOf, Holds, Entries, CleanRoute, Names;
    UncleanRoute(values, image);
  }

  lemma UncleanRoute(values: Values, image: Image)
    requires Holds(values, Entries(image)) && image.route.Some? && !CleanRoute(image.route)
    ensures RouteOf(values).None?
  {
    hide Name, Token, ToDecimal, Holds, Lookup, CleanUid, Has, Entries, ReserveKeys;
    var e := RouteEntries(image.route);
    HoldsPart(values, image, e);
    HasExactly(values, image, NoRouteKey);
    NoRouteMarker(image);
    assert e[0] in e && e[1] in e && e[2] in e;
  }

  lemma NoRouteMarker(image: Image)
    requires image.route.Some?
    ensures NoRouteKey !in HOST_KEYS + ReserveKeys(image.reserve) + RouteKeys(image.route)
  {
  }

  // A line end inside a value makes more lines than there are keys.

  lemma {:induction false} ValuesCount(lines: seq<string>)
    requires ValuesOf(lines).Some?
    ensures |ValuesOf(lines).value.Keys| == |lines|
    ensures forall i :: 0 <= i < |lines| ==>
      SplitOnce(lines[i], '=').Some? && SplitOnce(lines[i], '=').value.key in ValuesOf(lines).value
  {
    hide SplitOnce;
    if lines != [] {
      var last := |lines| - 1;
      ValuesCount(lines[..last]);
      var before, values := ValuesOf(lines[..last]).value, ValuesOf(lines).value;
      var key := SplitOnce(lines[last], '=').value.key;
      assert values.Keys == before.Keys + {key};
      forall i | 0 <= i < |lines|
        ensures SplitOnce(lines[i], '=').Some? && SplitOnce(lines[i], '=').value.key in values
      {
        if i < last {
          assert lines[..last][i] == lines[i];
        }
      }
    }
  }

  lemma {:induction false} NamesSize(keys: set<Key>)
    ensures |Names(keys)| <= |keys|
  {
    if keys != {} {
      var key :| key in keys;
      NamesSize(keys - {key});
      hide Name;
      assert Names(keys) == Names(keys - {key}) + {Name(key)};
    } else {
      assert Names(keys) == {};
    }
  }

  lemma KeyCounts(reserve: Option<Reserve>, route: Route)
    ensures |HOST_KEYS + ReserveKeys(reserve) + RouteKeys(Some(route))| <= 10 + |ReserveEntries(reserve)|
  {
    assert |HOST_KEYS| == 7 && |RouteKeys(Some(route))| == 3 && |ReserveKeys(reserve)| == |ReserveEntries(reserve)|;
    SumSize(HOST_KEYS, ReserveKeys(reserve));
    SumSize(HOST_KEYS + ReserveKeys(reserve), RouteKeys(Some(route)));
  }

  lemma SumSize(a: set<Key>, b: set<Key>)
    ensures |a + b| <= |a| + |b|
  {
    assert |a + b| == |a| + |b| - |a * b|;
  }

  lemma HasName(values: Values, keys: set<Key>, key: Key)
    requires values.Keys == Names(keys)
    ensures Has(values, key) <==> key in keys
  {
    hide Name;
    if Has(values, key) {
      var other :| other in keys && Name(other) == Name(key);
      NamesDiffer(other, key);
    }
  }

  /** The keys of any image that is read from values with these keys in them. */
  lemma ReadKeys(values: Values, reserve: Option<Reserve>, route: Route)
    requires ImageOf(values).Some? && Has(values, InputKey)
    requires if reserve.None? then Has(values, NoReserveKey) else Has(values, StatusKey)
    ensures values.Keys == Names(HOST_KEYS + ReserveKeys(reserve) + RouteKeys(Some(route)))
  {
    hide ParseToken, GenerationOf, ReserveOf, RouteOf, Names, Has;
    var read := ImageOf(values).value;
    var keys := HOST_KEYS + ReserveKeys(read.reserve) + RouteKeys(read.route);
    HasName(values, keys, InputKey);
    HasName(values, keys, NoReserveKey);
    HasName(values, keys, StatusKey);
  }

  /** No run reads an image back whose route has a line end in it. */
  lemma LineEndIsLost(image: Image)
    requires ValidGeneration(image.host) && image.route.Some? && !OneLineRoute(image.route.value)
    ensures Parse(Print(image)).None?
  {
    hide Lines, HostEntries, ReserveEntries, ImageOf, ValuesOf, Print, RouteLines, ValidGeneration, SplitOnce, Has,
      Names, OneLineRoute, ReserveKeys, RouteKeys;
    PrintedLines(image);
    OneLineRouteIff(image.route.value);
    AtLeastThree(image.route.value);
    if Parse(Print(image)).Some? {
      var route := image.route.value;
      var front, rest := HostEntries(image) + ReserveEntries(image.reserve), RouteLines(route);
      var lines := EntryLines(front) + rest;
      assert Lines(Print(image))[1..] == lines;
      var values := ValuesOf(lines).value;
      ValuesCount(lines);
      HostEntryCount(image);
      FrontHas(values, image, lines);
      InputIsFirst(route);
      assert lines[|front|] == rest[0];
      HasOf(values, InputKey);
      ReadKeys(values, image.reserve, route);
      KeyCounts(image.reserve, route);
      NamesSize(HOST_KEYS + ReserveKeys(image.reserve) + RouteKeys(Some(route)));
      assert false;
    }
  }

  lemma HasOf(values: Values, key: Key)
    ensures Name(key) in values <==> Has(values, key)
  {
  }

  lemma HostEntryCount(image: Image)
    ensures |HostEntries(image)| == 7 && |ReserveEntries(image.reserve)| >= 1
  {
  }

  lemma AtLeastThree(route: Route)
    ensures |RouteLines(route)| >= 3
  {
    hide LinesOf, Split;
  }

  lemma InputIsFirst(route: Route)
    ensures |RouteLines(route)| >= 3
    ensures var field := SplitOnce(RouteLines(route)[0], '=');
            field.Some? && field.value.key == Name(InputKey)
  {
    hide SplitOnce, Name, EntryLine, Split, StripCr, StripAll;
    LineReads(Entry(InputKey, StripCr(Pieces(route.inputUid)[0])));
  }

  lemma FrontHas(values: Values, image: Image, lines: seq<string>)
    requires var front := HostEntries(image) + ReserveEntries(image.reserve);
             |lines| >= |front| && lines[..|front|] == EntryLines(front)
    requires forall i :: 0 <= i < |lines| ==>
      SplitOnce(lines[i], '=').Some? && SplitOnce(lines[i], '=').value.key in values
    ensures if image.reserve.None? then Has(values, NoReserveKey) else Has(values, StatusKey)
  {
    hide SplitOnce, Name, EntryLine, Token, ToDecimal;
    var entry := ReserveEntries(image.reserve)[0];
    assert lines[7] == lines[..|HostEntries(image) + ReserveEntries(image.reserve)|][7] == EntryLine(entry);
    LineReads(entry);
  }

  /** What a later run reads of a published image, for every route: the route without its
      trailing carriage returns, and nothing at all as soon as a UID is empty, or holds
      whitespace or a line end. */
  lemma PrintedReads(image: Image)
    requires ValidGeneration(image.host) && ValidReserve(image.reserve) && image.route.Some?
    ensures Parse(Print(image)) ==
            var read := image.(route := Some(Stripped(image.route.value)));
            if OneLineRoute(image.route.value) && CleanRoute(read.route) then Some(read) else None
  {
    hide Parse, Print, OneLineRoute, CleanRoute, ValidGeneration, ValidReserve;
    if OneLineRoute(image.route.value) {
      OneLineReads(image);
    } else {
      LineEndIsLost(image);
    }
  }

  /** The writer's check is not the parser's: of the images it lets through, exactly those are
      read back at all whose UIDs have no line end inside and are not empty. */
  lemma AcceptedAndRead(image: Image)
    requires ValidGeneration(image.host) && ValidReserve(image.reserve) && image.route.Some?
    requires WriterAccepts(image.route)
    ensures Parse(Print(image)).Some? <==>
            var r, s := image.route.value, Stripped(image.route.value);
            OneLineRoute(r) && s.inputUid != "" && s.outputUid != "" && s.systemOutputUid != ""
  {
    hide Parse, Print, WriterAccepts, ValidGeneration, ValidReserve, Split, StripCr;
    var r := image.route.value;
    PrintedReads(image);
    WriterAcceptsIff(r);
    OneLineIff(r.inputUid);
    OneLineIff(r.outputUid);
    OneLineIff(r.systemOutputUid);
  }

  lemma OneLineAccepted(uid: string)
    requires OneLine(uid) && NoWhitespace(StripCr(uid))
    ensures UidAccepted(uid)
  {
    hide Split;
    OneLineIff(uid);
  }

  lemma PlainUids()
    ensures OneLine("in") && NoWhitespace("in") && StripCr("in") == "in"
    ensures OneLine("out") && NoWhitespace("out") && StripCr("out") == "out"
    ensures OneLine("system") && NoWhitespace("system") && StripCr("system") == "system"
    ensures OneLine("") && NoWhitespace("") && StripCr("") == ""
    ensures OneLine("system\r") && StripCr("system\r") == "system"
  {
  }

  /** An image the writer publishes and no later run can read: its input UID is empty. */
  lemma EmptyUidIsLost(image: Image)
    requires ValidGeneration(image.host) && ValidReserve(image.reserve)
    requires image.route == Some(Route("", "out", "system"))
    ensures WriterAccepts(image.route) && Parse(Print(image)).None?
  {
    PlainUids();
    hide Parse, Print, WriterAccepts, ValidGeneration, ValidReserve, UidAccepted, StripCr, NoWhitespace;
    PrintedReads(image);
    OneLineAccepted("");
    OneLineAccepted("out");
    OneLineAccepted("system");
    WriterAcceptsIff(image.route.value);
  }

  /** The same with a line end inside one. */
  lemma LineEndUidIsLost(image: Image)
    requires ValidGeneration(image.host) && ValidReserve(image.reserve)
    requires image.route == Some(Route("in\nside", "out", "system"))
    ensures WriterAccepts(image.route) && Parse(Print(image)).None?
  {
    PlainUids();
    SplitOfBroken();
    assert UidAccepted("in\nside") by { BrokenIsAccepted(); }
    hide Parse, Print, WriterAccepts, ValidGeneration, ValidReserve, UidAccepted, StripCr, NoWhitespace, Split;
    PrintedReads(image);
    OneLineAccepted("out");
    OneLineAccepted("system");
    WriterAcceptsIff(image.route.value);
  }

  lemma SplitOfBroken()
    ensures Pieces("in\nside") == ["in", "side"] && '\n' in "in\nside"
  {
    hide Split, FirstIndex;
    assert Join(["in", "side"], '\n') == "in\nside" by {
      assert ["in", "side"][1..] == ["side"];
    }
    SplitJoin(["in", "side"], '\n');
    assert "in\nside"[2] == '\n';
  }

  lemma BrokenIsAccepted()
    ensures UidAccepted("in\nside")
  {
    SplitOfBroken();
    PlainUids();
    hide Split;
    assert '=' !in "side" && StripCr("side") == "side";
  }

  /** An image that comes back as another one: a carriage return at the end of its last UID. */
  lemma CarriageReturnIsDropped(image: Image)
    requires ValidGeneration(image.host) && ValidReserve(image.reserve)
    requires image.route == Some(Route("in", "out", "system\r"))
    ensures WriterAccepts(image.route)
    ensures Parse(Print(image)) == Some(image.(route := Some(Route("in", "out", "system"))))
  {
    PlainUids();
    hide Parse, Print, WriterAccepts, ValidGeneration, ValidReserve, UidAccepted, StripCr;
    PrintedReads(image);
    OneLineAccepted("in");
    OneLineAccepted("out");
    OneLineAccepted("system\r");
    WriterAcceptsIff(image.route.value);
  }

  /** `parse_root_state_text`: one pass over the lines collects the values. */
  method ParseText(text: string) returns (result: Option<Image>)
    ensures result == Parse(text)
  {
    hide Lines, ImageOf, SplitOnce;
    var lines := Lines(text);
    if |lines| == 0 || lines[0] != HEADER || !EndsWithNewline(text) {
      return None;
    }
    var values: Values := map[];
    for i := 1 to |lines|
      invariant ValuesOf(lines[1..i]) == Some(values)
    {
      assert lines[1..i + 1][..i - 1] == lines[1..i];
      assert ValuesOf(lines[1..i + 1]).None? ==> ValuesOf(lines[1..]).None? by {
        if ValuesOf(lines[1..i + 1]).None? {
          assert lines[1..][..i] == lines[1..i + 1];
          ValuesFail(lines[1..], i);
        }
      }
      var field := SplitOnce(lines[i], '=');
      if field.None? || field.value.key in values {
        return None;
      }
      values := values[field.value.key := field.value.value];
    }
    assert lines[1..|lines|] == lines[1..];
    return ImageOf(values);
  }

  lemma {:induction false} ValuesFail(lines: seq<string>, k: nat)
    requires k <= |lines| && ValuesOf(lines[..k]).None?
    ensures ValuesOf(lines).None?
  {
    if k < |lines| {
      var last := |lines| - 1;
      assert lines[..last][..k] == lines[..k];
      ValuesFail(lines[..last], k);
    } else {
      assert lines[..k] == lines;
    }
  }
}
