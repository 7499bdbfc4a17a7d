/** The grammar of the bounded JSON parser: derivations, their texts and what they stand for. */
module JsonGrammar {
  import opened Text

  datatype Value =
    | Null
    | Bool(b: bool)
    | Number(text: string)
    | String(text: string)
    | Array(items: seq<Value>)
    | Object(fields: map<string, Value>)

  const MAX_DEPTH: nat := 32
  const MAX_NODES: nat := 16_384
  const MAX_STRING: nat := 8 * 1_048_576

  predicate IsSpace(c: char) {
    c == ' ' || c == '\n' || c == '\r' || c == '\t'
  }

  predicate IsGap(s: string) {
    forall i :: 0 <= i < |s| ==> IsSpace(s[i])
  }

  // ------------------------------------------------------------------------ strings

  /** One unit of a string's text: a plain byte, a short escape, or a code point escape. */
  datatype Unit = Plain(c: char) | Escaped(c: char) | CodePoint(digits: string)

  predicate IsHexDigit(c: char) {
    IsDigit(c) || 'a' <= c <= 'f' || 'A' <= c <= 'F'
  }

  function HexValue(c: char): nat
    requires IsHexDigit(c)
  {
    if IsDigit(c) then DigitValue(c) else if 'a' <= c then c as int - 87 else c as int - 55
  }

  function HexNumber(s: string): nat
    requires forall c :: c in s ==> IsHexDigit(c)
  {
    if s == "" then 0 else 16 * HexNumber(s[..|s| - 1]) + HexValue(s[|s| - 1])
  }

  /** `u32::from_str_radix(digits, 16)`, which also takes a leading plus sign, and the refusal
      of surrogates. */
  function Scalar(digits: string): Option<nat> {
    var d := if |digits| > 0 && digits[0] == '+' then digits[1..] else digits;
    if d == "" || !(forall c :: c in d ==> IsHexDigit(c)) then None
    else if 0xD800 <= HexNumber(d) <= 0xDFFF || HexNumber(d) > 0xFFFF then None
    else Some(HexNumber(d))
  }

  /** `char::encode_utf8` for the code points that four digits can name. */
  function Encode(n: nat): string
    requires n <= 0xFFFF
  {
    if n < 0x80 then [n as char]
    else if n < 0x800 then [(0xC0 + n / 0x40) as char, (0x80 + n % 0x40) as char]
    else [(0xE0 + n / 0x1000) as char, (0x80 + n / 0x40 % 0x40) as char, (0x80 + n % 0x40) as char]
  }

  function ShortEscape(c: char): Option<char> {
    if c == '"' || c == '\\' || c == '/' then Some(c)
    else if c == 'b' then Some(8 as char)
    else if c == 'f' then Some(12 as char)
    else if c == 'n' then Some('\n')
    else if c == 'r' then Some('\r')
    else if c == 't' then Some('\t')
    else None
  }

  predicate ValidUnit(u: Unit) {
    match u
    case Plain(c) => c as int >= 0x20 && c != '"' && c != '\\'
    case Escaped(c) => ShortEscape(c).Some?
    case CodePoint(digits) => |digits| == 4 && Scalar(digits).Some?
  }

  function UnitText(u: Unit): string {
    match u
    case Plain(c) => [c]
    case Escaped(c) => ['\\', c]
    case CodePoint(digits) => ['\\', 'u'] + digits
  }

  function UnitBytes(u: Unit): string
    requires ValidUnit(u)
  {
    match u
    case Plain(c) => [c]
    case Escaped(c) => [ShortEscape(c).value]
    case CodePoint(digits) => Encode(Scalar(digits).value)
  }

  predicate ValidUnits(units: seq<Unit>) {
    forall i :: 0 <= i < |units| ==> ValidUnit(units[i])
  }

  function UnitsText(units: seq<Unit>): string {
    if units == [] then "" else UnitsText(units[..|units| - 1]) + UnitText(units[|units| - 1])
  }

  function UnitsBytes(units: seq<Unit>): string
    requires ValidUnits(units)
  {
    if units == [] then "" else UnitsBytes(units[..|units| - 1]) + UnitBytes(units[|units| - 1])
  }

  // ------------------------------------------------------------------------ numbers

  /** The parts of a number, as section 6 of RFC 8259 has them. */
  datatype Parts = Parts(minus: string, whole: string, fraction: string, exponent: string)

  predicate Digits(s: string) {
    |s| > 0 && AllDigits(s)
  }

  predicate ValidExponent(s: string) {
    || s == ""
    || (|s| > 1 && (s[0] == 'e' || s[0] == 'E') && Digits(s[1..]))
    || (|s| > 2 && (s[0] == 'e' || s[0] == 'E') && (s[1] == '+' || s[1] == '-') && Digits(s[2..]))
  }

  predicate ValidNumber(p: Parts) {
    && (p.minus == "" || p.minus == "-")
    && (p.whole == "0" || (Digits(p.whole) && p.whole[0] != '0'))
    && (p.fraction == "" || (|p.fraction| > 1 && p.fraction[0] == '.' && Digits(p.fraction[1..])))
    && ValidExponent(p.exponent)
  }

  function NumberText(p: Parts): string {
    p.minus + p.whole + p.fraction + p.exponent
  }

  // -------------------------------------------------------------------- derivations

  /** A derivation: the value with all that the text says beyond it. */
  datatype Syntax =
    | NullLiteral
    | BoolLiteral(b: bool)
    | NumberLiteral(parts: Parts)
    | StringLiteral(units: seq<Unit>)
    | Items(gap: string, items: seq<Item>)
    | Members(gap: string, members: seq<Member>)

  /** A value with the gaps around it. */
  datatype Item = Item(before: string, syntax: Syntax, after: string)

  datatype Member = Member(before: string, key: seq<Unit>, gap: string, item: Item)

  function SyntaxText(s: Syntax): string
    decreases s
  {
    match s
    case NullLiteral => "null"
    case BoolLiteral(b) => if b then "true" else "false"
    case NumberLiteral(parts) => NumberText(parts)
    case StringLiteral(units) => StringText(units)
    case Items(gap, items) => ['['] + (if items == [] then gap else ItemsText(items)) + [']']
    case Members(gap, members) => ['{'] + (if members == [] then gap else MembersText(members)) + ['}']
  }

  function StringText(units: seq<Unit>): string {
    ['"'] + UnitsText(units) + ['"']
  }

  function ItemText(item: Item): string
    decreases item
  {
    item.before + SyntaxText(item.syntax) + item.after
  }

  function MemberText(m: Member): string
    decreases m
  {
    m.before + StringText(m.key) + m.gap + [':'] + ItemText(m.item)
  }

  function ItemsText(items: seq<Item>): string
    requires items != []
    decreases items
  {
    var last := |items| - 1;
    if last == 0 then ItemText(items[0]) else ItemsText(items[..last]) + [','] + ItemText(items[last])
  }

  function MembersText(members: seq<Member>): string
    requires members != []
    decreases members
  {
    var last := |members| - 1;
    if last == 0 then MemberText(members[0]) else MembersText(members[..last]) + [','] + MemberText(members[last])
  }

  /** The derivation obeys the grammar, and no value lies deeper than the bound. */
  predicate WellFormed(s: Syntax, depth: nat)
    decreases s
  {
    && depth <= MAX_DEPTH
    && match s
       case NullLiteral => true
       case BoolLiteral(_) => true
       case NumberLiteral(parts) => ValidNumber(parts)
       case StringLiteral(units) => ValidUnits(units)
       case Items(gap, items) =>
         IsGap(gap) && forall i :: 0 <= i < |items| ==> WellFormedItem(items[i], depth + 1)
       case Members(gap, members) =>
         IsGap(gap) && DistinctKeys(members) && forall i :: 0 <= i < |members| ==>
           WellFormedMember(members[i], depth + 1)
  }

  predicate WellFormedItem(item: Item, depth: nat)
    decreases item
  {
    IsGap(item.before) && IsGap(item.after) && WellFormed(item.syntax, depth)
  }

  predicate WellFormedMember(m: Member, depth: nat)
    decreases m
  {
    IsGap(m.before) && ValidUnits(m.key) && IsGap(m.gap) && WellFormedItem(m.item, depth)
  }

  /** No two members of an object spell the same key. */
  predicate DistinctKeys(members: seq<Member>) {
    && (forall i :: 0 <= i < |members| ==> ValidUnits(members[i].key))
    && forall i, j :: 0 <= i < j < |members| ==> UnitsBytes(members[i].key) != UnitsBytes(members[j].key)
  }

  /** How many values the derivation holds. */
  function Nodes(s: Syntax): nat
    decreases s
  {
    match s
    case Items(_, items) => 1 + ItemsNodes(items)
    case Members(_, members) => 1 + MembersNodes(members)
    case _ => 1
  }

  function ItemsNodes(items: seq<Item>): nat
    decreases items
  {
    if items == [] then 0 else ItemsNodes(items[..|items| - 1]) + Nodes(items[|items| - 1].syntax)
  }

  function MembersNodes(members: seq<Member>): nat
    decreases members
  {
    if members == [] then 0 else MembersNodes(members[..|members| - 1]) + Nodes(members[|members| - 1].item.syntax)
  }

  /** The value a derivation stands for. */
  function ValueOf(s: Syntax, depth: nat): Value
    requires WellFormed(s, depth)
    decreases s
  {
    match s
    case NullLiteral => Null
    case BoolLiteral(b) => Bool(b)
    case NumberLiteral(parts) => Number(NumberText(parts))
    case StringLiteral(units) => String(UnitsBytes(units))
    case Items(_, items) => Array(ItemsValue(items, depth + 1))
    case Members(_, members) => Object(MembersValue(members, depth + 1))
  }

  function ItemsValue(items: seq<Item>, depth: nat): seq<Value>
    requires forall i :: 0 <= i < |items| ==> WellFormedItem(items[i], depth)
    decreases items
  {
    if items == [] then []
    else
      assert WellFormedItem(items[|items| - 1], depth);
      ItemsValue(items[..|items| - 1], depth) + [ValueOf(items[|items| - 1].syntax, depth)]
  }

  function MembersValue(members: seq<Member>, depth: nat): map<string, Value>
    requires forall i :: 0 <= i < |members| ==> WellFormedMember(members[i], depth)
    decreases members
  {
    if members == [] then map[]
    else
      var m := members[|members| - 1];
      assert WellFormedMember(m, depth) && WellFormedItem(m.item, depth);
      MembersValue(members[..|members| - 1], depth)[UnitsBytes(m.key) := ValueOf(m.item.syntax, depth)]
  }

  /** A whole text: a value between gaps. */
  datatype Derivation = Derivation(before: string, syntax: Syntax, after: string)

  /** The bytes are the text of the derivation, and it keeps the bounds. */
  predicate Derives(bytes: string, d: Derivation) {
    && bytes == d.before + SyntaxText(d.syntax) + d.after && IsGap(d.before) && IsGap(d.after)
    && WellFormed(d.syntax, 0) && Nodes(d.syntax) <= MAX_NODES
  }

  // ------------------------------------------------------------------- growing derivations

  lemma {:induction false} UnitsGrow(units: seq<Unit>, u: Unit)
    requires ValidUnits(units) && ValidUnit(u)
    ensures ValidUnits(units + [u])
    ensures UnitsText(units + [u]) == UnitsText(units) + UnitText(u)
    ensures UnitsBytes(units + [u]) == UnitsBytes(units) + UnitBytes(u)
  {
    assert (units + [u])[..|units|] == units;
  }

  lemma {:induction false} ItemsGrow(items: seq<Item>, item: Item, depth: nat)
    requires forall i :: 0 <= i < |items| ==> WellFormedItem(items[i], depth)
    requires WellFormedItem(item, depth)
    ensures forall i :: 0 <= i <= |items| ==> WellFormedItem((items + [item])[i], depth)
    ensures ItemsText(items + [item]) ==
            if items == [] then ItemText(item) else ItemsText(items) + [','] + ItemText(item)
    ensures ItemsNodes(items + [item]) == ItemsNodes(items) + Nodes(item.syntax)
    ensures ItemsValue(items + [item], depth) == ItemsValue(items, depth) + [ValueOf(item.syntax, depth)]
  {
    hide ItemText, Nodes, ValueOf, WellFormed;
    var more := items + [item];
    assert more[..|items|] == items;
    forall i | 0 <= i <= |items| ensures WellFormedItem(more[i], depth) {
    }
  }

  lemma {:induction false} MembersGrow(members: seq<Member>, m: Member, depth: nat)
    requires forall i :: 0 <= i < |members| ==> WellFormedMember(members[i], depth)
    requires WellFormedMember(m, depth)
    ensures forall i :: 0 <= i <= |members| ==> WellFormedMember((members + [m])[i], depth)
    ensures WellFormedItem(m.item, depth)
    ensures MembersText(members + [m]) ==
            if members == [] then MemberText(m) else MembersText(members) + [','] + MemberText(m)
    ensures MembersNodes(members + [m]) == MembersNodes(members) + Nodes(m.item.syntax)
    ensures MembersValue(members + [m], depth) ==
            MembersValue(members, depth)[UnitsBytes(m.key) := ValueOf(m.item.syntax, depth)]
  {
    hide MemberText, Nodes, ValueOf, WellFormed, UnitsBytes;
    var more := members + [m];
    assert more[..|members|] == members;
    forall i | 0 <= i <= |members| ensures WellFormedMember(more[i], depth) {
    }
  }

  /** The keys of an object's value are the keys of its members. */
  lemma {:induction false} KeysOfMembers(members: seq<Member>, depth: nat, key: string)
    requires forall i :: 0 <= i < |members| ==> WellFormedMember(members[i], depth)
    ensures key in MembersValue(members, depth) <==>
            exists i :: 0 <= i < |members| && WellFormedMember(members[i], depth) && UnitsBytes(members[i].key) == key
  {
    hide ValueOf, WellFormed, UnitsBytes;
    if members != [] {
      var last := |members| - 1;
      KeysOfMembers(members[..last], depth, key);
      assert WellFormedMember(members[last], depth);
      assert forall i :: 0 <= i < last ==> members[..last][i] == members[i];
    }
  }

  lemma {:induction false} DistinctGrow(members: seq<Member>, m: Member, depth: nat)
    requires forall i :: 0 <= i < |members| ==> WellFormedMember(members[i], depth)
    requires DistinctKeys(members) && WellFormedMember(m, depth)
    requires UnitsBytes(m.key) !in MembersValue(members, depth)
    ensures DistinctKeys(members + [m])
  {
    hide ValueOf, WellFormed, UnitsBytes, MembersValue;
    KeysOfMembers(members, depth, UnitsBytes(m.key));
    var more := members + [m];
    forall i | 0 <= i < |more| ensures ValidUnits(more[i].key) {
    }
    forall i, j | 0 <= i < j < |more| ensures UnitsBytes(more[i].key) != UnitsBytes(more[j].key) {
      assert more[i] == members[i] && WellFormedMember(members[i], depth);
    }
  }

  /** How many containers deep the values of a derivation lie. */
  function Height(s: Syntax): nat
    decreases s
  {
    match s
    case Items(_, items) => ItemsHeight(items)
    case Members(_, members) => MembersHeight(members)
    case _ => 0
  }

  function ItemsHeight(items: seq<Item>): nat
    decreases items
  {
    if items == [] then 0
    else Max(ItemsHeight(items[..|items| - 1]), 1 + Height(items[|items| - 1].syntax))
  }

  function MembersHeight(members: seq<Member>): nat
    decreases members
  {
    if members == [] then 0
    else Max(MembersHeight(members[..|members| - 1]), 1 + Height(members[|members| - 1].item.syntax))
  }

  function Max(a: nat, b: nat): nat {
    if a < b then b else a
  }

  /** No value of an accepted text lies more than 32 containers deep. */
  lemma {:induction false} HeightIsBounded(s: Syntax, depth: nat)
    requires WellFormed(s, depth)
    ensures depth + Height(s) <= MAX_DEPTH
    decreases s
  {
    match s
    case Items(_, items) => ItemsAreBounded(items, depth);
    case Members(_, members) => MembersAreBounded(members, depth);
    case _ =>
  }

  lemma {:induction false} ItemsAreBounded(items: seq<Item>, depth: nat)
    requires depth <= MAX_DEPTH && forall i :: 0 <= i < |items| ==> WellFormedItem(items[i], depth + 1)
    ensures depth + ItemsHeight(items) <= MAX_DEPTH
    decreases items
  {
    if items != [] {
      assert WellFormedItem(items[|items| - 1], depth + 1);
      ItemsAreBounded(items[..|items| - 1], depth);
      HeightIsBounded(items[|items| - 1].syntax, depth + 1);
    }
  }

  lemma {:induction false} MembersAreBounded(members: seq<Member>, depth: nat)
    requires depth <= MAX_DEPTH && forall i :: 0 <= i < |members| ==> WellFormedMember(members[i], depth + 1)
    ensures depth + MembersHeight(members) <= MAX_DEPTH
    decreases members
  {
    if members != [] {
      assert WellFormedMember(members[|members| - 1], depth + 1)
        && WellFormedItem(members[|members| - 1].item, depth + 1);
      MembersAreBounded(members[..|members| - 1], depth);
      HeightIsBounded(members[|members| - 1].item.syntax, depth + 1);
    }
  }

  /** An accepted object keeps every member: no key was given twice. */
  lemma {:induction false} NoMemberIsLost(members: seq<Member>, depth: nat)
    requires forall i :: 0 <= i < |members| ==> WellFormedMember(members[i], depth)
    requires DistinctKeys(members)
    ensures |MembersValue(members, depth)| == |members|
  {
    hide UnitsBytes, ValueOf, WellFormed;
    if members != [] {
      var last := |members| - 1;
      var before := members[..last];
      assert forall i :: 0 <= i < last ==> before[i] == members[i];
      NoMemberIsLost(before, depth);
      assert WellFormedMember(members[last], depth);
      var key := UnitsBytes(members[last].key);
      KeysOfMembers(before, depth, key);
      assert MembersValue(members, depth).Keys == MembersValue(before, depth).Keys + {key};
    }
  }
}
