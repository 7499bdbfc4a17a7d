/** What lies ahead of the parser: the rest of the input as the text of a derivation, cut up in
    the order in which the parser reads it. */
module JsonAhead {
  import opened Text
  import opened JsonGrammar

  // ------------------------------------------------------------------- pieces of the input

  predicate Slice(bytes: string, from: nat, to: nat, text: string) {
    from <= to <= |bytes| && bytes[from..to] == text
  }

  lemma {:induction false} SliceJoin(bytes: string, a: nat, b: nat, c: nat, left: string, right: string)
    requires Slice(bytes, a, b, left) && Slice(bytes, b, c, right)
    ensures Slice(bytes, a, c, left + right)
  {
    assert bytes[a..c] == bytes[a..b] + bytes[b..c];
  }

  lemma {:induction false} SliceOne(bytes: string, i: nat)
    requires i < |bytes|
    ensures Slice(bytes, i, i + 1, [bytes[i]])
  {
  }

  lemma {:induction false} GapJoin(a: string, b: string)
    requires IsGap(a) && IsGap(b)
    ensures IsGap(a + b)
  {
  }

  // ------------------------------------------------------------- what lies ahead

  /** All that is left of the input. */
  predicate At(bytes: string, i: nat, rest: string) {
    i <= |bytes| && bytes[i..] == rest
  }

  lemma {:induction false} AtStep(bytes: string, i: nat, a: string, b: string)
    requires At(bytes, i, a + b)
    ensures Slice(bytes, i, i + |a|, a) && At(bytes, i + |a|, b)
  {
    assert bytes[i..][..|a|] == a && bytes[i..][|a|..] == b;
    assert bytes[i..i + |a|] == bytes[i..][..|a|] && bytes[i + |a|..] == bytes[i..][|a|..];
  }

  lemma {:induction false} AtFirst(bytes: string, i: nat, rest: string)
    requires At(bytes, i, rest)
    ensures rest == "" <==> i == |bytes|
    ensures rest != "" ==> bytes[i] == rest[0]
  {
  }

  /** What may follow a value. */
  predicate Ends(tail: string) {
    tail == "" || IsSpace(tail[0]) || tail[0] == ',' || tail[0] == ']' || tail[0] == '}'
  }

  /** What may follow a gap. */
  predicate Starts(rest: string) {
    rest == "" || !IsSpace(rest[0])
  }

  /** Reading spaces as far as they go reads exactly the gap ahead. */
  lemma {:induction false} GapAhead(bytes: string, a: nat, b: nat, gap: string, ahead: string, rest: string)
    requires At(bytes, a, ahead + rest) && IsGap(ahead) && Starts(rest)
    requires Slice(bytes, a, b, gap) && IsGap(gap) && (b < |bytes| ==> !IsSpace(bytes[b]))
    ensures gap == ahead && At(bytes, b, rest)
  {
    AtStep(bytes, a, ahead, rest);
    var c := a + |ahead|;
    AtFirst(bytes, c, rest);
    assert forall k :: a <= k < c ==> bytes[k] == bytes[a..c][k - a];
    assert forall k :: a <= k < b ==> bytes[k] == bytes[a..b][k - a];
    assert b == c;
  }

  // ------------------------------------------------------------------------ strings

  /** What follows the backslash of an escape. */
  function EscapeRest(u: Unit): string
    requires !u.Plain?
  {
    match u
    case Escaped(c) => [c]
    case CodePoint(digits) => "u" + digits
  }

  predicate UnitAhead(bytes: string, i: nat, u: Unit, tail: string) {
    ValidUnit(u) && At(bytes, i, UnitText(u) + tail)
  }

  predicate EscapeAhead(bytes: string, i: nat, u: Unit, tail: string) {
    !u.Plain? && ValidUnit(u) && At(bytes, i, EscapeRest(u) + tail)
  }

  lemma {:induction false} UnitStarts(bytes: string, i: nat, u: Unit, tail: string)
    requires UnitAhead(bytes, i, u, tail)
    ensures i < |bytes| && bytes[i] != '"' && bytes[i] as int >= 0x20
    ensures u.Plain? <==> bytes[i] != '\\'
    ensures u.Plain? ==> u == Plain(bytes[i]) && At(bytes, i + 1, tail)
    ensures !u.Plain? ==> EscapeAhead(bytes, i + 1, u, tail)
  {
    hide Scalar, ShortEscape;
    var text := UnitText(u);
    AtStep(bytes, i, [text[0]], text[1..] + tail) by {
      assert text + tail == [text[0]] + (text[1..] + tail);
    }
    if u.Plain? {
      assert text[1..] + tail == tail;
    } else {
      assert text[1..] == EscapeRest(u);
    }
  }

  lemma {:induction false} EscapeStarts(bytes: string, i: nat, u: Unit, tail: string)
    requires EscapeAhead(bytes, i, u, tail)
    ensures i < |bytes|
    ensures u.Escaped? <==> bytes[i] != 'u'
    ensures u.Escaped? ==> u == Escaped(bytes[i]) && At(bytes, i + 1, tail)
    ensures u.CodePoint? ==>
      i + 5 <= |bytes| && u == CodePoint(bytes[i + 1..i + 5]) && At(bytes, i + 5, tail)
  {
    hide Scalar;
    var text := EscapeRest(u);
    assert text + tail == [text[0]] + (text[1..] + tail);
    AtStep(bytes, i, [text[0]], text[1..] + tail);
    if u.Escaped? {
      assert text[1..] + tail == tail;
    } else {
      assert text[1..] == u.digits;
      AtStep(bytes, i + 1, u.digits, tail);
    }
  }

  /** A string that the parser's own limits let through. */
  predicate CleanString(units: seq<Unit>, isUtf8: string -> bool) {
    ValidUnits(units) && |UnitsBytes(units)| <= MAX_STRING && isUtf8(UnitsBytes(units))
  }

  predicate StringAhead(bytes: string, i: nat, units: seq<Unit>, tail: string, isUtf8: string -> bool) {
    CleanString(units, isUtf8) && At(bytes, i, StringText(units) + tail)
  }

  /** The units from the `n`-th on, and the closing quote. */
  predicate UnitsAhead(bytes: string, i: nat, units: seq<Unit>, n: nat, tail: string) {
    n <= |units| && ValidUnits(units) && At(bytes, i, UnitsText(units[n..]) + (['"'] + tail))
  }

  lemma {:induction false} UnitsTextCons(units: seq<Unit>)
    requires units != []
    ensures UnitsText(units) == UnitText(units[0]) + UnitsText(units[1..])
  {
    hide UnitText;
    var last := |units| - 1;
    if last == 0 {
      assert units[..0] == [] && units[1..] == [];
    } else {
      UnitsTextCons(units[..last]);
      assert units[..last][1..] == units[1..][..last - 1];
    }
  }

  lemma {:induction false} UnitsBytesGrow(units: seq<Unit>, n: nat)
    requires ValidUnits(units) && n <= |units|
    ensures |UnitsBytes(units[..n])| <= |UnitsBytes(units)|
  {
    hide UnitBytes, ValidUnit;
    if n < |units| {
      var last := |units| - 1;
      UnitsBytesGrow(units[..last], n);
      assert units[..last][..n] == units[..n];
    } else {
      assert units[..n] == units;
    }
  }

  lemma {:induction false} StringStarts(bytes: string, i: nat, units: seq<Unit>, tail: string, isUtf8: string -> bool)
    requires StringAhead(bytes, i, units, tail, isUtf8)
    ensures i < |bytes| && bytes[i] == '"' && UnitsAhead(bytes, i + 1, units, 0, tail)
  {
    hide UnitsText, UnitsBytes;
    assert units[0..] == units;
    assert StringText(units) + tail == ['"'] + (UnitsText(units) + (['"'] + tail));
    AtStep(bytes, i, ['"'], UnitsText(units) + (['"'] + tail));
  }

  lemma {:induction false} UnitsNext(bytes: string, i: nat, units: seq<Unit>, n: nat, tail: string)
    requires UnitsAhead(bytes, i, units, n, tail)
    ensures i < |bytes| && (n == |units| <==> bytes[i] == '"')
    ensures n == |units| ==> At(bytes, i + 1, tail)
    ensures n < |units| ==> UnitAhead(bytes, i, units[n], UnitsText(units[n + 1..]) + (['"'] + tail))
  {
    hide UnitText, ValidUnit;
    if n == |units| {
      assert UnitsText(units[n..]) + (['"'] + tail) == ['"'] + tail;
      AtStep(bytes, i, ['"'], tail);
    } else {
      UnitsTextCons(units[n..]);
      assert units[n..][1..] == units[n + 1..];
      var rest := UnitsText(units[n + 1..]) + (['"'] + tail);
      assert UnitsText(units[n..]) + (['"'] + tail) == UnitText(units[n]) + rest;
      UnitStarts(bytes, i, units[n], rest);
    }
  }

  // ------------------------------------------------------------------------ numbers

  predicate NoDigit(rest: string) {
    rest == "" || !IsDigit(rest[0])
  }

  predicate NoFraction(rest: string) {
    NoDigit(rest) && (rest != "" ==> rest[0] != '.')
  }

  predicate NoExponent(rest: string) {
    NoFraction(rest) && (rest != "" ==> rest[0] != 'e' && rest[0] != 'E')
  }

  /** Reading digits as far as they go reads exactly the digits ahead. */
  lemma {:induction false} DigitsAhead(bytes: string, a: nat, b: nat, digits: string, ahead: string, rest: string)
    requires At(bytes, a, ahead + rest) && AllDigits(ahead) && NoDigit(rest)
    requires Slice(bytes, a, b, digits) && AllDigits(digits) && (b < |bytes| ==> !IsDigit(bytes[b]))
    ensures digits == ahead && At(bytes, b, rest)
  {
    AtStep(bytes, a, ahead, rest);
    var c := a + |ahead|;
    AtFirst(bytes, c, rest);
    assert forall k :: a <= k < c ==> bytes[k] == bytes[a..c][k - a];
    assert forall k :: a <= k < b ==> bytes[k] == bytes[a..b][k - a];
    assert b == c;
  }

  predicate WholeAhead(bytes: string, i: nat, whole: string, rest: string) {
    && (whole == "0" || (Digits(whole) && whole[0] != '0'))
    && At(bytes, i, whole + rest) && NoDigit(rest)
  }

  predicate ValidFraction(fraction: string) {
    fraction == "" || (|fraction| > 1 && fraction[0] == '.' && Digits(fraction[1..]))
  }

  predicate FractionAhead(bytes: string, i: nat, fraction: string, rest: string) {
    ValidFraction(fraction) && At(bytes, i, fraction + rest) && NoFraction(rest)
  }

  predicate ExponentAhead(bytes: string, i: nat, exponent: string, rest: string) {
    ValidExponent(exponent) && At(bytes, i, exponent + rest) && NoExponent(rest)
  }

  predicate NumberAhead(bytes: string, i: nat, p: Parts, tail: string) {
    ValidNumber(p) && Ends(tail) && At(bytes, i, NumberText(p) + tail)
  }

  /** The parts of the number ahead, one after the other. */
  lemma {:induction false} NumberStarts(bytes: string, i: nat, p: Parts, tail: string)
    requires NumberAhead(bytes, i, p, tail)
    ensures i < |bytes| && (bytes[i] == '-' <==> p.minus == "-")
    ensures WholeAhead(bytes, i + |p.minus|, p.whole, p.fraction + (p.exponent + tail))
    ensures ValidFraction(p.fraction) && NoFraction(p.exponent + tail)
    ensures ValidExponent(p.exponent) && NoExponent(tail)
  {
    var rest := p.fraction + (p.exponent + tail);
    assert NumberText(p) + tail == p.minus + (p.whole + rest);
    AtStep(bytes, i, p.minus, p.whole + rest);
    AtFirst(bytes, i, p.minus + (p.whole + rest));
  }

  /** The first byte of the whole part, and what is behind it. */
  lemma {:induction false} WholeStarts(bytes: string, i: nat, whole: string, rest: string)
    requires WholeAhead(bytes, i, whole, rest)
    ensures i < |bytes| && IsDigit(bytes[i]) && whole == [bytes[i]] + whole[1..]
    ensures At(bytes, i + 1, whole[1..] + rest) && AllDigits(whole[1..])
    ensures bytes[i] == '0' ==> whole == "0" && At(bytes, i + 1, rest)
  {
    assert whole + rest == [whole[0]] + (whole[1..] + rest);
    AtStep(bytes, i, [whole[0]], whole[1..] + rest);
    if bytes[i] == '0' {
      assert whole == "0";
      assert whole[1..] + rest == rest;
    }
  }

  lemma {:induction false} FractionStarts(bytes: string, i: nat, fraction: string, rest: string)
    requires FractionAhead(bytes, i, fraction, rest)
    ensures fraction == "" <==> i == |bytes| || bytes[i] != '.'
    ensures fraction == "" ==> At(bytes, i, rest)
    ensures fraction != "" ==>
      At(bytes, i + 1, fraction[1..] + rest) && Digits(fraction[1..]) && fraction == "." + fraction[1..]
  {
    AtFirst(bytes, i, fraction + rest);
    if fraction == "" {
      assert fraction + rest == rest;
    } else {
      assert fraction + rest == ['.'] + (fraction[1..] + rest);
      AtStep(bytes, i, ['.'], fraction[1..] + rest);
    }
  }

  /** The letter of an exponent and its sign. */
  function ExponentHead(exponent: string): string
    requires ValidExponent(exponent) && exponent != ""
  {
    if exponent[1] == '+' || exponent[1] == '-' then exponent[..2] else exponent[..1]
  }

  lemma {:induction false} ExponentStarts(bytes: string, i: nat, exponent: string, rest: string)
    requires ExponentAhead(bytes, i, exponent, rest)
    ensures exponent == "" <==> i == |bytes| || (bytes[i] != 'e' && bytes[i] != 'E')
    ensures exponent == "" ==> At(bytes, i, rest)
    ensures exponent != "" ==>
      var head := ExponentHead(exponent);
      && |bytes| > i + 1 && (bytes[i + 1] == '+' || bytes[i + 1] == '-' <==> |head| == 2)
      && head == bytes[i..i + |head|] && exponent == head + exponent[|head|..]
      && At(bytes, i + |head|, exponent[|head|..] + rest) && Digits(exponent[|head|..])
  {
    AtFirst(bytes, i, exponent + rest);
    if exponent == "" {
      assert exponent + rest == rest;
    } else {
      var head := ExponentHead(exponent);
      assert bytes[i + 1] == bytes[i..][1] == exponent[1];
      assert exponent + rest == head + (exponent[|head|..] + rest);
      AtStep(bytes, i, head, exponent[|head|..] + rest);
    }
  }

  // ------------------------------------------------------------------------- values

  /** Every string in the derivation is one that the parser's own limits let through. */
  predicate Clean(s: Syntax, isUtf8: string -> bool)
    decreases s
  {
    match s
    case StringLiteral(units) => CleanString(units, isUtf8)
    case Items(_, items) => forall i :: 0 <= i < |items| ==> Clean(items[i].syntax, isUtf8)
    case Members(_, members) => forall i :: 0 <= i < |members| ==> CleanMember(members[i], isUtf8)
    case _ => true
  }

  predicate CleanMember(m: Member, isUtf8: string -> bool)
    decreases m
  {
    CleanString(m.key, isUtf8) && Clean(m.item.syntax, isUtf8)
  }

  /** A value that the parser has counted as its node number `nodes`. */
  predicate TokenAhead(bytes: string, i: nat, nodes: nat, depth: nat, isUtf8: string -> bool, s: Syntax, tail: string) {
    && WellFormed(s, depth) && Clean(s, isUtf8) && Ends(tail)
    && nodes + Nodes(s) <= MAX_NODES + 1
    && At(bytes, i, SyntaxText(s) + tail)
  }

  /** A value behind a gap, not counted yet. */
  predicate ValueAhead(bytes: string, i: nat, nodes: nat, depth: nat, isUtf8: string -> bool, s: Syntax,
                       gap: string, tail: string)
  {
    && IsGap(gap) && WellFormed(s, depth) && Clean(s, isUtf8) && Ends(tail)
    && nodes + Nodes(s) <= MAX_NODES
    && At(bytes, i, gap + (SyntaxText(s) + tail))
  }

  /** The first byte of a value tells what it is. */
  lemma {:induction false} SyntaxFirst(s: Syntax, depth: nat)
    requires WellFormed(s, depth)
    ensures SyntaxText(s) != "" && !IsSpace(SyntaxText(s)[0])
    ensures SyntaxText(s)[0] != ']' && SyntaxText(s)[0] != '}'
    ensures var c := SyntaxText(s)[0];
            && (c == '[' <==> s.Items?) && (c == '{' <==> s.Members?) && (c == '"' <==> s.StringLiteral?)
            && (c == 'n' <==> s.NullLiteral?) && (c == 't' <==> s == BoolLiteral(true))
            && (c == 'f' <==> s == BoolLiteral(false)) && (c == '-' || IsDigit(c) <==> s.NumberLiteral?)
  {
    hide ItemsText, MembersText, UnitsText, WellFormedItem, WellFormedMember;
    if s.NumberLiteral? {
      assert NumberText(s.parts)[0] == if s.parts.minus == "" then s.parts.whole[0] else '-';
    }
  }

  lemma {:induction false} TokenFirst(bytes: string, i: nat, nodes: nat, depth: nat, isUtf8: string -> bool,
        s: Syntax, tail: string)
    requires TokenAhead(bytes, i, nodes, depth, isUtf8, s, tail)
    ensures i < |bytes| && bytes[i] == (SyntaxText(s) + tail)[0] && SyntaxText(s) != "" && bytes[i] == SyntaxText(s)[0]
  {
    hide WellFormed, SyntaxText, Nodes, Clean;
    SyntaxFirst(s, depth);
    AtFirst(bytes, i, SyntaxText(s) + tail);
  }

  /** Past the gap the value itself lies ahead, within the bounds. */
  lemma {:induction false} ValueStarts(bytes: string, a: nat, b: nat, nodes: nat, depth: nat, isUtf8: string -> bool,
        s: Syntax, gap: string, ahead: string, tail: string)
    requires ValueAhead(bytes, a, nodes, depth, isUtf8, s, ahead, tail)
    requires Slice(bytes, a, b, gap) && IsGap(gap) && (b < |bytes| ==> !IsSpace(bytes[b]))
    ensures gap == ahead && TokenAhead(bytes, b, nodes + 1, depth, isUtf8, s, tail)
    ensures depth <= MAX_DEPTH && nodes < MAX_NODES && b < |bytes|
  {
    hide SyntaxText, Nodes, Clean, At, IsGap;
    SyntaxFirst(s, depth);
    NodesArePositive(s);
    GapAhead(bytes, a, b, gap, ahead, SyntaxText(s) + tail);
    TokenFirst(bytes, b, nodes + 1, depth, isUtf8, s, tail);
  }

  lemma {:induction false} NodesArePositive(s: Syntax)
    ensures Nodes(s) >= 1
  {
  }

  /** The scalar that lies ahead. */
  lemma {:induction false} ScalarStarts(bytes: string, i: nat, nodes: nat, depth: nat, isUtf8: string -> bool,
        s: Syntax, tail: string)
    requires TokenAhead(bytes, i, nodes, depth, isUtf8, s, tail)
    ensures s.NullLiteral? ==> Slice(bytes, i, i + 4, "null") && At(bytes, i + 4, tail)
    ensures s == BoolLiteral(true) ==> Slice(bytes, i, i + 4, "true") && At(bytes, i + 4, tail)
    ensures s == BoolLiteral(false) ==> Slice(bytes, i, i + 5, "false") && At(bytes, i + 5, tail)
    ensures s.StringLiteral? ==> StringAhead(bytes, i, s.units, tail, isUtf8)
    ensures s.NumberLiteral? ==> NumberAhead(bytes, i, s.parts, tail)
  {
    hide At, Slice, NumberText, StringText;
    if s.NullLiteral? || s.BoolLiteral? {
      AtStep(bytes, i, SyntaxText(s), tail);
    }
  }

  // -------------------------------------------------------------------------- lists

  /** What follows the first element of a list. */
  function ListRest(texts: seq<string>, close: char, tail: string): string
    requires texts != []
  {
    if |texts| == 1 then [close] + tail else [','] + (Join(texts[1..], ',') + ([close] + tail))
  }

  lemma {:induction false} ListStarts(texts: seq<string>, close: char, tail: string)
    requires texts != []
    ensures Join(texts, ',') + ([close] + tail) == texts[0] + ListRest(texts, close, tail)
  {
    if |texts| > 1 {
      var rest := Join(texts[1..], ',');
      assert texts[0] + [','] + rest + ([close] + tail) == texts[0] + ([','] + (rest + ([close] + tail)));
    }
  }

  lemma {:induction false} ListNext(bytes: string, i: nat, texts: seq<string>, close: char, tail: string)
    requires texts != [] && At(bytes, i, ListRest(texts, close, tail))
    ensures i < |bytes|
    ensures |texts| == 1 ==> bytes[i] == close && At(bytes, i + 1, tail)
    ensures |texts| > 1 ==> bytes[i] == ',' && At(bytes, i + 1, Join(texts[1..], ',') + ([close] + tail))
  {
    hide Join;
    if |texts| == 1 {
      AtStep(bytes, i, [close], tail);
    } else {
      AtStep(bytes, i, [','], Join(texts[1..], ',') + ([close] + tail));
    }
  }

  function ItemTexts(items: seq<Item>): (texts: seq<string>)
    ensures |texts| == |items| && forall i :: 0 <= i < |texts| ==> texts[i] == ItemText(items[i])
  {
    seq(|items|, i requires 0 <= i < |items| => ItemText(items[i]))
  }

  function MemberTexts(members: seq<Member>): (texts: seq<string>)
    ensures |texts| == |members| && forall i :: 0 <= i < |texts| ==> texts[i] == MemberText(members[i])
  {
    seq(|members|, i requires 0 <= i < |members| => MemberText(members[i]))
  }

  lemma {:induction false} ItemsTextIsJoin(items: seq<Item>)
    requires items != []
    ensures ItemsText(items) == Join(ItemTexts(items), ',')
  {
    hide ItemText;
    var last := |items| - 1;
    if last > 0 {
      ItemsTextIsJoin(items[..last]);
      assert ItemTexts(items) == ItemTexts(items[..last]) + [ItemText(items[last])];
      JoinSnoc(ItemTexts(items[..last]), ItemText(items[last]), ',');
    }
  }

  lemma {:induction false} MembersTextIsJoin(members: seq<Member>)
    requires members != []
    ensures MembersText(members) == Join(MemberTexts(members), ',')
  {
    hide MemberText;
    var last := |members| - 1;
    if last > 0 {
      MembersTextIsJoin(members[..last]);
      assert MemberTexts(members) == MemberTexts(members[..last]) + [MemberText(members[last])];
      JoinSnoc(MemberTexts(members[..last]), MemberText(members[last]), ',');
    }
  }

  lemma {:induction false} ItemsNodesCons(items: seq<Item>)
    requires items != []
    ensures ItemsNodes(items) == Nodes(items[0].syntax) + ItemsNodes(items[1..])
  {
    hide Nodes;
    var last := |items| - 1;
    if last > 0 {
      ItemsNodesCons(items[..last]);
      assert items[..last][1..] == items[1..][..last - 1];
    } else {
      assert items[..0] == [] && items[1..] == [];
    }
  }

  lemma {:induction false} MembersNodesCons(members: seq<Member>)
    requires members != []
    ensures MembersNodes(members) == Nodes(members[0].item.syntax) + MembersNodes(members[1..])
  {
    hide Nodes;
    var last := |members| - 1;
    if last > 0 {
      MembersNodesCons(members[..last]);
      assert members[..last][1..] == members[1..][..last - 1];
    } else {
      assert members[..0] == [] && members[1..] == [];
    }
  }

  // ----------------------------------------------------------------- items and members

  predicate Stops(rest: string) {
    rest != "" && (rest[0] == ',' || rest[0] == ']' || rest[0] == '}')
  }

  /** An item of which the gap `w` has not been read yet. */
  predicate ItemAhead(bytes: string, i: nat, nodes: nat, depth: nat, isUtf8: string -> bool, item: Item,
                      w: string, rest: string)
  {
    && IsGap(w) && WellFormedItem(item, depth) && Clean(item.syntax, isUtf8) && Stops(rest)
    && nodes + Nodes(item.syntax) <= MAX_NODES
    && At(bytes, i, w + (SyntaxText(item.syntax) + (item.after + rest)))
  }

  lemma {:induction false} ItemStarts(bytes: string, i: nat, nodes: nat, depth: nat, isUtf8: string -> bool,
        item: Item, w: string, rest: string)
    requires ItemAhead(bytes, i, nodes, depth, isUtf8, item, w, rest)
    ensures ValueAhead(bytes, i, nodes, depth, isUtf8, item.syntax, w, item.after + rest)
  {
    hide SyntaxText, Nodes, Clean, At, WellFormed;
  }

  lemma {:induction false} ItemEnds(bytes: string, a: nat, b: nat, nodes: nat, depth: nat, isUtf8: string -> bool,
        item: Item, w: string, rest: string, gap: string)
    requires IsGap(item.after) && Stops(rest) && At(bytes, a, item.after + rest)
    requires Slice(bytes, a, b, gap) && IsGap(gap) && (b < |bytes| ==> !IsSpace(bytes[b]))
    ensures gap == item.after && At(bytes, b, rest)
  {
    hide At, IsGap;
    GapAhead(bytes, a, b, gap, item.after, rest);
  }

  predicate CleanItems(items: seq<Item>, depth: nat, isUtf8: string -> bool) {
    forall i :: 0 <= i < |items| ==> WellFormedItem(items[i], depth) && Clean(items[i].syntax, isUtf8)
  }

  /** The items still to be read, of the first of which the gap `w` has not been read yet. */
  predicate ItemsAhead(bytes: string, i: nat, nodes: nat, depth: nat, isUtf8: string -> bool, items: seq<Item>,
                       w: string, tail: string)
  {
    && items != [] && CleanItems(items, depth, isUtf8) && IsGap(w)
    && nodes + ItemsNodes(items) <= MAX_NODES
    && At(bytes, i, w + (SyntaxText(items[0].syntax) + (items[0].after + ListRest(ItemTexts(items), ']', tail))))
  }

  /** The items from the `n`-th on: of its gap, `pending` has been read and `w` has not. */
  predicate ItemsFrom(bytes: string, i: nat, nodes: nat, depth: nat, isUtf8: string -> bool, all: seq<Item>, n: nat,
                      pending: string, w: string, tail: string)
  {
    n < |all| && pending + w == all[n].before && ItemsAhead(bytes, i, nodes, depth, isUtf8, all[n..], w, tail)
  }

  lemma {:induction false} ListRestStops(texts: seq<string>, close: char, tail: string)
    requires texts != [] && (close == ']' || close == '}')
    ensures Stops(ListRest(texts, close, tail))
  {
    hide Join;
  }

  lemma {:induction false} FirstItem(bytes: string, i: nat, nodes: nat, depth: nat, isUtf8: string -> bool,
        items: seq<Item>, w: string, tail: string)
    requires ItemsAhead(bytes, i, nodes, depth, isUtf8, items, w, tail)
    ensures ItemAhead(bytes, i, nodes, depth, isUtf8, items[0], w, ListRest(ItemTexts(items), ']', tail))
    ensures CleanItems(items, depth, isUtf8) && nodes + ItemsNodes(items) <= MAX_NODES
  {
    hide At, ListRest, SyntaxText, Nodes, Clean, WellFormedItem, ItemTexts, Stops;
    ListRestStops(ItemTexts(items), ']', tail);
    ItemsNodesCons(items);
  }

  /** From all of a list's items to the first one with its gap. */
  lemma {:induction false} ItemsOpen(bytes: string, i: nat, nodes: nat, depth: nat, isUtf8: string -> bool,
        items: seq<Item>, tail: string)
    requires items != [] && CleanItems(items, depth, isUtf8) && nodes + ItemsNodes(items) <= MAX_NODES
    requires At(bytes, i, Join(ItemTexts(items), ',') + ([']'] + tail))
    ensures ItemsAhead(bytes, i, nodes, depth, isUtf8, items, items[0].before, tail)
  {
    hide At, ListRest, SyntaxText, Nodes, Clean, WellFormed, Join;
    var rest := ListRest(ItemTexts(items), ']', tail);
    ListStarts(ItemTexts(items), ']', tail);
    var b, t, a := items[0].before, SyntaxText(items[0].syntax), items[0].after;
    assert b + t + a + rest == b + (t + (a + rest));
    assert WellFormedItem(items[0], depth);
  }

  /** Behind an item: the end of the list, or the next item. */
  lemma {:induction false} NextItem(bytes: string, j: nat, nodes: nat, depth: nat, isUtf8: string -> bool,
        items: seq<Item>, tail: string)
    requires items != [] && CleanItems(items, depth, isUtf8) && nodes + ItemsNodes(items[1..]) <= MAX_NODES
    requires At(bytes, j, ListRest(ItemTexts(items), ']', tail))
    ensures j < |bytes|
    ensures |items| == 1 ==> bytes[j] == ']' && At(bytes, j + 1, tail)
    ensures |items| > 1 ==>
      bytes[j] == ',' && ItemsAhead(bytes, j + 1, nodes, depth, isUtf8, items[1..], items[1].before, tail)
  {
    hide At, ListRest, ItemText, Nodes, Clean, WellFormedItem, Join, ItemsNodes, ItemsAhead;
    ListNext(bytes, j, ItemTexts(items), ']', tail);
    if |items| > 1 {
      assert ItemTexts(items)[1..] == ItemTexts(items[1..]);
      ItemsOpen(bytes, j + 1, nodes, depth, isUtf8, items[1..], tail);
    }
  }

  /** At an opening bracket: the gap of an empty array, or the items. */
  lemma {:induction false} ArrayStarts(bytes: string, i: nat, nodes: nat, depth: nat, isUtf8: string -> bool,
        s: Syntax, tail: string)
    requires s.Items? && TokenAhead(bytes, i, nodes, depth, isUtf8, s, tail)
    ensures i < |bytes| && bytes[i] == '[' && IsGap(s.gap)
    ensures s.items == [] ==> At(bytes, i + 1, s.gap + ([']'] + tail))
    ensures s.items != [] ==>
      ItemsAhead(bytes, i + 1, nodes, depth + 1, isUtf8, s.items, s.items[0].before, tail)
  {
    hide At, ItemText, Nodes, WellFormedItem, Join, ItemsText, ItemsAhead, ItemsNodes;
    var inner := if s.items == [] then s.gap else ItemsText(s.items);
    assert SyntaxText(s) + tail == ['['] + (inner + ([']'] + tail));
    AtStep(bytes, i, ['['], inner + ([']'] + tail));
    assert Nodes(s) == 1 + ItemsNodes(s.items) by { NodesOfItems(s); }
    if s.items != [] {
      ItemsTextIsJoin(s.items);
      ItemsOpen(bytes, i + 1, nodes, depth + 1, isUtf8, s.items, tail);
    }
  }

  lemma {:induction false} NodesOfItems(s: Syntax)
    requires s.Items?
    ensures Nodes(s) == 1 + ItemsNodes(s.items)
  {
  }

  /** The spaces before the first item are its gap. */
  lemma {:induction false} ItemsSpaced(bytes: string, a: nat, b: nat, nodes: nat, depth: nat, isUtf8: string -> bool,
        items: seq<Item>, w: string, tail: string, gap: string)
    requires ItemsAhead(bytes, a, nodes, depth, isUtf8, items, w, tail)
    requires Slice(bytes, a, b, gap) && IsGap(gap) && (b < |bytes| ==> !IsSpace(bytes[b]))
    ensures gap == w && ItemsAhead(bytes, b, nodes, depth, isUtf8, items, "", tail)
    ensures b < |bytes| && bytes[b] != ']'
  {
    hide At, ListRest, SyntaxText, Nodes, Clean, WellFormed, ItemsNodes, ItemTexts;
    var text := SyntaxText(items[0].syntax);
    var rest := text + (items[0].after + ListRest(ItemTexts(items), ']', tail));
    SyntaxFirst(items[0].syntax, depth);
    GapAhead(bytes, a, b, gap, w, rest);
    AtFirst(bytes, b, rest);
    assert "" + rest == rest;
  }

  /** What follows the key of a member. */
  function AfterKey(m: Member, rest: string): string {
    m.gap + ([':'] + (ItemText(m.item) + rest))
  }

  /** A member of which the gap `w` has not been read yet. */
  predicate MemberAhead(bytes: string, i: nat, nodes: nat, depth: nat, isUtf8: string -> bool, m: Member,
                        w: string, rest: string)
  {
    && IsGap(w) && WellFormedMember(m, depth) && CleanMember(m, isUtf8) && Stops(rest)
    && nodes + Nodes(m.item.syntax) <= MAX_NODES
    && At(bytes, i, w + (StringText(m.key) + AfterKey(m, rest)))
  }

  lemma {:induction false} MemberStarts(bytes: string, a: nat, b: nat, nodes: nat, depth: nat, isUtf8: string -> bool,
        m: Member, w: string, rest: string, gap: string)
    requires MemberAhead(bytes, a, nodes, depth, isUtf8, m, w, rest)
    requires Slice(bytes, a, b, gap) && IsGap(gap) && (b < |bytes| ==> !IsSpace(bytes[b]))
    ensures gap == w && StringAhead(bytes, b, m.key, AfterKey(m, rest), isUtf8)
  {
    hide At, AfterKey, Nodes, Clean, WellFormedMember, UnitsText, CleanString;
    GapAhead(bytes, a, b, gap, w, StringText(m.key) + AfterKey(m, rest));
  }

  lemma {:induction false} KeyEnds(bytes: string, c: nat, d: nat, nodes: nat, depth: nat, isUtf8: string -> bool,
        m: Member, rest: string, gap: string)
    requires WellFormedMember(m, depth) && CleanMember(m, isUtf8) && Stops(rest)
    requires nodes + Nodes(m.item.syntax) <= MAX_NODES && At(bytes, c, AfterKey(m, rest))
    requires Slice(bytes, c, d, gap) && IsGap(gap) && (d < |bytes| ==> !IsSpace(bytes[d]))
    ensures gap == m.gap && d < |bytes| && bytes[d] == ':'
    ensures ItemAhead(bytes, d + 1, nodes, depth, isUtf8, m.item, m.item.before, rest)
  {
    hide At, Nodes, Clean, WellFormed, CleanString, SyntaxText, IsGap;
    var item := ItemText(m.item) + rest;
    GapAhead(bytes, c, d, gap, m.gap, [':'] + item);
    AtFirst(bytes, d, [':'] + item);
    AtStep(bytes, d, [':'], item);
    var b, t, a := m.item.before, SyntaxText(m.item.syntax), m.item.after;
    assert b + t + a + rest == b + (t + (a + rest));
    assert WellFormedItem(m.item, depth);
  }

  predicate CleanMembers(members: seq<Member>, depth: nat, isUtf8: string -> bool) {
    forall i :: 0 <= i < |members| ==> WellFormedMember(members[i], depth) && CleanMember(members[i], isUtf8)
  }

  /** The members still to be read, of the first of which the gap `w` has not been read yet. */
  predicate MembersAhead(bytes: string, i: nat, nodes: nat, depth: nat, isUtf8: string -> bool, members: seq<Member>,
                         w: string, tail: string)
  {
    && members != [] && CleanMembers(members, depth, isUtf8) && IsGap(w)
    && nodes + MembersNodes(members) <= MAX_NODES
    && At(bytes, i, w + (StringText(members[0].key) + AfterKey(members[0], ListRest(MemberTexts(members), '}', tail))))
  }

  /** The members from the `n`-th on: of its gap, `pending` has been read and `w` has not. */
  predicate MembersFrom(bytes: string, i: nat, nodes: nat, depth: nat, isUtf8: string -> bool, all: seq<Member>, n: nat,
                        pending: string, w: string, tail: string)
  {
    n < |all| && pending + w == all[n].before && MembersAhead(bytes, i, nodes, depth, isUtf8, all[n..], w, tail)
  }

  lemma {:induction false} FirstMember(bytes: string, i: nat, nodes: nat, depth: nat, isUtf8: string -> bool,
        members: seq<Member>, w: string, tail: string)
    requires MembersAhead(bytes, i, nodes, depth, isUtf8, members, w, tail)
    ensures MemberAhead(bytes, i, nodes, depth, isUtf8, members[0], w, ListRest(MemberTexts(members), '}', tail))
    ensures CleanMembers(members, depth, isUtf8) && nodes + MembersNodes(members) <= MAX_NODES
  {
    hide At, ListRest, StringText, Nodes, CleanMember, WellFormedMember, MemberTexts, Stops, AfterKey;
    ListRestStops(MemberTexts(members), '}', tail);
    MembersNodesCons(members);
  }

  lemma {:induction false} MembersOpen(bytes: string, i: nat, nodes: nat, depth: nat, isUtf8: string -> bool,
        members: seq<Member>, tail: string)
    requires members != [] && CleanMembers(members, depth, isUtf8) && nodes + MembersNodes(members) <= MAX_NODES
    requires At(bytes, i, Join(MemberTexts(members), ',') + (['}'] + tail))
    ensures MembersAhead(bytes, i, nodes, depth, isUtf8, members, members[0].before, tail)
  {
    hide At, ListRest, StringText, Nodes, CleanMember, Join, ItemText, WellFormedItem, ValidUnits;
    var rest := ListRest(MemberTexts(members), '}', tail);
    ListStarts(MemberTexts(members), '}', tail);
    var m := members[0];
    var b, k, g, t := m.before, StringText(m.key), m.gap, ItemText(m.item);
    assert b + k + g + [':'] + t + rest == b + (k + (g + ([':'] + (t + rest))));
    assert WellFormedMember(m, depth);
  }

  lemma {:induction false} NextMember(bytes: string, j: nat, nodes: nat, depth: nat, isUtf8: string -> bool,
        members: seq<Member>, tail: string)
    requires members != [] && CleanMembers(members, depth, isUtf8) && nodes + MembersNodes(members[1..]) <= MAX_NODES
    requires At(bytes, j, ListRest(MemberTexts(members), '}', tail))
    ensures j < |bytes|
    ensures |members| == 1 ==> bytes[j] == '}' && At(bytes, j + 1, tail)
    ensures |members| > 1 ==>
      bytes[j] == ',' && MembersAhead(bytes, j + 1, nodes, depth, isUtf8, members[1..], members[1].before, tail)
  {
    hide At, ListRest, MemberText, Nodes, CleanMember, WellFormedMember, Join, MembersNodes, MembersAhead;
    ListNext(bytes, j, MemberTexts(members), '}', tail);
    if |members| > 1 {
      assert MemberTexts(members)[1..] == MemberTexts(members[1..]);
      MembersOpen(bytes, j + 1, nodes, depth, isUtf8, members[1..], tail);
    }
  }

  lemma {:induction false} NodesOfMembers(s: Syntax)
    requires s.Members?
    ensures Nodes(s) == 1 + MembersNodes(s.members)
  {
  }

  /** At an opening brace: the gap of an empty object, or the members. */
  lemma {:induction false} ObjectStarts(bytes: string, i: nat, nodes: nat, depth: nat, isUtf8: string -> bool,
        s: Syntax, tail: string)
    requires s.Members? && TokenAhead(bytes, i, nodes, depth, isUtf8, s, tail)
    ensures i < |bytes| && bytes[i] == '{' && IsGap(s.gap) && DistinctKeys(s.members)
    ensures s.members == [] ==> At(bytes, i + 1, s.gap + (['}'] + tail))
    ensures s.members != [] ==>
      MembersAhead(bytes, i + 1, nodes, depth + 1, isUtf8, s.members, s.members[0].before, tail)
  {
    hide At, MemberText, Nodes, WellFormedMember, Join, MembersText, MembersAhead, MembersNodes, CleanMember;
    var inner := if s.members == [] then s.gap else MembersText(s.members);
    assert SyntaxText(s) + tail == ['{'] + (inner + (['}'] + tail));
    AtStep(bytes, i, ['{'], inner + (['}'] + tail));
    NodesOfMembers(s);
    if s.members != [] {
      MembersTextIsJoin(s.members);
      MembersOpen(bytes, i + 1, nodes, depth + 1, isUtf8, s.members, tail);
    }
  }

  /** The spaces before the first member are its gap. */
  lemma {:induction false} MembersSpaced(bytes: string, a: nat, b: nat, nodes: nat, depth: nat,
        isUtf8: string -> bool, members: seq<Member>, w: string, tail: string, gap: string)
    requires MembersAhead(bytes, a, nodes, depth, isUtf8, members, w, tail)
    requires Slice(bytes, a, b, gap) && IsGap(gap) && (b < |bytes| ==> !IsSpace(bytes[b]))
    ensures gap == w && MembersAhead(bytes, b, nodes, depth, isUtf8, members, "", tail)
    ensures b < |bytes| && bytes[b] != '}'
  {
    hide At, ListRest, Nodes, CleanMember, WellFormedMember, MembersNodes, MemberTexts, AfterKey, UnitsText;
    var rest := StringText(members[0].key) + AfterKey(members[0], ListRest(MemberTexts(members), '}', tail));
    GapAhead(bytes, a, b, gap, w, rest);
    AtFirst(bytes, b, rest);
    assert "" + rest == rest;
  }

  /** The next key of an object is new among those before it. */
  lemma {:induction false} NextKeyIsNew(all: seq<Member>, done: seq<Member>, depth: nat)
    requires DistinctKeys(all) && done <= all && |done| < |all|
    requires forall i :: 0 <= i < |done| ==> WellFormedMember(done[i], depth)
    ensures ValidUnits(all[|done|].key) && UnitsBytes(all[|done|].key) !in MembersValue(done, depth)
  {
    hide UnitsBytes, MembersValue, WellFormed;
    KeysOfMembers(done, depth, UnitsBytes(all[|done|].key));
  }

  /** Once the `n`-th item has been read, the array ends or the next item lies ahead. */
  lemma {:induction false} ItemIsBehind(bytes: string, j: nat, counted: nat, nodes: nat, depth: nat,
        isUtf8: string -> bool, all: seq<Item>, n: nat, tail: string)
    requires n < |all| && CleanItems(all[n..], depth, isUtf8) && counted + ItemsNodes(all[n..]) <= MAX_NODES
    requires nodes == counted + Nodes(all[n].syntax) && At(bytes, j, ListRest(ItemTexts(all[n..]), ']', tail))
    ensures j < |bytes| && all[..n + 1] == all[..n] + [all[n]]
    ensures n + 1 == |all| ==> bytes[j] == ']' && At(bytes, j + 1, tail) && all[..n + 1] == all
    ensures n + 1 < |all| ==>
      && bytes[j] == ',' && CleanItems(all[n + 1..], depth, isUtf8) && nodes + ItemsNodes(all[n + 1..]) <= MAX_NODES
      && ItemsAhead(bytes, j + 1, nodes, depth, isUtf8, all[n + 1..], all[n + 1].before, tail)
  {
    hide At, ListRest, ItemText, Nodes, Clean, WellFormedItem, ItemTexts, ItemsNodes;
    ItemsNodesCons(all[n..]);
    assert all[n..][1..] == all[n + 1..];
    NextItem(bytes, j, nodes, depth, isUtf8, all[n..], tail);
  }

  lemma {:induction false} MemberIsBehind(bytes: string, j: nat, counted: nat, nodes: nat, depth: nat,
        isUtf8: string -> bool, all: seq<Member>, n: nat, tail: string)
    requires n < |all| && CleanMembers(all[n..], depth, isUtf8) && counted + MembersNodes(all[n..]) <= MAX_NODES
    requires nodes == counted + Nodes(all[n].item.syntax)
    requires At(bytes, j, ListRest(MemberTexts(all[n..]), '}', tail))
    ensures j < |bytes| && all[..n + 1] == all[..n] + [all[n]]
    ensures n + 1 == |all| ==> bytes[j] == '}' && At(bytes, j + 1, tail) && all[..n + 1] == all
    ensures n + 1 < |all| ==>
      && bytes[j] == ',' && CleanMembers(all[n + 1..], depth, isUtf8)
      && nodes + MembersNodes(all[n + 1..]) <= MAX_NODES
      && MembersAhead(bytes, j + 1, nodes, depth, isUtf8, all[n + 1..], all[n + 1].before, tail)
  {
    hide At, ListRest, MemberText, Nodes, CleanMember, WellFormedMember, MemberTexts, MembersNodes;
    MembersNodesCons(all[n..]);
    assert all[n..][1..] == all[n + 1..];
    NextMember(bytes, j, nodes, depth, isUtf8, all[n..], tail);
  }
}
