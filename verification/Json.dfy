/** The bounded JSON parser: what it returns always has a derivation whose text is exactly the
    bytes it consumed, and every derivation within the bounds is accepted with its value. */
module Json {
  import opened Text
  import opened JsonGrammar
  import opened JsonAhead

  lemma {:induction false} EscapeText(u: Unit, rest: string)
    requires !u.Plain?
    requires rest == EscapeRest(u)
    ensures UnitText(u) == "\\" + rest
  {
  }

  lemma {:induction false} ScalarFits(digits: string)
    ensures Scalar(digits).Some? ==> Scalar(digits).value <= 0xFFFF
  {
  }

  // ------------------------------------------------------------------------ the parser

  class Parser {
    const bytes: string
    const isUtf8: string -> bool      // the check of `String::from_utf8`
    var index: nat
    var nodes: nat

    constructor (bytes: string, isUtf8: string -> bool)
      ensures this.bytes == bytes && this.isUtf8 == isUtf8 && index == 0 && nodes == 0
    {
      this.bytes, this.isUtf8 := bytes, isUtf8;
      index, nodes := 0, 0;
    }

    predicate Valid()
      reads this
    {
      index <= |bytes|
    }

    predicate Sees(c: char)
      reads this
    {
      index < |bytes| && bytes[index] == c
    }

    method Whitespace() returns (ghost gap: string)
      requires Valid()
      modifies this`index
      ensures Valid() && Slice(bytes, old(index), index, gap) && IsGap(gap)
      ensures index < |bytes| ==> !IsSpace(bytes[index])
    {
      while index < |bytes| && IsSpace(bytes[index])
        invariant old(index) <= index <= |bytes|
        invariant forall i :: old(index) <= i < index ==> IsSpace(bytes[i])
      {
        index := index + 1;
      }
      gap := bytes[old(index)..index];
    }

    method SkipDigits() returns (ghost digits: string)
      requires Valid()
      modifies this`index
      ensures Valid() && Slice(bytes, old(index), index, digits) && AllDigits(digits)
      ensures index < |bytes| ==> !IsDigit(bytes[index])
    {
      while index < |bytes| && IsDigit(bytes[index])
        invariant old(index) <= index <= |bytes|
        invariant forall i :: old(index) <= i < index ==> IsDigit(bytes[i])
      {
        index := index + 1;
      }
      digits := bytes[old(index)..index];
    }

    method Literal(literal: string) returns (ok: bool)
      requires Valid()
      modifies this`index
      ensures Valid() && ok == Slice(bytes, old(index), old(index) + |literal|, literal)
      ensures index == old(index) + if ok then |literal| else 0
    {
      if index + |literal| > |bytes| || bytes[index..index + |literal|] != literal {
        return false;
      }
      index := index + |literal|;
      return true;
    }

    /** One byte or escape after the opening quote. */
    method StringUnit(ghost want: Option<Unit>, ghost tail: string)
      returns (result: Option<string>, ghost u: Unit)
      requires Valid() && index < |bytes| && bytes[index] != '"'
      requires want.Some? ==> UnitAhead(bytes, index, want.value, tail)
      modifies this`index
      ensures Valid() && index > old(index)
      ensures result.Some? ==>
        ValidUnit(u) && result.value == UnitBytes(u) && Slice(bytes, old(index), index, UnitText(u))
      ensures want.Some? ==> result.Some? && want == Some(u) && At(bytes, index, tail)
    {
      hide Scalar, ShortEscape, Encode, At;
      if want.Some? {
        UnitStarts(bytes, index, want.value, tail);
      }
      u := Plain(bytes[index]);
      var c := bytes[index];
      SliceOne(bytes, index);
      index := index + 1;
      if c as int < 0x20 {
        return None, u;
      }
      if c != '\\' {
        return Some([c]), u;
      }
      hide ValidUnit, UnitBytes;
      ghost var rest;
      result, u, rest := EscapeUnit(want, tail);
      if result.Some? {
        SliceJoin(bytes, old(index), old(index) + 1, index, "\\", rest);
        EscapeText(u, rest);
      }
    }

    /** What follows the backslash of an escape. */
    method EscapeUnit(ghost want: Option<Unit>, ghost tail: string)
      returns (result: Option<string>, ghost u: Unit, ghost rest: string)
      requires Valid() && (want.Some? ==> EscapeAhead(bytes, index, want.value, tail))
      modifies this`index
      ensures Valid() && index >= old(index)
      ensures result.Some? ==>
        && !u.Plain? && ValidUnit(u) && result.value == UnitBytes(u) && Slice(bytes, old(index), index, rest)
        && rest == EscapeRest(u)
      ensures want.Some? ==> result.Some? && want == Some(u) && At(bytes, index, tail)
    {
      hide Scalar, ShortEscape, Encode, At;
      if want.Some? {
        EscapeStarts(bytes, index, want.value, tail);
      }
      u, rest := Plain(' '), "";
      if index == |bytes| {
        return None, u, rest;
      }
      var escaped := bytes[index];
      SliceOne(bytes, index);
      index := index + 1;
      if escaped != 'u' {
        u, rest := Escaped(escaped), [escaped];
        if ShortEscape(escaped).None? {
          return None, u, rest;
        }
        return Some([ShortEscape(escaped).value]), u, rest;
      }
      if index + 4 > |bytes| {
        return None, u, rest;
      }
      var digits := bytes[index..index + 4];
      if Scalar(digits).None? {
        return None, u, rest;
      }
      SliceJoin(bytes, old(index), index, index + 4, "u", digits);
      index := index + 4;
      u, rest := CodePoint(digits), "u" + digits;
      ScalarFits(digits);
      return Some(Encode(Scalar(digits).value)), u, rest;
    }

    method ParseString(ghost want: Option<seq<Unit>>, ghost tail: string)
      returns (result: Option<string>, ghost units: seq<Unit>)
      requires Valid() && (want.Some? ==> StringAhead(bytes, index, want.value, tail, isUtf8))
      modifies this`index
      ensures Valid() && index >= old(index)
      ensures result.Some? ==>
        && index > old(index) && ValidUnits(units) && result.value == UnitsBytes(units)
        && Slice(bytes, old(index), index, StringText(units)) && CleanString(units, isUtf8)
      ensures want.Some? ==> result.Some? && want == Some(units) && At(bytes, index, tail)
    {
      hide ValidUnit, UnitText, UnitBytes, At;
      if want.Some? {
        StringStarts(bytes, index, want.value, tail, isUtf8);
      }
      units := [];
      if !Sees('"') {
        return None, units;
      }
      SliceOne(bytes, index);
      index := index + 1;
      var output := "";
      ghost var first := index;
      while index < |bytes| && bytes[index] != '"'
        invariant first <= index <= |bytes|
        invariant ValidUnits(units) && output == UnitsBytes(units) && |output| <= MAX_STRING
        invariant Slice(bytes, first, index, UnitsText(units))
        invariant want.Some? ==>
          |units| <= |want.value| && units == want.value[..|units|]
          && UnitsAhead(bytes, index, want.value, |units|, tail)
        decreases |bytes| - index
      {
        ghost var from, n := index, |units|;
        var piece;
        ghost var u, next, rest := Plain(' '), None, "";
        if want.Some? {
          UnitsNext(bytes, index, want.value, n, tail);
          next, rest := Some(want.value[n]), UnitsText(want.value[n + 1..]) + (['"'] + tail);
          UnitsBytesGrow(want.value, n + 1);
        }
        piece, u := StringUnit(next, rest);
        if piece.None? {
          return None, units;
        }
        SliceJoin(bytes, first, from, index, UnitsText(units), UnitText(u));
        UnitsGrow(units, u);
        units := units + [u];
        output := output + piece.value;
        assert want.Some? ==> units == want.value[..n + 1];
        if |output| > MAX_STRING {
          return None, units;
        }
      }
      if want.Some? {
        UnitsNext(bytes, index, want.value, |units|, tail);
        assert want.value[..|want.value|] == want.value;
      }
      if index == |bytes| {
        return None, units;
      }
      SliceOne(bytes, index);
      SliceJoin(bytes, first - 1, first, index, ['"'], UnitsText(units));
      SliceJoin(bytes, first - 1, index, index + 1, ['"'] + UnitsText(units), ['"']);
      index := index + 1;
      if !isUtf8(output) {
        return None, units;
      }
      return Some(output), units;
    }

    /** The fraction of a number, if there is one. */
    method ParseFraction(ghost want: Option<string>, ghost rest: string) returns (ok: bool, ghost fraction: string)
      requires Valid() && (want.Some? ==> FractionAhead(bytes, index, want.value, rest))
      modifies this`index
      ensures Valid() && index >= old(index)
      ensures ok ==> Slice(bytes, old(index), index, fraction) && ValidFraction(fraction)
      ensures want.Some? ==> ok && want == Some(fraction) && At(bytes, index, rest)
    {
      hide At;
      if want.Some? {
        FractionStarts(bytes, index, want.value, rest);
      }
      fraction := "";
      if Sees('.') {
        SliceOne(bytes, index);
        index := index + 1;
        var from := index;
        ghost var digits;
        digits := SkipDigits();
        SliceJoin(bytes, old(index), from, index, ".", digits);
        if want.Some? {
          DigitsAhead(bytes, from, index, digits, want.value[1..], rest);
        }
        fraction := "." + digits;
        assert fraction[1..] == digits;
        return index != from, fraction;
      }
      ok := true;
    }

    /** The exponent of a number, if there is one. */
    method ParseExponent(ghost want: Option<string>, ghost rest: string) returns (ok: bool, ghost exponent: string)
      requires Valid() && (want.Some? ==> ExponentAhead(bytes, index, want.value, rest))
      modifies this`index
      ensures Valid() && index >= old(index)
      ensures ok ==> Slice(bytes, old(index), index, exponent) && ValidExponent(exponent)
      ensures want.Some? ==> ok && want == Some(exponent) && At(bytes, index, rest)
    {
      hide At;
      if want.Some? {
        ExponentStarts(bytes, index, want.value, rest);
      }
      exponent := "";
      if Sees('e') || Sees('E') {
        ghost var head := [bytes[index]];
        SliceOne(bytes, index);
        index := index + 1;
        if Sees('+') || Sees('-') {
          SliceOne(bytes, index);
          SliceJoin(bytes, old(index), index, index + 1, head, [bytes[index]]);
          head := head + [bytes[index]];
          index := index + 1;
        }
        var from := index;
        ghost var digits;
        digits := SkipDigits();
        SliceJoin(bytes, old(index), from, index, head, digits);
        if want.Some? {
          assert head == ExponentHead(want.value);
          DigitsAhead(bytes, from, index, digits, want.value[|head|..], rest);
        }
        exponent := head + digits;
        assert exponent[|head|..] == digits;
        return index != from, exponent;
      }
      ok := true;
    }

    method ParseNumber(ghost want: Option<Parts>, ghost tail: string)
      returns (result: Option<string>, ghost parts: Parts)
      requires Valid() && (want.Some? ==> NumberAhead(bytes, index, want.value, tail))
      modifies this`index
      ensures Valid() && index >= old(index)
      ensures result.Some? ==>
        && index > old(index) && ValidNumber(parts) && result.value == NumberText(parts)
        && Slice(bytes, old(index), index, NumberText(parts))
      ensures want.Some? ==> result.Some? && want == Some(parts) && At(bytes, index, tail)
    {
      hide ValidExponent, Digits, AllDigits, At, NoExponent, NoFraction;
      var start := index;
      parts := Parts("", "", "", "");
      ghost var wanted, rests := (None, None, None), ("", "");
      if want.Some? {
        NumberStarts(bytes, index, want.value, tail);
        wanted := (Some(want.value.whole), Some(want.value.fraction), Some(want.value.exponent));
        rests := (want.value.fraction + (want.value.exponent + tail), want.value.exponent + tail);
      }
      hide NumberAhead;
      var ok: bool;
      ghost var piece: string;
      if Sees('-') {
        SliceOne(bytes, index);
        parts := parts.(minus := "-");
        index := index + 1;
      }
      ghost var from := index;
      ok, piece := ParseWhole(wanted.0, rests.0);
      if !ok {
        return None, parts;
      }
      parts := parts.(whole := piece);
      SliceJoin(bytes, start, from, index, parts.minus, piece);
      from := index;
      ok, piece := ParseFraction(wanted.1, rests.1);
      if !ok {
        return None, parts;
      }
      parts := parts.(fraction := piece);
      SliceJoin(bytes, start, from, index, parts.minus + parts.whole, piece);
      from := index;
      ok, piece := ParseExponent(wanted.2, tail);
      if !ok {
        return None, parts;
      }
      parts := parts.(exponent := piece);
      SliceJoin(bytes, start, from, index, parts.minus + parts.whole + parts.fraction, piece);
      return Some(bytes[start..index]), parts;
    }

    method ParseWhole(ghost want: Option<string>, ghost rest: string) returns (ok: bool, ghost whole: string)
      requires Valid() && (want.Some? ==> WholeAhead(bytes, index, want.value, rest))
      modifies this`index
      ensures Valid() && index >= old(index)
      ensures ok ==> index > old(index) && Slice(bytes, old(index), index, whole)
                     && (whole == "0" || (Digits(whole) && whole[0] != '0'))
      ensures want.Some? ==> ok && want == Some(whole) && At(bytes, index, rest)
    {
      hide At;
      if want.Some? {
        WholeStarts(bytes, index, want.value, rest);
      }
      whole := "";
      if index == |bytes| || !IsDigit(bytes[index]) {
        return false, whole;
      }
      SliceOne(bytes, index);
      var first := bytes[index];
      whole := [first];
      index := index + 1;
      if first != '0' {
        ghost var digits;
        digits := SkipDigits();
        SliceJoin(bytes, old(index), old(index) + 1, index, whole, digits);
        if want.Some? {
          DigitsAhead(bytes, old(index) + 1, index, digits, want.value[1..], rest);
        }
        whole := whole + digits;
      }
      ok := true;
    }

    // ----------------------------------------------------------- values inside values

    /** `value`: counts the node, checks the bounds, and reads one value. */
    method ParseValue(depth: nat, ghost want: Option<Syntax>, ghost gap: string, ghost tail: string)
      returns (result: Option<Value>, ghost before: string, ghost syntax: Syntax)
      requires Valid()
      requires want.Some? ==> ValueAhead(bytes, index, nodes, depth, isUtf8, want.value, gap, tail)
      modifies this`index, this`nodes
      ensures Valid() && index >= old(index)
      ensures result.Some? ==>
        && index > old(index) && IsGap(before) && WellFormed(syntax, depth)
        && Slice(bytes, old(index), index, before + SyntaxText(syntax))
        && result.value == ValueOf(syntax, depth) && Clean(syntax, isUtf8)
        && nodes == old(nodes) + Nodes(syntax) <= MAX_NODES
      ensures want.Some? ==> result.Some? && want == Some(syntax) && before == gap && At(bytes, index, tail)
      decreases |bytes| - index, 2
    {
      hide WellFormed, ValueOf, SyntaxText, Nodes, At, ValueAhead, TokenAhead;
      syntax := NullLiteral;
      before := Whitespace();
      if want.Some? {
        ValueStarts(bytes, old(index), index, nodes, depth, isUtf8, want.value, before, gap, tail);
      }
      nodes := nodes + 1;
      if depth > MAX_DEPTH || nodes > MAX_NODES || index == |bytes| {
        return None, before, syntax;
      }
      ghost var from := index;
      result, syntax := ParseToken(depth, want, tail);
      if result.Some? {
        SliceJoin(bytes, old(index), from, index, before, SyntaxText(syntax));
      }
    }

    method ParseToken(depth: nat, ghost want: Option<Syntax>, ghost tail: string)
      returns (result: Option<Value>, ghost syntax: Syntax)
      requires Valid() && index < |bytes| && depth <= MAX_DEPTH && 0 < nodes <= MAX_NODES
      requires want.Some? ==> TokenAhead(bytes, index, nodes, depth, isUtf8, want.value, tail)
      modifies this`index, this`nodes
      ensures Valid() && index >= old(index)
      ensures result.Some? ==>
        && index > old(index) && WellFormed(syntax, depth) && Slice(bytes, old(index), index, SyntaxText(syntax))
        && result.value == ValueOf(syntax, depth) && Clean(syntax, isUtf8)
        && nodes + 1 == old(nodes) + Nodes(syntax) && nodes <= MAX_NODES
      ensures want.Some? ==> result.Some? && want == Some(syntax) && At(bytes, index, tail)
      decreases |bytes| - index, 1
    {
      hide WellFormed, ValueOf, SyntaxText, Nodes, At, Clean;
      if want.Some? {
        TokenFirst(bytes, index, nodes, depth, isUtf8, want.value, tail);
        SyntaxFirst(want.value, depth);
      }
      hide TokenAhead;
      var c := bytes[index];
      if c == '[' {
        result, syntax := ParseArray(depth, want, tail);
      } else if c == '{' {
        result, syntax := ParseObject(depth, want, tail);
      } else {
        result, syntax := ParseScalar(depth, want, tail);
      }
    }

    method ParseScalar(depth: nat, ghost want: Option<Syntax>, ghost tail: string)
      returns (result: Option<Value>, ghost syntax: Syntax)
      requires Valid() && index < |bytes| && depth <= MAX_DEPTH && !Sees('[') && !Sees('{')
      requires want.Some? ==> TokenAhead(bytes, index, nodes, depth, isUtf8, want.value, tail)
      modifies this`index
      ensures Valid() && index >= old(index)
      ensures result.Some? ==>
        && index > old(index) && WellFormed(syntax, depth) && Slice(bytes, old(index), index, SyntaxText(syntax))
        && result.value == ValueOf(syntax, depth) && Nodes(syntax) == 1 && Clean(syntax, isUtf8)
      ensures want.Some? ==> result.Some? && want == Some(syntax) && At(bytes, index, tail)
    {
      hide NumberText, ValidNumber, UnitsText, ValidUnits, UnitsBytes, At, CleanString, StringAhead, NumberAhead;
      var ok;
      syntax := NullLiteral;
      ghost var units, parts := None, None;
      if want.Some? {
        TokenFirst(bytes, index, nodes, depth, isUtf8, want.value, tail);
        SyntaxFirst(want.value, depth);
        ScalarStarts(bytes, index, nodes, depth, isUtf8, want.value, tail);
        units := if want.value.StringLiteral? then Some(want.value.units) else None;
        parts := if want.value.NumberLiteral? then Some(want.value.parts) else None;
      }
      hide TokenAhead;
      match bytes[index] {
        case 'n' =>
          ok := Literal("null");
          return if ok then Some(Null) else None, NullLiteral;
        case 't' =>
          ok := Literal("true");
          return if ok then Some(Bool(true)) else None, BoolLiteral(true);
        case 'f' =>
          ok := Literal("false");
          return if ok then Some(Bool(false)) else None, BoolLiteral(false);
        case '"' =>
          var text;
          ghost var read;
          text, read := ParseString(units, tail);
          return if text.Some? then Some(String(text.value)) else None, StringLiteral(read);
        case c =>
          if c != '-' && !IsDigit(c) {
            return None, syntax;
          }
          var text;
          ghost var read;
          text, read := ParseNumber(parts, tail);
          return if text.Some? then Some(Number(text.value)) else None, NumberLiteral(read);
      }
    }

    /** `array`, called at its opening bracket. */
    method ParseArray(depth: nat, ghost want: Option<Syntax>, ghost tail: string)
      returns (result: Option<Value>, ghost syntax: Syntax)
      requires Valid() && Sees('[') && depth <= MAX_DEPTH && nodes <= MAX_NODES
      requires want.Some? ==> want.value.Items? && TokenAhead(bytes, index, nodes, depth, isUtf8, want.value, tail)
      modifies this`index, this`nodes
      ensures Valid() && index >= old(index)
      ensures result.Some? ==>
        && index > old(index) && WellFormed(syntax, depth) && Slice(bytes, old(index), index, SyntaxText(syntax))
        && result.value == ValueOf(syntax, depth) && Clean(syntax, isUtf8)
        && nodes + 1 == old(nodes) + Nodes(syntax) && nodes <= MAX_NODES
      ensures want.Some? ==> result.Some? && want == Some(syntax) && At(bytes, index, tail)
      decreases |bytes| - index, 0
    {
      hide WellFormedItem, ItemText, ItemsText, ItemsValue, ItemsNodes, WellFormed, SyntaxText, ValueOf, Nodes, At,
        TokenAhead, ItemsAhead, ItemsFrom, IsGap;
      if want.Some? {
        ArrayStarts(bytes, index, nodes, depth, isUtf8, want.value, tail);
      }
      var start := index;
      SliceOne(bytes, index);
      index := index + 1;
      ghost var pending: string;
      pending := Whitespace();
      SliceJoin(bytes, start, start + 1, index, ['['], pending);
      if want.Some? {
        ArrayOpened(bytes, start + 1, index, nodes, depth + 1, isUtf8, want.value, pending, tail);
      }
      syntax := Items(pending, []);
      if Sees(']') {
        SliceOne(bytes, index);
        SliceJoin(bytes, start, index, index + 1, ['['] + pending, [']']);
        index := index + 1;
        NoItems(pending, depth);
        return Some(Array([])), syntax;
      }
      result, syntax := ParseItems(depth, start, pending, want, tail);
    }

    /** The items of a non-empty array and its closing bracket. */
    method ParseItems(depth: nat, ghost start: nat, ghost gap: string, ghost want: Option<Syntax>, ghost tail: string)
      returns (result: Option<Value>, ghost syntax: Syntax)
      requires Valid() && depth <= MAX_DEPTH && nodes <= MAX_NODES
      requires start < index && IsGap(gap) && Slice(bytes, start, index, ['['] + gap)
      requires want.Some? ==>
        && want.value.Items? && IsGap(want.value.gap)
        && ItemsFrom(bytes, index, nodes, depth + 1, isUtf8, want.value.items, 0, gap, "", tail)
      modifies this`index, this`nodes
      ensures Valid() && index >= old(index)
      ensures result.Some? ==>
        && WellFormed(syntax, depth) && Slice(bytes, start, index, SyntaxText(syntax))
        && result.value == ValueOf(syntax, depth) && Clean(syntax, isUtf8)
        && nodes + 1 == old(nodes) + Nodes(syntax) && nodes <= MAX_NODES
      ensures want.Some? ==> result.Some? && want == Some(syntax) && At(bytes, index, tail)
      decreases |bytes| - index, 5
    {
      hide WellFormedItem, ItemText, ItemsText, ItemsValue, ItemsNodes, WellFormed, SyntaxText, ValueOf, Nodes, At,
        ItemsFrom, IsGap, ItemsRead, ItemsHead, Slice, Clean;
      ghost var pending, w := gap, "";
      ghost var all: seq<Item> := if want.Some? then want.value.items else [];
      syntax := NullLiteral;
      var values: seq<Value> := [];
      ghost var items: seq<Item> := [];
      EmptyGap();
      NoItemsRead(bytes, start, index, depth + 1, gap);
      while true
        invariant old(index) <= index <= |bytes| && old(nodes) <= nodes <= MAX_NODES
        invariant ItemsRead(bytes, start, index, depth + 1, items, pending, values, nodes - old(nodes))
        invariant forall k :: 0 <= k < |items| ==> Clean(items[k].syntax, isUtf8)
        invariant want.Some? ==>
          items <= all && ItemsFrom(bytes, index, nodes, depth + 1, isUtf8, all, |items|, pending, w, tail)
        decreases |bytes| - index
      {
        var value;
        ghost var item, n, count := Item("", NullLiteral, ""), |items|, nodes - old(nodes);
        ReadSoFar(bytes, start, index, depth + 1, items, pending, values, count);
        value, item := ParseNextItem(depth + 1, start, ItemsHead(items), pending, want.Some?, all, n, w, tail);
        if value.None? {
          return None, syntax;
        }
        if want.Some? {
          OneMore(items, all);
        }
        if Sees(',') {
          ItemRead(bytes, start, index, depth + 1, items, pending, values, count, item, value.value);
          pending, w := "", if want.Some? then all[n + 1].before else "";
        } else if Sees(']') {
          ItemsEnd(bytes, start, index, depth, items, values, count, item, value.value, GapOf(want));
          syntax := Items(GapOf(want), items + [item]);
          CleanArray(syntax, isUtf8);
        } else {
          return None, syntax;
        }
        var more := Sees(',');
        index := index + 1;
        items := items + [item];
        values := values + [value.value];
        if !more {
          return Some(Array(values)), syntax;
        }
      }
    }

    /** The next item of an array; with `wanted`, the `n`-th of `all`. */
    method ParseNextItem(depth: nat, ghost start: nat, ghost head: string, ghost pending: string, ghost wanted: bool,
                         ghost all: seq<Item>, ghost n: nat, ghost w: string, ghost tail: string)
      returns (result: Option<Value>, ghost item: Item)
      requires Valid() && start <= index && IsGap(pending) && Slice(bytes, start, index, head + pending)
      requires wanted ==> ItemsFrom(bytes, index, nodes, depth, isUtf8, all, n, pending, w, tail)
      modifies this`index, this`nodes
      ensures Valid() && index >= old(index)
      ensures result.Some? ==>
        && index > old(index) && WellFormedItem(item, depth) && Slice(bytes, start, index, head + ItemText(item))
        && result.value == ValueOf(item.syntax, depth) && Clean(item.syntax, isUtf8)
        && nodes == old(nodes) + Nodes(item.syntax) <= MAX_NODES
      ensures wanted ==>
        && result.Some? && n < |all| && item == all[n] && index < |bytes|
        && bytes[index] == (if n + 1 == |all| then ']' else ',')
        && (n + 1 == |all| ==> At(bytes, index + 1, tail))
        && (n + 1 < |all| ==>
              ItemsFrom(bytes, index + 1, nodes, depth, isUtf8, all, n + 1, "", all[n + 1].before, tail))
      decreases |bytes| - index, 4
    {
      hide WellFormedItem, ItemText, ValueOf, Nodes, At, ItemsAhead, ItemAhead, ListRest, IsGap, CleanItems, ItemsNodes;
      ghost var next, rest, counted := None, "", nodes;
      if wanted {
        FirstItem(bytes, index, nodes, depth, isUtf8, all[n..], w, tail);
        next, rest := Some(all[n]), ListRest(ItemTexts(all[n..]), ']', tail);
      }
      result, item := ParseItem(depth, start, head, pending, next, w, rest);
      if wanted {
        ItemIsBehind(bytes, index, counted, nodes, depth, isUtf8, all, n, tail);
        assert n + 1 < |all| ==> "" + all[n + 1].before == all[n + 1].before;
      }
    }

    /** One value of an array or an object, and the gap behind it. */
    method ParseItem(depth: nat, ghost start: nat, ghost head: string, ghost pending: string,
                     ghost want: Option<Item>, ghost w: string, ghost rest: string)
      returns (result: Option<Value>, ghost item: Item)
      requires Valid() && start <= index && IsGap(pending) && Slice(bytes, start, index, head + pending)
      requires want.Some? ==>
        pending + w == want.value.before && ItemAhead(bytes, index, nodes, depth, isUtf8, want.value, w, rest)
      modifies this`index, this`nodes
      ensures Valid() && index >= old(index)
      ensures result.Some? ==>
        && index > old(index) && WellFormedItem(item, depth) && Slice(bytes, start, index, head + ItemText(item))
        && result.value == ValueOf(item.syntax, depth) && Clean(item.syntax, isUtf8)
        && nodes == old(nodes) + Nodes(item.syntax) <= MAX_NODES
      ensures want.Some? ==> result.Some? && want == Some(item) && At(bytes, index, rest)
      decreases |bytes| - index, 3
    {
      hide WellFormed, ValueOf, SyntaxText, Nodes, At, ValueAhead, Clean, Stops, IsGap;
      ghost var before, syntax, next, tail := "", NullLiteral, None, "";
      if want.Some? {
        ItemStarts(bytes, index, nodes, depth, isUtf8, want.value, w, rest);
        next, tail := Some(want.value.syntax), want.value.after + rest;
      }
      item := Item("", NullLiteral, "");
      result, before, syntax := ParseValue(depth, next, w, tail);
      if result.None? {
        return;
      }
      ghost var middle, after := index, "";
      after := Whitespace();
      if want.Some? {
        ItemEnds(bytes, middle, index, old(nodes), depth, isUtf8, want.value, w, rest, after);
      }
      item := Item(pending + before, syntax, after);
      GapJoin(pending, before);
      ItemIsRead(bytes, start, old(index), middle, index, head, pending, before, SyntaxText(syntax), after);
    }

    /** `object`, called at its opening brace; a repeated key is refused. */
    method ParseObject(depth: nat, ghost want: Option<Syntax>, ghost tail: string)
      returns (result: Option<Value>, ghost syntax: Syntax)
      requires Valid() && Sees('{') && depth <= MAX_DEPTH && nodes <= MAX_NODES
      requires want.Some? ==> want.value.Members? && TokenAhead(bytes, index, nodes, depth, isUtf8, want.value, tail)
      modifies this`index, this`nodes
      ensures Valid() && index >= old(index)
      ensures result.Some? ==>
        && index > old(index) && WellFormed(syntax, depth) && Slice(bytes, old(index), index, SyntaxText(syntax))
        && result.value == ValueOf(syntax, depth) && Clean(syntax, isUtf8)
        && nodes + 1 == old(nodes) + Nodes(syntax) && nodes <= MAX_NODES
      ensures want.Some? ==> result.Some? && want == Some(syntax) && At(bytes, index, tail)
      decreases |bytes| - index, 0
    {
      hide WellFormedMember, MemberText, MembersText, MembersValue, MembersNodes, WellFormed, SyntaxText, ValueOf,
        Nodes, UnitsBytes, DistinctKeys, At, TokenAhead, MembersAhead, MembersFrom, IsGap;
      if want.Some? {
        ObjectStarts(bytes, index, nodes, depth, isUtf8, want.value, tail);
      }
      var start := index;
      SliceOne(bytes, index);
      index := index + 1;
      ghost var pending: string;
      pending := Whitespace();
      SliceJoin(bytes, start, start + 1, index, ['{'], pending);
      if want.Some? {
        ObjectOpened(bytes, start + 1, index, nodes, depth + 1, isUtf8, want.value, pending, tail);
      }
      syntax := Members(pending, []);
      if Sees('}') {
        SliceOne(bytes, index);
        SliceJoin(bytes, start, index, index + 1, ['{'] + pending, ['}']);
        index := index + 1;
        NoMembers(pending, depth);
        return Some(Object(map[])), syntax;
      }
      result, syntax := ParseMembers(depth, start, pending, want, tail);
    }

    /** The members of a non-empty object and its closing brace. */
    method ParseMembers(depth: nat, ghost start: nat, ghost gap: string, ghost want: Option<Syntax>, ghost tail: string)
      returns (result: Option<Value>, ghost syntax: Syntax)
      requires Valid() && depth <= MAX_DEPTH && nodes <= MAX_NODES
      requires start < index && IsGap(gap) && Slice(bytes, start, index, ['{'] + gap)
      requires want.Some? ==>
        && want.value.Members? && IsGap(want.value.gap) && DistinctKeys(want.value.members)
        && MembersFrom(bytes, index, nodes, depth + 1, isUtf8, want.value.members, 0, gap, "", tail)
      modifies this`index, this`nodes
      ensures Valid() && index >= old(index)
      ensures result.Some? ==>
        && WellFormed(syntax, depth) && Slice(bytes, start, index, SyntaxText(syntax))
        && result.value == ValueOf(syntax, depth) && Clean(syntax, isUtf8)
        && nodes + 1 == old(nodes) + Nodes(syntax) && nodes <= MAX_NODES
      ensures want.Some? ==> result.Some? && want == Some(syntax) && At(bytes, index, tail)
      decreases |bytes| - index, 6
    {
      hide WellFormedMember, MemberText, MembersText, MembersValue, MembersNodes, WellFormed, SyntaxText, ValueOf,
        Nodes, UnitsBytes, DistinctKeys, At, MembersFrom, IsGap, MembersRead, MembersHead, Slice, CleanMember, Clean;
      ghost var pending, w := gap, "";
      ghost var all: seq<Member> := if want.Some? then want.value.members else [];
      syntax := NullLiteral;
      var values: map<string, Value> := map[];
      ghost var members: seq<Member> := [];
      EmptyGap();
      NoMembersRead(bytes, start, index, depth + 1, gap);
      while true
        invariant old(index) <= index <= |bytes| && old(nodes) <= nodes <= MAX_NODES
        invariant MembersRead(bytes, start, index, depth + 1, members, pending, values, nodes - old(nodes))
        invariant forall k :: 0 <= k < |members| ==> CleanMember(members[k], isUtf8)
        invariant want.Some? ==>
          members <= all && MembersFrom(bytes, index, nodes, depth + 1, isUtf8, all, |members|, pending, w, tail)
        decreases |bytes| - index
      {
        var field;
        ghost var m, n, count := Member("", [], "", Item("", NullLiteral, "")), |members|, nodes - old(nodes);
        MembersSoFar(bytes, start, index, depth + 1, members, pending, values, count);
        field, m := ParseNextMember(depth + 1, start, MembersHead(members), pending, want.Some?, all, n, w, tail);
        if want.Some? {
          NextKeyIsNew(all, members, depth + 1);
          OneMore(members, all);
        }
        if field.None? || field.value.0 in values {
          return None, syntax;
        }
        if Sees(',') {
          MemberRead(bytes, start, index, depth + 1, members, pending, values, count, m, field.value.1);
          pending, w := "", if want.Some? then all[n + 1].before else "";
        } else if Sees('}') {
          MembersEnd(bytes, start, index, depth, members, values, count, m, field.value.1, GapOf(want));
          syntax := Members(GapOf(want), members + [m]);
          CleanObject(syntax, isUtf8);
        } else {
          return None, syntax;
        }
        var more := Sees(',');
        index := index + 1;
        members := members + [m];
        values := values[field.value.0 := field.value.1];
        if !more {
          return Some(Object(values)), syntax;
        }
      }
    }

    /** The next member of an object; with `wanted`, the `n`-th of `all`. */
    method ParseNextMember(depth: nat, ghost start: nat, ghost head: string, ghost pending: string, ghost wanted: bool,
                           ghost all: seq<Member>, ghost n: nat, ghost w: string, ghost tail: string)
      returns (result: Option<(string, Value)>, ghost m: Member)
      requires Valid() && start <= index && IsGap(pending) && Slice(bytes, start, index, head + pending)
      requires wanted ==> MembersFrom(bytes, index, nodes, depth, isUtf8, all, n, pending, w, tail)
      modifies this`index, this`nodes
      ensures Valid() && index >= old(index)
      ensures result.Some? ==>
        && index > old(index) && WellFormedMember(m, depth) && WellFormedItem(m.item, depth)
        && Slice(bytes, start, index, head + MemberText(m))
        && result.value == (UnitsBytes(m.key), ValueOf(m.item.syntax, depth)) && CleanMember(m, isUtf8)
        && nodes == old(nodes) + Nodes(m.item.syntax) <= MAX_NODES
      ensures wanted ==>
        && result.Some? && n < |all| && m == all[n] && index < |bytes|
        && bytes[index] == (if n + 1 == |all| then '}' else ',')
        && (n + 1 == |all| ==> At(bytes, index + 1, tail))
        && (n + 1 < |all| ==>
              MembersFrom(bytes, index + 1, nodes, depth, isUtf8, all, n + 1, "", all[n + 1].before, tail))
      decreases |bytes| - index, 5
    {
      hide WellFormed, MemberText, ValueOf, Nodes, At, MembersAhead, MemberAhead, ListRest, IsGap, CleanMembers,
        MembersNodes, UnitsBytes, ValidUnits;
      ghost var next, rest, counted := None, "", nodes;
      if wanted {
        FirstMember(bytes, index, nodes, depth, isUtf8, all[n..], w, tail);
        next, rest := Some(all[n]), ListRest(MemberTexts(all[n..]), '}', tail);
      }
      result, m := ParseMember(depth, start, head, pending, next, w, rest);
      if wanted {
        MemberIsBehind(bytes, index, counted, nodes, depth, isUtf8, all, n, tail);
        assert n + 1 < |all| ==> "" + all[n + 1].before == all[n + 1].before;
      }
    }

    /** One key, its colon and its value, and the gap behind it. */
    method ParseMember(depth: nat, ghost start: nat, ghost head: string, ghost pending: string,
                       ghost want: Option<Member>, ghost w: string, ghost rest: string)
      returns (result: Option<(string, Value)>, ghost m: Member)
      requires Valid() && start <= index && IsGap(pending) && Slice(bytes, start, index, head + pending)
      requires want.Some? ==>
        pending + w == want.value.before && MemberAhead(bytes, index, nodes, depth, isUtf8, want.value, w, rest)
      modifies this`index, this`nodes
      ensures Valid() && index >= old(index)
      ensures result.Some? ==>
        && index > old(index) && WellFormedMember(m, depth) && WellFormedItem(m.item, depth)
        && Slice(bytes, start, index, head + MemberText(m))
        && result.value == (UnitsBytes(m.key), ValueOf(m.item.syntax, depth)) && CleanMember(m, isUtf8)
        && nodes == old(nodes) + Nodes(m.item.syntax) <= MAX_NODES
      ensures want.Some? ==> result.Some? && want == Some(m) && At(bytes, index, rest)
      decreases |bytes| - index, 4
    {
      hide WellFormed, ValueOf, SyntaxText, Nodes, StringText, UnitsBytes, ItemText, ValidUnits, At, CleanMember,
        AfterKey, StringAhead, ItemAhead, IsGap, Stops;
      m := Member("", [], "", Item("", NullLiteral, ""));
      ghost var a, before, units, gap, item := index, "", [], "", m.item;
      var key, value;
      before := Whitespace();
      ghost var b, wantKey, tail, wantItem, itemGap := index, None, "", None, "";
      if want.Some? {
        MemberStarts(bytes, a, b, nodes, depth, isUtf8, want.value, w, rest, before);
        wantKey, tail, wantItem := Some(want.value.key), AfterKey(want.value, rest), Some(want.value.item);
        itemGap := want.value.item.before;
      }
      key, units := ParseString(wantKey, tail);
      if key.None? {
        return None, m;
      }
      ghost var c := index;
      gap := Whitespace();
      if want.Some? {
        KeyEnds(bytes, c, index, nodes, depth, isUtf8, want.value, rest, gap);
      }
      if !Sees(':') {
        return None, m;
      }
      ghost var d := index;
      SliceOne(bytes, d);
      index := index + 1;
      KeyIsRead(bytes, start, a, b, c, d, head, pending, before, StringText(units), gap);
      ghost var keyHead := head + ((pending + before) + StringText(units) + gap + [':']);
      assert keyHead + "" == keyHead;
      assert "" + itemGap == itemGap;
      EmptyGap();
      value, item := ParseItem(depth, start, keyHead, "", wantItem, itemGap, rest);
      if value.None? {
        return None, m;
      }
      m := Member(pending + before, units, gap, item);
      GapJoin(pending, before);
      MemberIsRead(head, m);
      CleanMemberIs(m, isUtf8);
      return Some((key.value, value.value)), m;
    }

    /** `parse`: on success all bytes are consumed, and they are the text of a derivation with at
        most 16384 values, none more than 32 containers deep.  And whatever derivation within the
        bounds the bytes are the text of, they are accepted with its value. */
    method Parse(ghost want: Derivation)
      returns (result: Option<Value>, ghost read: Derivation)
      requires index == 0 && nodes == 0
      modifies this`index, this`nodes
      ensures result.Some? ==>
        Derives(bytes, read) && Clean(read.syntax, isUtf8) && result.value == ValueOf(read.syntax, 0)
      ensures Derives(bytes, want) && Clean(want.syntax, isUtf8) ==>
        result == Some(ValueOf(want.syntax, 0)) && read == want
    {
      hide WellFormed, ValueOf, SyntaxText, Nodes, IsGap, At, ValueAhead, Clean;
      ghost var wanted, tail := None, "";
      if Derives(bytes, want) && Clean(want.syntax, isUtf8) {
        wanted, tail := Some(want.syntax), want.after + "";
        ParseStarts(bytes, isUtf8, want);
      }
      ghost var before, syntax, after;
      after := "";
      result, before, syntax := ParseValue(0, wanted, want.before, tail);
      read := Derivation(before, syntax, after);
      if result.None? {
        return;
      }
      ghost var middle := index;
      after := Whitespace();
      if wanted.Some? {
        GapAhead(bytes, middle, index, after, want.after, "");
        AtFirst(bytes, index, "");
      }
      read := Derivation(before, syntax, after);
      SliceJoin(bytes, 0, middle, index, before + SyntaxText(syntax), after);
      if index != |bytes| {
        return None, read;
      }
      assert bytes[0..|bytes|] == bytes;
    }
  }

  lemma {:induction false} ParseStarts(bytes: string, isUtf8: string -> bool, d: Derivation)
    requires Derives(bytes, d) && Clean(d.syntax, isUtf8)
    ensures ValueAhead(bytes, 0, 0, 0, isUtf8, d.syntax, d.before, d.after + "")
  {
    hide WellFormed, SyntaxText, Nodes, Clean;
    assert bytes[0..] == d.before + (SyntaxText(d.syntax) + (d.after + ""));
  }

  /** Past its opening bracket an array is empty, or its items are next. */
  lemma {:induction false} ArrayOpened(bytes: string, a: nat, b: nat, nodes: nat, depth: nat, isUtf8: string -> bool,
        s: Syntax, gap: string, tail: string)
    requires s.Items? && IsGap(s.gap)
    requires s.items == [] ==> At(bytes, a, s.gap + ([']'] + tail))
    requires s.items != [] ==> ItemsAhead(bytes, a, nodes, depth, isUtf8, s.items, s.items[0].before, tail)
    requires Slice(bytes, a, b, gap) && IsGap(gap) && (b < |bytes| ==> !IsSpace(bytes[b]))
    ensures b < |bytes| && (s.items == [] <==> bytes[b] == ']')
    ensures s.items == [] ==> gap == s.gap && At(bytes, b + 1, tail)
    ensures s.items != [] ==>
      ItemsFrom(bytes, b, nodes, depth, isUtf8, s.items, 0, gap, "", tail)
  {
    hide At, ItemsAhead, IsGap;
    if s.items == [] {
      GapAhead(bytes, a, b, gap, s.gap, [']'] + tail);
      AtFirst(bytes, b, [']'] + tail);
      AtStep(bytes, b, [']'], tail);
    } else {
      ItemsSpaced(bytes, a, b, nodes, depth, isUtf8, s.items, s.items[0].before, tail, gap);
      assert s.items[0..] == s.items && gap + "" == gap;
    }
  }

  lemma {:induction false} ObjectOpened(bytes: string, a: nat, b: nat, nodes: nat, depth: nat, isUtf8: string -> bool,
        s: Syntax, gap: string, tail: string)
    requires s.Members? && IsGap(s.gap)
    requires s.members == [] ==> At(bytes, a, s.gap + (['}'] + tail))
    requires s.members != [] ==> MembersAhead(bytes, a, nodes, depth, isUtf8, s.members, s.members[0].before, tail)
    requires Slice(bytes, a, b, gap) && IsGap(gap) && (b < |bytes| ==> !IsSpace(bytes[b]))
    ensures b < |bytes| && (s.members == [] <==> bytes[b] == '}')
    ensures s.members == [] ==> gap == s.gap && At(bytes, b + 1, tail)
    ensures s.members != [] ==>
      MembersFrom(bytes, b, nodes, depth, isUtf8, s.members, 0, gap, "", tail)
  {
    hide At, MembersAhead, IsGap;
    if s.members == [] {
      GapAhead(bytes, a, b, gap, s.gap, ['}'] + tail);
      AtFirst(bytes, b, ['}'] + tail);
      AtStep(bytes, b, ['}'], tail);
    } else {
      MembersSpaced(bytes, a, b, nodes, depth, isUtf8, s.members, s.members[0].before, tail, gap);
      assert s.members[0..] == s.members && gap + "" == gap;
    }
  }

  lemma {:induction false} OneMore<T>(done: seq<T>, all: seq<T>)
    requires done <= all && |done| < |all|
    ensures done + [all[|done|]] <= all && (|done| + 1 == |all| ==> done + [all[|done|]] == all)
  {
  }

  lemma {:induction false} EmptyGap()
    ensures IsGap("")
  {
  }

  lemma {:induction false} EmptyItems(depth: nat)
    ensures ItemsValue([], depth) == [] && ItemsNodes([]) == 0
  {
  }

  lemma {:induction false} NoItems(gap: string, depth: nat)
    requires depth <= MAX_DEPTH && IsGap(gap)
    ensures var s := Items(gap, []);
            WellFormed(s, depth) && SyntaxText(s) == ['['] + gap + [']'] && ValueOf(s, depth) == Array([])
              && Nodes(s) == 1
  {
  }

  lemma {:induction false} ItemsClosed(gap: string, items: seq<Item>, depth: nat)
    requires items != [] && depth <= MAX_DEPTH && IsGap(gap)
    requires forall i :: 0 <= i < |items| ==> WellFormedItem(items[i], depth + 1)
    ensures var s := Items(gap, items);
            && WellFormed(s, depth) && SyntaxText(s) == ['['] + ItemsText(items) + [']']
            && ValueOf(s, depth) == Array(ItemsValue(items, depth + 1)) && Nodes(s) == 1 + ItemsNodes(items)
  {
    hide WellFormedItem, ItemsText, ItemsValue, ItemsNodes;
  }

  /** What an array's text begins with once the items have been read. */
  function ItemsHead(items: seq<Item>): string {
    ['['] + if items == [] then "" else ItemsText(items) + [',']
  }

  /** The items read so far, their values and their nodes. */
  predicate ItemsRead(bytes: string, start: nat, i: nat, depth: nat, items: seq<Item>, pending: string,
                      values: seq<Value>, count: int)
  {
    && IsGap(pending) && Slice(bytes, start, i, ItemsHead(items) + pending)
    && (forall k :: 0 <= k < |items| ==> WellFormedItem(items[k], depth))
    && values == ItemsValue(items, depth) && count == ItemsNodes(items)
  }

  lemma {:induction false} NoItemsRead(bytes: string, start: nat, i: nat, depth: nat, gap: string)
    requires IsGap(gap) && Slice(bytes, start, i, ['['] + gap)
    ensures ItemsRead(bytes, start, i, depth, [], gap, [], 0)
  {
    EmptyItems(depth);
    assert ['['] + "" == ['['];
  }

  lemma {:induction false} ReadSoFar(bytes: string, start: nat, i: nat, depth: nat, items: seq<Item>, pending: string,
        values: seq<Value>, count: int)
    requires ItemsRead(bytes, start, i, depth, items, pending, values, count)
    ensures IsGap(pending) && Slice(bytes, start, i, ItemsHead(items) + pending) && start <= i
    ensures forall k :: 0 <= k < |items| ==> WellFormedItem(items[k], depth)
    ensures values == ItemsValue(items, depth) && count == ItemsNodes(items)
  {
  }

  lemma {:induction false} HeadGrows(items: seq<Item>, item: Item)
    requires ItemsText(items + [item]) ==
             if items == [] then ItemText(item) else ItemsText(items) + [','] + ItemText(item)
    ensures ItemsHead(items) + ItemText(item) == ['['] + ItemsText(items + [item])
    ensures ItemsHead(items) + ItemText(item) + [','] == ItemsHead(items + [item]) + ""
  {
    hide ItemText, ItemsText;
    if items != [] {
      var t, i := ItemsText(items), ItemText(item);
      assert (['['] + (t + [','])) + i == ['['] + (t + [','] + i);
    }
  }

  /** A comma behind an item: it counts among those read. */
  lemma {:induction false} ItemRead(bytes: string, start: nat, i: nat, depth: nat, items: seq<Item>, pending: string,
        values: seq<Value>, count: int, item: Item, value: Value)
    requires forall k :: 0 <= k < |items| ==> WellFormedItem(items[k], depth)
    requires values == ItemsValue(items, depth) && count == ItemsNodes(items)
    requires WellFormedItem(item, depth) && value == ValueOf(item.syntax, depth)
    requires Slice(bytes, start, i, ItemsHead(items) + ItemText(item)) && i < |bytes| && bytes[i] == ','
    ensures ItemsRead(bytes, start, i + 1, depth, items + [item], "", values + [value], count + Nodes(item.syntax))
  {
    hide WellFormed, ItemText, ItemsText, ItemsValue, ItemsNodes, ValueOf, Nodes, ItemsHead, Slice;
    ItemsGrow(items, item, depth);
    HeadGrows(items, item);
    SliceOne(bytes, i);
    SliceJoin(bytes, start, i, i + 1, ItemsHead(items) + ItemText(item), [',']);
  }

  /** A bracket behind an item: the array is read. */
  lemma {:induction false} ItemsEnd(bytes: string, start: nat, i: nat, depth: nat, items: seq<Item>,
        values: seq<Value>, count: int, item: Item, value: Value, gap: string)
    requires depth <= MAX_DEPTH && IsGap(gap)
    requires forall k :: 0 <= k < |items| ==> WellFormedItem(items[k], depth + 1)
    requires values == ItemsValue(items, depth + 1) && count == ItemsNodes(items)
    requires WellFormedItem(item, depth + 1) && value == ValueOf(item.syntax, depth + 1)
    requires Slice(bytes, start, i, ItemsHead(items) + ItemText(item)) && i < |bytes| && bytes[i] == ']'
    ensures var s := Items(gap, items + [item]);
            && WellFormed(s, depth) && Slice(bytes, start, i + 1, SyntaxText(s))
            && ValueOf(s, depth) == Array(values + [value]) && Nodes(s) == 1 + count + Nodes(item.syntax)
  {
    hide WellFormed, ItemText, ItemsText, ItemsValue, ItemsNodes, ValueOf, Nodes, ItemsHead, Slice, SyntaxText;
    ItemsGrow(items, item, depth + 1);
    HeadGrows(items, item);
    SliceOne(bytes, i);
    SliceJoin(bytes, start, i, i + 1, ['['] + ItemsText(items + [item]), [']']);
    ItemsClosed(gap, items + [item], depth);
  }

  lemma {:induction false} CleanArray(s: Syntax, isUtf8: string -> bool)
    requires s.Items? && forall k :: 0 <= k < |s.items| ==> Clean(s.items[k].syntax, isUtf8)
    ensures Clean(s, isUtf8)
  {
  }

  lemma {:induction false} CleanMemberIs(m: Member, isUtf8: string -> bool)
    requires CleanString(m.key, isUtf8) && Clean(m.item.syntax, isUtf8)
    ensures CleanMember(m, isUtf8)
  {
  }

  lemma {:induction false} CleanObject(s: Syntax, isUtf8: string -> bool)
    requires s.Members? && forall k :: 0 <= k < |s.members| ==> CleanMember(s.members[k], isUtf8)
    ensures Clean(s, isUtf8)
  {
  }

  /** The gap of the wanted derivation, or none. */
  function GapOf(want: Option<Syntax>): string {
    if want.Some? && want.value.Items? then want.value.gap
    else if want.Some? && want.value.Members? then want.value.gap
    else ""
  }

  lemma {:induction false} EmptyMembers(depth: nat)
    ensures MembersValue([], depth) == map[] && MembersNodes([]) == 0 && DistinctKeys([])
  {
  }

  lemma {:induction false} NoMembers(gap: string, depth: nat)
    requires depth <= MAX_DEPTH && IsGap(gap)
    ensures var s := Members(gap, []);
            WellFormed(s, depth) && SyntaxText(s) == ['{'] + gap + ['}'] && ValueOf(s, depth) == Object(map[])
              && Nodes(s) == 1
  {
  }

  lemma {:induction false} MembersClosed(gap: string, members: seq<Member>, depth: nat)
    requires members != [] && depth <= MAX_DEPTH && DistinctKeys(members) && IsGap(gap)
    requires forall i :: 0 <= i < |members| ==> WellFormedMember(members[i], depth + 1)
    ensures var s := Members(gap, members);
            && WellFormed(s, depth) && SyntaxText(s) == ['{'] + MembersText(members) + ['}']
            && ValueOf(s, depth) == Object(MembersValue(members, depth + 1)) && Nodes(s) == 1 + MembersNodes(members)
  {
    hide WellFormedMember, MembersText, MembersValue, MembersNodes, DistinctKeys;
  }

  function MembersHead(members: seq<Member>): string {
    ['{'] + if members == [] then "" else MembersText(members) + [',']
  }

  /** The members read so far, their values and their nodes. */
  predicate MembersRead(bytes: string, start: nat, i: nat, depth: nat, members: seq<Member>, pending: string,
                        values: map<string, Value>, count: int)
  {
    && IsGap(pending) && Slice(bytes, start, i, MembersHead(members) + pending) && DistinctKeys(members)
    && (forall k :: 0 <= k < |members| ==> WellFormedMember(members[k], depth))
    && values == MembersValue(members, depth) && count == MembersNodes(members)
  }

  lemma {:induction false} NoMembersRead(bytes: string, start: nat, i: nat, depth: nat, gap: string)
    requires IsGap(gap) && Slice(bytes, start, i, ['{'] + gap)
    ensures MembersRead(bytes, start, i, depth, [], gap, map[], 0)
  {
    EmptyMembers(depth);
    assert ['{'] + "" == ['{'];
  }

  lemma {:induction false} MembersSoFar(bytes: string, start: nat, i: nat, depth: nat, members: seq<Member>,
        pending: string, values: map<string, Value>, count: int)
    requires MembersRead(bytes, start, i, depth, members, pending, values, count)
    ensures IsGap(pending) && Slice(bytes, start, i, MembersHead(members) + pending) && start <= i
    ensures DistinctKeys(members) && forall k :: 0 <= k < |members| ==> WellFormedMember(members[k], depth)
    ensures values == MembersValue(members, depth) && count == MembersNodes(members)
  {
  }

  lemma {:induction false} MembersHeadGrows(members: seq<Member>, m: Member)
    requires MembersText(members + [m]) ==
             if members == [] then MemberText(m) else MembersText(members) + [','] + MemberText(m)
    ensures MembersHead(members) + MemberText(m) == ['{'] + MembersText(members + [m])
    ensures MembersHead(members) + MemberText(m) + [','] == MembersHead(members + [m]) + ""
  {
    hide MemberText, MembersText;
    if members != [] {
      var t, i := MembersText(members), MemberText(m);
      assert (['{'] + (t + [','])) + i == ['{'] + (t + [','] + i);
    }
  }

  /** A comma behind a member: it counts among those read. */
  lemma {:induction false} MemberRead(bytes: string, start: nat, i: nat, depth: nat, members: seq<Member>,
        pending: string, values: map<string, Value>, count: int, m: Member, value: Value)
    requires DistinctKeys(members) && forall k :: 0 <= k < |members| ==> WellFormedMember(members[k], depth)
    requires values == MembersValue(members, depth) && count == MembersNodes(members)
    requires WellFormedMember(m, depth) && WellFormedItem(m.item, depth) && value == ValueOf(m.item.syntax, depth)
    requires UnitsBytes(m.key) !in values
    requires Slice(bytes, start, i, MembersHead(members) + MemberText(m)) && i < |bytes| && bytes[i] == ','
    ensures MembersRead(bytes, start, i + 1, depth, members + [m], "", values[UnitsBytes(m.key) := value],
                        count + Nodes(m.item.syntax))
  {
    hide WellFormed, MemberText, MembersText, MembersValue, MembersNodes, ValueOf, Nodes, MembersHead, Slice,
      UnitsBytes, DistinctKeys;
    MembersGrow(members, m, depth);
    DistinctGrow(members, m, depth);
    MembersHeadGrows(members, m);
    SliceOne(bytes, i);
    SliceJoin(bytes, start, i, i + 1, MembersHead(members) + MemberText(m), [',']);
  }

  /** A brace behind a member: the object is read. */
  lemma {:induction false} MembersEnd(bytes: string, start: nat, i: nat, depth: nat, members: seq<Member>,
        values: map<string, Value>, count: int, m: Member, value: Value, gap: string)
    requires depth <= MAX_DEPTH && IsGap(gap)
    requires DistinctKeys(members) && forall k :: 0 <= k < |members| ==> WellFormedMember(members[k], depth + 1)
    requires values == MembersValue(members, depth + 1) && count == MembersNodes(members)
    requires WellFormedMember(m, depth + 1) && WellFormedItem(m.item, depth + 1)
    requires value == ValueOf(m.item.syntax, depth + 1) && UnitsBytes(m.key) !in values
    requires Slice(bytes, start, i, MembersHead(members) + MemberText(m)) && i < |bytes| && bytes[i] == '}'
    ensures var s := Members(gap, members + [m]);
            && WellFormed(s, depth) && Slice(bytes, start, i + 1, SyntaxText(s))
            && ValueOf(s, depth) == Object(values[UnitsBytes(m.key) := value])
            && Nodes(s) == 1 + count + Nodes(m.item.syntax)
  {
    hide WellFormed, MemberText, MembersText, MembersValue, MembersNodes, ValueOf, Nodes, MembersHead, Slice,
      UnitsBytes, DistinctKeys, SyntaxText;
    MembersGrow(members, m, depth + 1);
    DistinctGrow(members, m, depth + 1);
    MembersHeadGrows(members, m);
    SliceOne(bytes, i);
    SliceJoin(bytes, start, i, i + 1, ['{'] + MembersText(members + [m]), ['}']);
    MembersClosed(gap, members + [m], depth);
  }

  lemma {:induction false} KeyIsRead(bytes: string, start: nat, a: nat, b: nat, c: nat, d: nat, head: string,
        pending: string, before: string, key: string, gap: string)
    requires Slice(bytes, start, a, head + pending) && Slice(bytes, a, b, before) && Slice(bytes, b, c, key)
    requires Slice(bytes, c, d, gap) && Slice(bytes, d, d + 1, [':'])
    ensures Slice(bytes, start, d + 1, head + ((pending + before) + key + gap + [':']))
  {
    SliceJoin(bytes, start, a, b, head + pending, before);
    SliceJoin(bytes, start, b, c, (head + pending) + before, key);
    SliceJoin(bytes, start, c, d, (head + pending) + before + key, gap);
    SliceJoin(bytes, start, d, d + 1, (head + pending) + before + key + gap, [':']);
    assert (head + pending) + before + key + gap + [':'] == head + ((pending + before) + key + gap + [':']);
  }

  lemma {:induction false} MemberIsRead(head: string, m: Member)
    ensures head + (m.before + StringText(m.key) + m.gap + [':']) + ItemText(m.item) == head + MemberText(m)
  {
    hide StringText, ItemText;
    ConcatAssociative(head, m.before + StringText(m.key) + m.gap + [':'], ItemText(m.item));
  }

  lemma {:induction false} ItemIsRead(bytes: string, start: nat, a: nat, b: nat, c: nat, head: string,
        pending: string, before: string, text: string, after: string)
    requires Slice(bytes, start, a, head + pending) && Slice(bytes, a, b, before + text) && Slice(bytes, b, c, after)
    ensures Slice(bytes, start, c, head + ((pending + before) + text + after))
  {
    SliceJoin(bytes, start, a, b, head + pending, before + text);
    SliceJoin(bytes, start, b, c, (head + pending) + (before + text), after);
    calc {
      (head + pending) + (before + text) + after;
      head + (pending + (before + text) + after);
      { assert pending + (before + text) == (pending + before) + text; }
      head + ((pending + before) + text + after);
    }
  }
}
