/** Text primitives shared by the journal, root-state and torn-tail parsers.

    A byte is modelled as the `char` with that code and a file as a `string`.  Every text
    the journal parsers accept is plain ASCII, so nothing is lost by leaving the separate
    UTF-8 decoding step out. */
module Text {

  datatype Option<+T> = None | Some(value: T) {
    function GetOr(default: T): T {
      if Some? then value else default
    }
  }

  /** The index of the first `c` in `s` at or after `from`, or `|s|` when there is none. */
  function IndexFrom(s: string, c: char, from: nat): (i: nat)
    requires from <= |s|
    ensures from <= i <= |s|
    ensures forall k :: from <= k < i ==> s[k] != c
    ensures i < |s| ==> s[i] == c
    decreases |s| - from
  {
    if from == |s| || s[from] == c then from else IndexFrom(s, c, from + 1)
  }

  function FirstIndex(s: string, c: char): (i: nat)
    ensures i <= |s|
    ensures forall k :: 0 <= k < i ==> s[k] != c
    ensures i < |s| ==> s[i] == c
  {
    IndexFrom(s, c, 0)
  }

  lemma FirstIndexAppend(a: string, c: char, b: string)
    requires c !in a
    ensures FirstIndex(a + [c] + b, c) == |a|
    ensures (a + [c] + b)[..|a|] == a && (a + [c] + b)[|a| + 1..] == b
  {
    var s := a + [c] + b;
    assert s[..|a|] == a && s[|a|] == c;
    assert forall k :: 0 <= k < |a| ==> s[k] == a[k];
  }

  // ---------------------------------------------------------------- str::split

  /** `str::split(sep)`: always at least one piece. */
  function Split(s: string, sep: char): (parts: seq<string>)
    ensures |parts| >= 1
    decreases |s|
  {
    var i := FirstIndex(s, sep);
    if i == |s| then [s] else [s[..i]] + Split(s[i + 1..], sep)
  }

  /** The pieces joined with `sep` between them. */
  function Join(parts: seq<string>, sep: char): string
    requires |parts| >= 1
  {
    if |parts| == 1 then parts[0] else parts[0] + [sep] + Join(parts[1..], sep)
  }

  predicate Without(parts: seq<string>, c: char) {
    forall p :: p in parts ==> c !in p
  }

  lemma {:induction false} SplitJoin(parts: seq<string>, sep: char)
    requires |parts| >= 1 && Without(parts, sep)
    ensures Split(Join(parts, sep), sep) == parts
  {
    assert parts[0] in parts;
    if |parts| == 1 {
      assert parts == [parts[0]];
    } else {
      var rest := Join(parts[1..], sep);
      FirstIndexAppend(parts[0], sep, rest);
      SplitJoin(parts[1..], sep);
      assert Split(parts[0] + [sep] + rest, sep) == [parts[0]] + Split(rest, sep);
    }
  }

  lemma {:induction false} JoinSplit(s: string, sep: char)
    ensures Join(Split(s, sep), sep) == s
    ensures Without(Split(s, sep), sep)
    decreases |s|
  {
    var i := FirstIndex(s, sep);
    if i < |s| {
      var head, rest := s[..i], s[i + 1..];
      var parts := Split(rest, sep);
      JoinSplit(rest, sep);
      assert s == head + [sep] + rest;
      assert ([head] + parts)[1..] == parts;
      assert Split(s, sep) == [head] + parts;
    }
  }

  lemma {:induction false} JoinSnoc(parts: seq<string>, last: string, sep: char)
    requires |parts| >= 1
    ensures Join(parts + [last], sep) == Join(parts, sep) + [sep] + last
  {
    if |parts| > 1 {
      JoinSnoc(parts[1..], last, sep);
      assert (parts + [last])[1..] == parts[1..] + [last];
    } else {
      assert (parts + [last])[1..] == [last];
    }
  }

  // ---------------------------------------------------------------- str::lines

  /** Drops one trailing carriage return. */
  function StripCr(line: string): string {
    if |line| > 0 && line[|line| - 1] == '\r' then line[..|line| - 1] else line
  }

  /** `str::lines`: a line ends at '\n' or "\r\n"; the last one may be unterminated. */
  function Lines(text: string): seq<string>
    decreases |text|
  {
    if text == "" then []
    else
      var i := FirstIndex(text, '\n');
      if i == |text| then [text] else [StripCr(text[..i])] + Lines(text[i + 1..])
  }

  /** Every line followed by '\n'. */
  function Unlines(lines: seq<string>): string {
    if lines == [] then "" else lines[0] + "\n" + Unlines(lines[1..])
  }

  predicate EndsWithNewline(text: string) {
    |text| > 0 && text[|text| - 1] == '\n'
  }

  /** A line that `Lines` gives back unchanged. */
  predicate PlainLine(line: string) {
    '\n' !in line && (|line| > 0 ==> line[|line| - 1] != '\r')
  }

  lemma ConcatAssociative<T>(a: seq<T>, b: seq<T>, c: seq<T>)
    ensures (a + b) + c == a + (b + c)
  {
  }

  /** Cuts a text after its first line. */
  lemma FirstLine(text: string, tail: string, i: nat)
    requires i < |text| && text[i] == '\n' && forall k :: 0 <= k < i ==> text[k] != '\n'
    ensures Lines(text + tail) == [StripCr(text[..i])] + Lines(text[i + 1..] + tail)
  {
    var whole := text + tail;
    assert whole[..i] == text[..i];
    assert whole[i + 1..] == text[i + 1..] + tail;
    assert forall k :: 0 <= k <= i ==> text[k] == whole[k];
    assert FirstIndex(whole, '\n') == i;
  }

  lemma {:induction false} LinesOfAppend(text: string, tail: string)
    requires text == "" || EndsWithNewline(text)
    ensures Lines(text + tail) == Lines(text) + Lines(tail)
    decreases |text|
  {
    if text == "" {
      assert text + tail == tail;
      assert Lines(text) == [];
    } else {
      var i := FirstIndex(text, '\n');
      var first, rest := [StripCr(text[..i])], text[i + 1..];
      calc {
        Lines(text + tail);
        { FirstLine(text, tail, i); }
        first + Lines(rest + tail);
        { assert rest != "" ==> rest[|rest| - 1] == text[|text| - 1]; LinesOfAppend(rest, tail); }
        first + (Lines(rest) + Lines(tail));
        { ConcatAssociative(first, Lines(rest), Lines(tail)); }
        (first + Lines(rest)) + Lines(tail);
        { FirstLine(text, "", i); assert text + "" == text; assert rest + "" == rest; }
        Lines(text) + Lines(tail);
      }
    }
  }

  lemma LinesOfLine(line: string)
    requires PlainLine(line)
    ensures Lines(line + "\n") == [line]
  {
    var text := line + "\n";
    assert text[..|line|] == line && text[|line| + 1..] == "" && text + "" == text;
    FirstLine(text, "", |line|);
    assert Lines("") == [];
  }

  lemma {:induction false} LinesUnlines(lines: seq<string>)
    requires forall l :: l in lines ==> PlainLine(l)
    ensures Lines(Unlines(lines)) == lines
    ensures lines != [] ==> EndsWithNewline(Unlines(lines))
  {
    if lines == [] {
    } else {
      LinesUnlines(lines[1..]);
      LinesOfLine(lines[0]);
      LinesOfAppend(lines[0] + "\n", Unlines(lines[1..]));
    }
  }

  function StripAll(parts: seq<string>): (lines: seq<string>)
    ensures |lines| == |parts| && forall i :: 0 <= i < |lines| ==> lines[i] == StripCr(parts[i])
  {
    seq(|parts|, i requires 0 <= i < |parts| => StripCr(parts[i]))
  }

  lemma StripAllCons(part: string, parts: seq<string>)
    ensures StripAll([part] + parts) == [StripCr(part)] + StripAll(parts)
    ensures StripAll([part]) == [StripCr(part)]
  {
  }

  lemma TextWithoutLines(text: string)
    ensures Lines(text) == [] <==> text == ""
  {
  }

  /** The lines of a terminated text are its parts between line ends. */
  lemma {:induction false} LinesOfSplit(s: string)
    ensures Lines(s + "\n") == StripAll(Split(s, '\n'))
    decreases |s|
  {
    hide Lines, StripAll, StripCr, FirstIndex;
    var text, i := s + "\n", FirstIndex(s, '\n');
    assert text + "" == text;
    FirstLine(text, "", i);
    if i < |s| {
      LinesOfSplit(s[i + 1..]);
      assert text[..i] == s[..i] && text[i + 1..] + "" == s[i + 1..] + "\n";
      StripAllCons(s[..i], Split(s[i + 1..], '\n'));
    } else {
      assert text[..i] == s && text[i + 1..] + "" == "";
      TextWithoutLines("");
      StripAllCons(s, []);
    }
  }

  lemma FirstIndexPrefix(a: string, s: string, c: char)
    requires c !in a
    ensures FirstIndex(a + s, c) == |a| + FirstIndex(s, c)
  {
    var i := FirstIndex(s, c);
    assert forall k :: 0 <= k < |a| ==> a[k] in a;
    assert forall k :: |a| <= k < |a| + i ==> (a + s)[k] == s[k - |a|];
    assert i < |s| ==> (a + s)[|a| + i] == s[i];
  }

  lemma SplitPrefix(a: string, s: string, sep: char)
    requires sep !in a
    ensures Split(a + s, sep) == [a + Split(s, sep)[0]] + Split(s, sep)[1..]
  {
    hide FirstIndex;
    FirstIndexPrefix(a, s, sep);
    var i := FirstIndex(s, sep);
    if i < |s| {
      assert (a + s)[..|a| + i] == a + s[..i] && (a + s)[|a| + i + 1..] == s[i + 1..];
    }
  }

  lemma {:induction false} UnlinesAppend(a: seq<string>, b: seq<string>)
    ensures Unlines(a + b) == Unlines(a) + Unlines(b)
  {
    if a == [] {
      assert a + b == b;
    } else {
      UnlinesAppend(a[1..], b);
      assert (a + b)[1..] == a[1..] + b;
      assert Unlines(a + b) == a[0] + "\n" + (Unlines(a[1..]) + Unlines(b));
    }
  }

  lemma {:induction false} UnlinesEnds(lines: seq<string>)
    requires lines != []
    ensures EndsWithNewline(Unlines(lines))
  {
    if |lines| > 1 {
      UnlinesEnds(lines[1..]);
    }
  }

  lemma {:induction false} LinesOfUnlines(lines: seq<string>)
    requires lines != []
    ensures Lines(Unlines(lines)) == Lines(lines[0] + "\n") + Lines(Unlines(lines[1..]))
  {
    LinesOfAppend(lines[0] + "\n", Unlines(lines[1..]));
  }

  /** A prefix that ends at a line end has a prefix of the lines. */
  lemma LinesOfPrefix(text: string, k: nat)
    requires k <= |text| && (k == 0 || text[k - 1] == '\n')
    ensures |Lines(text[..k])| <= |Lines(text)|
    ensures Lines(text[..k]) == Lines(text)[..|Lines(text[..k])|]
    ensures Lines(text) == Lines(text[..k]) + Lines(text[k..])
  {
    assert text == text[..k] + text[k..];
    LinesOfAppend(text[..k], text[k..]);
  }

  lemma FirstLineEnd(text: string) returns (k: nat)
    requires EndsWithNewline(text)
    ensures 0 < k <= |text| && text[k - 1] == '\n'
    ensures |Lines(text[..k])| == 1 && |Lines(text)| == 1 + |Lines(text[k..])|
  {
    var i := FirstIndex(text, '\n');
    k := i + 1;
    var first := text[..k];
    assert first[k..] + "" == "" && first + "" == first;
    FirstLine(first, "", i);
    TextWithoutLines("");
    hide Lines;
    LinesOfPrefix(text, k);
  }

  /** Where the second line of a longer text ends. */
  lemma SecondLineEnd(text: string) returns (k: nat)
    requires EndsWithNewline(text) && |Lines(text)| >= 3
    ensures 0 < k < |text| && text[k - 1] == '\n' && |Lines(text[..k])| == 2
  {
    hide Lines;
    var i := FirstLineEnd(text);
    var rest := text[i..];
    TextWithoutLines(rest);
    var j := FirstLineEnd(rest);
    TextWithoutLines(rest[j..]);
    k := i + j;
    assert text[..k] == text[..i] + rest[..j];
    LinesOfAppend(text[..i], rest[..j]);
  }

  // ------------------------------------------------- str::split_ascii_whitespace

  predicate IsAsciiWhitespace(c: char) {
    c == ' ' || c == '\t' || c == '\n' || c == 12 as char || c == '\r'
  }

  predicate IsWord(w: string) {
    |w| > 0 && forall i :: 0 <= i < |w| ==> !IsAsciiWhitespace(w[i])
  }

  /** The length of the longest whitespace-free prefix. */
  function WordLength(s: string): (n: nat)
    ensures n <= |s|
    ensures forall i :: 0 <= i < n ==> !IsAsciiWhitespace(s[i])
    ensures n < |s| ==> IsAsciiWhitespace(s[n])
  {
    if s == "" || IsAsciiWhitespace(s[0]) then 0 else 1 + WordLength(s[1..])
  }

  function Words(s: string): (words: seq<string>)
    ensures forall w :: w in words ==> IsWord(w)
    decreases |s|
  {
    if s == "" then []
    else if IsAsciiWhitespace(s[0]) then Words(s[1..])
    else [s[..WordLength(s)]] + Words(s[WordLength(s)..])
  }

  lemma WordLengthIs(s: string, n: nat)
    requires n <= |s|
    requires forall i :: 0 <= i < n ==> !IsAsciiWhitespace(s[i])
    requires n < |s| ==> IsAsciiWhitespace(s[n])
    ensures WordLength(s) == n
  {
  }

  lemma {:induction false} WordsJoin(parts: seq<string>)
    requires |parts| >= 1 && forall p :: p in parts ==> IsWord(p)
    ensures Words(Join(parts, ' ')) == parts
  {
    var s := Join(parts, ' ');
    var w := parts[0];
    assert IsWord(w) && !IsAsciiWhitespace(w[0]);
    if |parts| == 1 {
      WordLengthIs(s, |w|);
      assert s[|w|..] == "";
      assert s[..|w|] == w;
    } else {
      var rest := Join(parts[1..], ' ');
      WordLengthIs(s, |w|);
      assert s[..|w|] == w;
      assert s[|w|..] == " " + rest;
      assert (" " + rest)[1..] == rest;
      WordsJoin(parts[1..]);
    }
  }

  // --------------------------------------------------------------- split_once

  datatype Pair = Pair(key: string, value: string)

  /** `str::split_once(sep)`. */
  function SplitOnce(s: string, sep: char): Option<Pair> {
    var i := FirstIndex(s, sep);
    if i == |s| then None else Some(Pair(s[..i], s[i + 1..]))
  }

  lemma SplitOnceOf(key: string, sep: char, value: string)
    requires sep !in key
    ensures SplitOnce(key + [sep] + value, sep) == Some(Pair(key, value))
  {
    FirstIndexAppend(key, sep, value);
  }

  // ------------------------------------------------------------------ numbers

  const U32_MAX: nat := 0xFFFF_FFFF
  const U64_MAX: nat := 0xFFFF_FFFF_FFFF_FFFF

  predicate IsDigit(c: char) {
    '0' <= c <= '9'
  }

  function DigitChar(d: nat): (c: char)
    requires d < 10
    ensures IsDigit(c) && DigitValue(c) == d
  {
    (d + 48) as char
  }

  function DigitValue(c: char): (d: nat)
    requires IsDigit(c)
    ensures d < 10
  {
    c as int - 48
  }

  predicate AllDigits(s: string) {
    forall i :: 0 <= i < |s| ==> IsDigit(s[i])
  }

  /** `u64::to_string`. */
  function ToDecimal(n: nat): (s: string)
    ensures |s| > 0 && AllDigits(s)
  {
    if n < 10 then [DigitChar(n)] else ToDecimal(n / 10) + [DigitChar(n % 10)]
  }

  function DigitsValue(s: string): nat
    requires AllDigits(s)
  {
    if s == "" then 0 else 10 * DigitsValue(s[..|s| - 1]) + DigitValue(s[|s| - 1])
  }

  /** `str::parse` for an unsigned integer type whose largest value is `max`: an optional
      plus sign, at least one digit, and no overflow. */
  function ParseUnsigned(s: string, max: nat): Option<nat> {
    var digits := if |s| > 0 && s[0] == '+' then s[1..] else s;
    if digits == "" || !AllDigits(digits) then None
    else if DigitsValue(digits) > max then None
    else Some(DigitsValue(digits))
  }

  lemma {:induction false} DecimalValue(n: nat)
    ensures DigitsValue(ToDecimal(n)) == n
  {
    if n >= 10 {
      DecimalValue(n / 10);
      var s := ToDecimal(n);
      assert s[..|s| - 1] == ToDecimal(n / 10);
    }
  }

  lemma ParseDecimal(n: nat, max: nat)
    requires n <= max
    ensures ParseUnsigned(ToDecimal(n), max) == Some(n)
  {
    DecimalValue(n);
    assert IsDigit(ToDecimal(n)[0]);
  }

  /** The journal's number check: positive, in range, and spelled the canonical way. */
  function CanonicalPositive(s: string, max: nat): Option<nat> {
    match ParseUnsigned(s, max)
    case None => None
    case Some(n) => if n == 0 || ToDecimal(n) != s then None else Some(n)
  }

  lemma CanonicalPositiveIff(s: string, n: nat, max: nat)
    ensures CanonicalPositive(s, max) == Some(n) <==> 0 < n <= max && s == ToDecimal(n)
  {
    if 0 < n <= max && s == ToDecimal(n) {
      ParseDecimal(n, max);
    }
  }

  predicate LowerHex(s: string, length: nat) {
    && |s| == length
    && forall i :: 0 <= i < |s| ==> IsDigit(s[i]) || 'a' <= s[i] <= 'f'
  }
}
