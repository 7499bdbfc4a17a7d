/** The start of a process as `ps` prints it, and the check that every durable image of it passes. */
module ProcessStart {
  import opened Text

  predicate ValidTime(value: string) {
    var time := Split(value, ':');
    && |time| == 3
    && (forall i :: 0 <= i < 3 ==> |time[i]| == 2 && AllDigits(time[i]))
    && DigitsValue(time[0]) <= 23 && DigitsValue(time[1]) <= 59 && DigitsValue(time[2]) <= 60
  }

  predicate ValidYear(value: string) {
    |value| == 4 && 2020 <= ParseUnsigned(value, 0xFFFF).GetOr(0) <= 9999
  }

  /** `validate_process_start_identity` */
  predicate ValidProcessStart(value: string) {
    var fields := Words(value);
    && |fields| == 5 && Join(fields, ' ') == value
    && fields[0] in ["Mon", "Tue", "Wed", "Thu", "Fri", "Sat", "Sun"]
    && fields[1] in ["Jan", "Feb", "Mar", "Apr", "May", "Jun", "Jul", "Aug", "Sep", "Oct", "Nov", "Dec"]
    && CanonicalPositive(fields[2], 31).Some?
    && ValidTime(fields[3])
    && ValidYear(fields[4])
  }

  // ---------------------------------------------------------------- what it accepts

  datatype Weekday = Monday | Tuesday | Wednesday | Thursday | Friday | Saturday | Sunday

  datatype Month =
    | January | February | March | April | May | June | July | August | September | October | November | December

  datatype Start = Start(weekday: Weekday, month: Month, day: nat, hour: nat, minute: nat, second: nat, year: nat)

  function WeekdayName(w: Weekday): string {
    match w
    case Monday => "Mon" case Tuesday => "Tue" case Wednesday => "Wed" case Thursday => "Thu"
    case Friday => "Fri" case Saturday => "Sat" case Sunday => "Sun"
  }

  function MonthName(m: Month): string {
    match m
    case January => "Jan" case February => "Feb" case March => "Mar" case April => "Apr"
    case May => "May" case June => "Jun" case July => "Jul" case August => "Aug"
    case September => "Sep" case October => "Oct" case November => "Nov" case December => "Dec"
  }

  /** A day as the calendar and the clock have it; a leap second is one. */
  predicate IsStart(s: Start) {
    1 <= s.day <= 31 && s.hour <= 23 && s.minute <= 59 && s.second <= 60 && 2020 <= s.year <= 9999
  }

  function TwoDigits(n: nat): string
    requires n < 100
  {
    [DigitChar(n / 10), DigitChar(n % 10)]
  }

  function Clock(s: Start): string
    requires IsStart(s)
  {
    TwoDigits(s.hour) + ":" + TwoDigits(s.minute) + ":" + TwoDigits(s.second)
  }

  function Print(s: Start): string
    requires IsStart(s)
  {
    WeekdayName(s.weekday) + " " + MonthName(s.month) + " " + ToDecimal(s.day) + " " + Clock(s) + " "
    + ToDecimal(s.year)
  }

  /** The check accepts exactly what is printed of a start. */
  lemma ValidIff(value: string)
    ensures ValidProcessStart(value) <==> exists s :: IsStart(s) && value == Print(s)
  {
    if ValidProcessStart(value) {
      var s := Parsed(value);
      assert IsStart(s) && value == Print(s);
    }
    if s :| IsStart(s) && value == Print(s) {
      PrintedIsValid(s);
    }
  }

  lemma Parsed(value: string) returns (s: Start)
    requires ValidProcessStart(value)
    ensures IsStart(s) && value == Print(s)
  {
    var fields := Words(value);
    var weekday := NamedWeekday(fields[0]);
    var month := NamedMonth(fields[1]);
    var day := CanonicalPositive(fields[2], 31).value;
    CanonicalPositiveIff(fields[2], day, 31);
    var hour, minute, second := ParsedTime(fields[3]);
    var year := ParsedYear(fields[4]);
    s := Start(weekday, month, day, hour, minute, second, year);
    JoinFive(fields[0], fields[1], fields[2], fields[3], fields[4]);
    assert fields == [fields[0], fields[1], fields[2], fields[3], fields[4]];
  }

  lemma NamedWeekday(name: string) returns (w: Weekday)
    requires name in ["Mon", "Tue", "Wed", "Thu", "Fri", "Sat", "Sun"]
    ensures WeekdayName(w) == name
  {
    w := if name == "Mon" then Monday else if name == "Tue" then Tuesday else if name == "Wed" then Wednesday
         else if name == "Thu" then Thursday else if name == "Fri" then Friday
         else if name == "Sat" then Saturday else Sunday;
  }

  lemma NamedMonth(name: string) returns (m: Month)
    requires name in ["Jan", "Feb", "Mar", "Apr", "May", "Jun", "Jul", "Aug", "Sep", "Oct", "Nov", "Dec"]
    ensures MonthName(m) == name
  {
    m := if name == "Jan" then January else if name == "Feb" then February else if name == "Mar" then March
         else if name == "Apr" then April else if name == "May" then May else if name == "Jun" then June
         else if name == "Jul" then July else if name == "Aug" then August else if name == "Sep" then September
         else if name == "Oct" then October else if name == "Nov" then November else December;
  }

  lemma ParsedTime(value: string) returns (hour: nat, minute: nat, second: nat)
    requires ValidTime(value)
    ensures hour <= 23 && minute <= 59 && second <= 60
    ensures value == TwoDigits(hour) + ":" + TwoDigits(minute) + ":" + TwoDigits(second)
  {
    var time := Split(value, ':');
    JoinSplit(value, ':');
    hour, minute, second := DigitsValue(time[0]), DigitsValue(time[1]), DigitsValue(time[2]);
    TwoDigitsBack(time[0]);
    TwoDigitsBack(time[1]);
    TwoDigitsBack(time[2]);
    assert time == [time[0], time[1], time[2]];
    JoinThree(time[0], time[1], time[2]);
  }

  lemma ParsedYear(value: string) returns (year: nat)
    requires ValidYear(value)
    ensures 2020 <= year <= 9999 && value == ToDecimal(year)
  {
    year := ParseUnsigned(value, 0xFFFF).value;
    if value[0] == '+' {
      ThreeDigits(value[1..]);
      assert false;
    }
    FourDigits(value);
  }

  lemma DigitsSnoc(s: string, c: char)
    requires AllDigits(s) && IsDigit(c)
    ensures AllDigits(s + [c]) && DigitsValue(s + [c]) == 10 * DigitsValue(s) + DigitValue(c)
  {
    assert (s + [c])[..|s|] == s;
  }

  /** Two digits, read and printed. */
  lemma TwoDigitsBack(s: string)
    requires |s| == 2 && AllDigits(s)
    ensures DigitsValue(s) == 10 * DigitValue(s[0]) + DigitValue(s[1])
    ensures DigitsValue(s) < 100 && TwoDigits(DigitsValue(s)) == s
  {
    DigitsSnoc("", s[0]);
    DigitsSnoc([s[0]], s[1]);
    assert "" + [s[0]] == [s[0]] && [s[0]] + [s[1]] == s;
    DigitBack(s[0]);
    DigitBack(s[1]);
  }

  lemma TwoDigitsValue(n: nat)
    requires n < 100
    ensures |TwoDigits(n)| == 2 && AllDigits(TwoDigits(n)) && DigitsValue(TwoDigits(n)) == n
  {
    TwoDigitsBack(TwoDigits(n));
  }

  lemma ThreeDigits(s: string)
    requires |s| == 3 && AllDigits(s)
    ensures DigitsValue(s) < 1000
  {
    TwoDigitsBack(s[..2]);
    DigitsSnoc(s[..2], s[2]);
    assert s[..2] + [s[2]] == s;
  }

  lemma FourDigits(s: string)
    requires |s| == 4 && AllDigits(s) && DigitsValue(s) >= 1000
    ensures ToDecimal(DigitsValue(s)) == s
  {
    var one, two, three := [s[0]], s[..2], s[..3];
    DigitsSnoc("", s[0]);
    DigitsSnoc(one, s[1]);
    DigitsSnoc(two, s[2]);
    DigitsSnoc(three, s[3]);
    assert "" + [s[0]] == one && one + [s[1]] == two && two + [s[2]] == three && three + [s[3]] == s;
    DigitBack(s[0]);
    DecimalSnoc(DigitsValue(one), one, s[1]);
    DecimalSnoc(DigitsValue(two), two, s[2]);
    DecimalSnoc(DigitsValue(three), three, s[3]);
  }

  lemma DecimalSnoc(n: nat, s: string, c: char)
    requires n > 0 && ToDecimal(n) == s && IsDigit(c)
    ensures ToDecimal(10 * n + DigitValue(c)) == s + [c]
  {
    DigitBack(c);
    assert (10 * n + DigitValue(c)) / 10 == n;
  }

  lemma DigitBack(c: char)
    requires IsDigit(c)
    ensures DigitChar(DigitValue(c)) == c
  {
  }

  lemma JoinThree(a: string, b: string, c: string)
    ensures Join([a, b, c], ':') == a + ":" + b + ":" + c
  {
    JoinSnoc([a], b, ':');
    JoinSnoc([a, b], c, ':');
    assert [a] + [b] == [a, b] && [a, b] + [c] == [a, b, c];
  }

  lemma JoinFive(a: string, b: string, c: string, d: string, e: string)
    ensures Join([a, b, c, d, e], ' ') == a + " " + b + " " + c + " " + d + " " + e
  {
    JoinSnoc([a], b, ' ');
    JoinSnoc([a, b], c, ' ');
    JoinSnoc([a, b, c], d, ' ');
    JoinSnoc([a, b, c, d], e, ' ');
    assert [a] + [b] == [a, b] && [a, b] + [c] == [a, b, c];
    assert [a, b, c] + [d] == [a, b, c, d] && [a, b, c, d] + [e] == [a, b, c, d, e];
  }

  lemma PrintedIsValid(s: Start)
    requires IsStart(s)
    ensures ValidProcessStart(Print(s))
  {
    var fields := [WeekdayName(s.weekday), MonthName(s.month), ToDecimal(s.day), Clock(s), ToDecimal(s.year)];
    JoinFive(fields[0], fields[1], fields[2], fields[3], fields[4]);
    ClockIsValid(s);
    DecimalIsWord(s.day);
    DecimalIsWord(s.year);
    WeekdayIsWord(s.weekday);
    MonthIsWord(s.month);
    hide Clock, ToDecimal, WeekdayName, MonthName, IsWord;
    WordsJoin(fields);
    CanonicalPositiveIff(fields[2], s.day, 31);
    YearIsValid(s.year);
  }

  lemma WeekdayIsWord(w: Weekday)
    ensures IsWord(WeekdayName(w)) && WeekdayName(w) in ["Mon", "Tue", "Wed", "Thu", "Fri", "Sat", "Sun"]
  {
  }

  lemma MonthIsWord(m: Month)
    ensures IsWord(MonthName(m))
    ensures MonthName(m) in ["Jan", "Feb", "Mar", "Apr", "May", "Jun", "Jul", "Aug", "Sep", "Oct", "Nov", "Dec"]
  {
  }

  lemma DecimalIsWord(n: nat)
    ensures IsWord(ToDecimal(n))
  {
    var s := ToDecimal(n);
    assert forall i :: 0 <= i < |s| ==> IsDigit(s[i]);
  }

  lemma ClockIsValid(s: Start)
    requires IsStart(s)
    ensures ValidTime(Clock(s)) && IsWord(Clock(s))
  {
    var h, m, t := TwoDigits(s.hour), TwoDigits(s.minute), TwoDigits(s.second);
    TwoDigitsValue(s.hour);
    TwoDigitsValue(s.minute);
    TwoDigitsValue(s.second);
    JoinThree(h, m, t);
    SplitJoin([h, m, t], ':');
  }

  lemma YearIsValid(year: nat)
    requires 2020 <= year <= 9999
    ensures ValidYear(ToDecimal(year))
  {
    ParseDecimal(year, 0xFFFF);
    assert |ToDecimal(year / 1000)| == 1;
    assert |ToDecimal(year / 10 / 10)| == 2;
    assert |ToDecimal(year / 10)| == 3;
  }
}
