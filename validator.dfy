/**
 * The backend's validators: the parsers for date keys, record dates and entry
 * times, the per-entry and per-day checks, and the check of a whole patient
 * record. "Today" and "now" are parameters.
 */
module Validator {
  import opened Wrappers
  import opened JsText
  import opened Records

  // ---------------------------------------------------------------- Python int()

  /** The characters Python's `str.isspace()` accepts, which `int()` strips from both ends. */
  predicate PySpace(c: char) {
    || ('\t' <= c <= '\r') || ('\U{001C}' <= c <= '\U{001F}') || c == ' '
    || c == '\U{0085}' || c == '\U{00A0}' || c == '\U{1680}' || ('\U{2000}' <= c <= '\U{200A}')
    || c == '\U{2028}' || c == '\U{2029}' || c == '\U{202F}' || c == '\U{205F}' || c == '\U{3000}'
  }

  function StripStart(s: string): (r: string)
    ensures |r| <= |s| && r == s[|s| - |r|..]
    ensures r == [] || !PySpace(r[0])
  {
    if s != [] && PySpace(s[0]) then StripStart(s[1..]) else s
  }

  function StripEnd(s: string): (r: string)
    ensures |r| <= |s| && r == s[..|r|]
    ensures r == [] || !PySpace(r[|r| - 1])
  {
    if s != [] && PySpace(s[|s| - 1]) then StripEnd(s[..|s| - 1]) else s
  }

  function Strip(s: string): string {
    StripEnd(StripStart(s))
  }

  /** Decimal digits with single underscores between them, the digit part `int()` accepts. */
  predicate DigitGroups(u: string) {
    && u != [] && IsDigit(u[0]) && IsDigit(u[|u| - 1])
    && (forall i :: 0 <= i < |u| ==> IsDigit(u[i]) || u[i] == '_')
    && (forall i :: 0 <= i < |u| - 1 ==> u[i] == '_' ==> u[i + 1] != '_')
  }

  function WithoutUnderscores(u: string): (r: string)
    requires forall i :: 0 <= i < |u| ==> IsDigit(u[i]) || u[i] == '_'
    ensures AllDigits(r)
    ensures AllDigits(u) ==> r == u
  {
    if u == [] then []
    else if u[0] == '_' then WithoutUnderscores(u[1..])
    else [u[0]] + WithoutUnderscores(u[1..])
  }

  /**
   * `int(s)` for a string: surrounding white space, one optional sign, then
   * decimal digits grouped by single underscores. `None` is the ValueError.
   */
  function PyInt(s: string): (r: Option<int>)
    ensures r.Some? && r.value < 0 ==> Strip(s) != [] && Strip(s)[0] == '-'
  {
    var sign := SplitSign(Strip(s));
    if DigitGroups(sign.1) then
      var d := WithoutUnderscores(sign.1);
      AllDigitsInDecimal(d);
      var v := RadixValue(d, 10);
      Some(if sign.0 then 0 - v else v)
    else None
  }

  lemma StripDigits(s: string)
    requires s != [] && AllDigits(s)
    ensures Strip(s) == s
  {
    assert IsDigit(s[0]) && IsDigit(s[|s| - 1]);
    assert StripStart(s) == s;
  }

  lemma DigitsAreGroups(s: string)
    requires s != [] && AllDigits(s)
    ensures DigitGroups(s) && WithoutUnderscores(s) == s
  {
    assert IsDigit(s[0]) && IsDigit(s[|s| - 1]);
  }

  /** `int()` reads a run of decimal digits as its value. */
  lemma PyIntOfDigits(s: string)
    requires s != [] && AllDigits(s)
    ensures AllDigitsIn(s, 10) && PyInt(s) == Some(RadixValue(s, 10))
  {
    AllDigitsInDecimal(s);
    StripDigits(s);
    DigitsUnsigned(s);
    DigitsAreGroups(s);
  }

  // ---------------------------------------------------------------- dates and times

  datatype Date = Date(year: int, month: int, day: int)

  predicate IsLeap(y: int) {
    y % 4 == 0 && (y % 100 != 0 || y % 400 == 0)
  }

  function DaysIn(y: int, m: int): int
    requires 1 <= m <= 12
  {
    if m == 2 then (if IsLeap(y) then 29 else 28)
    else if m == 4 || m == 6 || m == 9 || m == 11 then 30
    else 31
  }

  /** What `datetime.date(y, m, d)` accepts. */
  predicate ValidDate(d: Date) {
    1 <= d.year <= 9999 && 1 <= d.month <= 12 && 1 <= d.day <= DaysIn(d.year, d.month)
  }

  /** `a < b` on dates. */
  predicate Before(a: Date, b: Date) {
    a.year < b.year || (a.year == b.year && (a.month < b.month || (a.month == b.month && a.day < b.day)))
  }

  /**
   * `parse_date_key`: exactly three `_`-separated integers forming a calendar
   * date; `None` is the ValueError it raises otherwise.
   */
  function ParseDateKey(key: string): (r: Option<Date>)
    ensures r.Some? ==> ValidDate(r.value)
    ensures r.Some? ==> |Split(key, '_')| == 3
  {
    var parts := Split(key, '_');
    if |parts| != 3 then None
    else match (PyInt(parts[0]), PyInt(parts[1]), PyInt(parts[2]))
      case (Some(y), Some(m), Some(d)) => if ValidDate(Date(y, m, d)) then Some(Date(y, m, d)) else None
      case _ => None
  }

  /**
   * `parse_record_date`: `month/day` placed in the current year with
   * `date.today().replace(...)`; `None` is the ValueError.
   */
  function ParseRecordDate(value: string, today: Date): (r: Option<Date>)
    ensures r.Some? ==> ValidDate(r.value) && r.value.year == today.year
  {
    var parts := Split(value, '/');
    if |parts| != 2 then None
    else match (PyInt(parts[0]), PyInt(parts[1]))
      case (Some(m), Some(d)) =>
        if ValidDate(Date(today.year, m, d)) then Some(Date(today.year, m, d)) else None
      case _ => None
  }

  /** A wall-clock time to the minute. */
  datatype Time = Time(hour: int, minute: int)

  /**
   * `a > b` on `datetime.time` values. A parsed entry time has zero seconds, so
   * it is later than the current time exactly when its hour and minute are.
   */
  predicate After(a: Time, b: Time) {
    a.hour > b.hour || (a.hour == b.hour && a.minute > b.minute)
  }

  function DigitValue(c: char): int
    requires IsDigit(c)
  {
    c as int - '0' as int
  }

  /**
   * `datetime.strptime(value, "%H:%M")`. The hour pattern tries `2[0-3]`,
   * then `[01]\d`, then one digit; the minute pattern tries `[0-5]\d`, then one
   * digit; the first match must then consume the whole string.
   */
  function ParseTime(value: string): (r: Option<Time>)
    ensures r.Some? ==> 0 <= r.value.hour < 24 && 0 <= r.value.minute < 60
  {
    var s := value;
    var twoDigitHour := |s| >= 3 && s[2] == ':'
      && ((s[0] == '2' && '0' <= s[1] <= '3') || ((s[0] == '0' || s[0] == '1') && IsDigit(s[1])));
    var oneDigitHour := |s| >= 2 && IsDigit(s[0]) && s[1] == ':';
    if !twoDigitHour && !oneDigitHour then None
    else
      var hour := if twoDigitHour then DigitValue(s[0]) * 10 + DigitValue(s[1]) else DigitValue(s[0]);
      var p := if twoDigitHour then 3 else 2;
      var twoDigitMinute := |s| >= p + 2 && '0' <= s[p] <= '5' && IsDigit(s[p + 1]);
      var oneDigitMinute := |s| >= p + 1 && IsDigit(s[p]);
      if !twoDigitMinute && !oneDigitMinute then None
      else
        var minute := if twoDigitMinute then DigitValue(s[p]) * 10 + DigitValue(s[p + 1]) else DigitValue(s[p]);
        var end := if twoDigitMinute then p + 2 else p + 1;
        if end == |s| then Some(Time(hour, minute)) else None
  }

  // ---------------------------------------------------------------- RecordItem and DailyRecord

  /** A `NonNegativeInt` field (only JSON integers are modelled). */
  function NonNegativeInt(v: Option<Value>): Option<int> {
    match v
    case Some(IntV(i)) => if i >= 0 then Some(i) else None
    case _ => None
  }

  /** `RecordItem.model_validate(...)`: a string time and four non-negative integers. */
  function RecordItemOf(time: Option<Value>, food: Option<Value>, water: Option<Value>,
                        urination: Option<Value>, defecation: Option<Value>): (r: Option<Entry>)
    ensures r.Some? ==> forall f :: r.value.Get(f) >= 0
  {
    match (time, NonNegativeInt(food), NonNegativeInt(water), NonNegativeInt(urination), NonNegativeInt(defecation))
    case (Some(StrV(t)), Some(a), Some(b), Some(c), Some(d)) => Some(Entry(t, a, b, c, d))
    case _ => None
  }

  /** `-?\d+\.\d+`: the number part of a weight. */
  predicate DecimalWithFraction(u: string) {
    var body := if u != [] && u[0] == '-' then u[1..] else u;
    var dot := IndexOf(body, '.');
    dot.Some? && dot.value > 0 && dot.value + 1 < |body|
    && AllDigits(body[..dot.value]) && AllDigits(body[dot.value + 1..])
  }

  /**
   * The weight check: `"NaN"`, or a full match of `(-?\d+(?:\.\d+))? kg` whose
   * number part, read by `float`, is above zero. The bare `" kg"` matches the
   * pattern but `float("kg")` raises, so it is rejected too.
   */
  predicate WeightValid(w: string) {
    w == "NaN"
    || (|w| > 3 && w[|w| - 3..] == " kg" && DecimalWithFraction(w[..|w| - 3])
        && w[0] != '-' && Mantissa(w[..|w| - 3]).Some? && Mantissa(w[..|w| - 3]).value > 0.0)
  }

  /**
   * `DailyRecord.model_validate`: non-negative amounts, `count` equal to the
   * number of entries, each sum equal to its field's total, a record date that
   * parses and is not after today, a valid weight, and, only when the record
   * date is today, entry times that parse and are not later than now.
   */
  predicate DailyRecordValid(b: Bucket, today: Date, now: Time) {
    && NonNegative(b)
    && Consistent(b)
    && ParseRecordDate(b.recordDate, today).Some?
    && !Before(today, ParseRecordDate(b.recordDate, today).value)
    && WeightValid(b.weight)
    && (ParseRecordDate(b.recordDate, today).value == today ==>
          forall i :: 0 <= i < |b.data| ==>
            ParseTime(b.data[i].time).Some? && !After(ParseTime(b.data[i].time).value, now))
  }

  /** A control key holding a value of the type `PatientData` declares for it. */
  predicate ControlTyped(o: Obj, k: string) {
    match o.Get(k)
    case Some(BoolV(_)) => k != "limitAmount"
    case Some(StrV(_)) => k == "limitAmount"
    case _ => false
  }

  /** A record key that `parse_date_key` accepts and that is not in the future. */
  predicate DateKeyNotFuture(k: string, today: Date) {
    ParseDateKey(k).Some? && !Before(today, ParseDateKey(k).value)
  }

  /**
   * `UpdateDataModel.model_validate`: every key but the four control keys is a
   * record key, which must be a date not after today and hold a valid daily
   * record; the four control keys must be present with their types.
   */
  predicate PatientDataValid(o: Obj, today: Date, now: Time) {
    && (forall k :: k in o.keys && !IsControlKey(k) ==> DateKeyNotFuture(k, today))
    && (forall k :: k in ControlKeys ==> ControlTyped(o, k))
    && (forall k :: k in o.keys && !IsControlKey(k) ==>
          o.Get(k).Some? && o.Get(k).value.BucketV? && DailyRecordValid(o.Get(k).value.bucket, today, now))
  }

  // ---------------------------------------------------------------- what the validators promise

  /** A valid daily record satisfies the bucket invariant. */
  lemma ValidIsConsistent(b: Bucket, today: Date, now: Time)
    requires DailyRecordValid(b, today, now)
    ensures Consistent(b) && NonNegative(b)
  {
  }

  /** A run of digits has no separator in it. */
  lemma DigitsNoSeparator(s: string)
    requires AllDigits(s)
    ensures '_' !in s && '/' !in s && ':' !in s
  {
    DigitsHaveNo(s, '_');
    DigitsHaveNo(s, '/');
    DigitsHaveNo(s, ':');
  }

  /** Three separator-free pieces joined by the separator split back into those pieces. */
  lemma SplitThree(a: string, b: string, c: string, sep: char)
    requires sep !in a && sep !in b && sep !in c
    ensures Split(a + [sep] + b + [sep] + c, sep) == [a, b, c]
  {
    assert a + [sep] + b + [sep] + c == a + [sep] + (b + [sep] + c);
    SplitFirst(a, sep, b + [sep] + c);
    SplitFirst(b, sep, c);
    SplitNone(c, sep);
  }

  lemma SplitTwo(a: string, b: string, sep: char)
    requires sep !in a && sep !in b
    ensures Split(a + [sep] + b, sep) == [a, b]
  {
    SplitFirst(a, sep, b);
    SplitNone(b, sep);
  }

  /** A key of three digit runs parses to the date their values make, if that is a calendar date. */
  lemma ParseDateKeyDigits(a: string, b: string, c: string)
    requires a != [] && b != [] && c != [] && AllDigits(a) && AllDigits(b) && AllDigits(c)
    ensures AllDigitsIn(a, 10) && AllDigitsIn(b, 10) && AllDigitsIn(c, 10)
    ensures var date := Date(RadixValue(a, 10), RadixValue(b, 10), RadixValue(c, 10));
      ParseDateKey(a + "_" + b + "_" + c) == if ValidDate(date) then Some(date) else None
  {
    DigitsNoSeparator(a);
    DigitsNoSeparator(b);
    DigitsNoSeparator(c);
    SplitThree(a, b, c, '_');
    PyIntOfDigits(a);
    PyIntOfDigits(b);
    PyIntOfDigits(c);
  }

  /** The date key the clients write parses back to its date exactly when the date is on the calendar. */
  lemma DateKeyParses(year: nat, month: nat, day: nat)
    requires day < 100
    ensures ParseDateKey(DateKey(year, month, day))
      == if ValidDate(Date(year, month, day)) then Some(Date(year, month, day)) else None
  {
    Pad2Value(day);
    NatToStringValue(year);
    NatToStringValue(month);
    ParseDateKeyDigits(NatToString(year), NatToString(month), Pad2(day));
  }

  /**
   * The backend's tests write the day unpadded. That key parses to the same
   * date, yet for a day below 10 it is a different key from the clients' one.
   */
  lemma UnpaddedKeySameDate(year: nat, month: nat, day: nat)
    requires ValidDate(Date(year, month, day)) && day < 10
    ensures ParseDateKey(NatToString(year) + "_" + NatToString(month) + "_" + NatToString(day)) == Some(Date(year, month, day))
    ensures NatToString(year) + "_" + NatToString(month) + "_" + NatToString(day) != DateKey(year, month, day)
  {
    NatToStringValue(year);
    NatToStringValue(month);
    NatToStringValue(day);
    ParseDateKeyDigits(NatToString(year), NatToString(month), NatToString(day));
    assert |NatToString(day)| == 1;
  }

  /** A key with two parts is rejected. */
  lemma TwoPartKeyRejected()
    ensures ParseDateKey("2024_5").None?
  {
    assert "2024_5" == "2024" + ['_'] + "5";
    DigitsNoSeparator("2024");
    DigitsNoSeparator("5");
    SplitTwo("2024", "5", '_');
  }

  /** The key the clients write for February 29th of a common year is rejected. */
  lemma CommonYearLeapDayRejected(year: nat)
    requires !IsLeap(year)
    ensures ParseDateKey(DateKey(year, 2, 29)).None?
  {
    DateKeyParses(year, 2, 29);
  }

  /** A thirteenth month is not a date. */
  lemma MonthThirteenRejected()
    ensures ParseDateKey("2024_13_01").None?
  {
    assert "2024_13_01" == "2024" + "_" + "13" + "_" + "01";
    ParseDateKeyDigits("2024", "13", "01");
    assert RadixValue("13", 10) == 13 by { assert "13"[..1] == "1" && "1"[..0] == []; }
  }

  /** A record date of two digit runs parses to that month and day of the current year, if that is a calendar date. */
  lemma ParseRecordDateDigits(a: string, b: string, today: Date)
    requires a != [] && b != [] && AllDigits(a) && AllDigits(b)
    ensures AllDigitsIn(a, 10) && AllDigitsIn(b, 10)
    ensures var date := Date(today.year, RadixValue(a, 10), RadixValue(b, 10));
      ParseRecordDate(a + "/" + b, today) == if ValidDate(date) then Some(date) else None
  {
    DigitsNoSeparator(a);
    DigitsNoSeparator(b);
    SplitTwo(a, b, '/');
    PyIntOfDigits(a);
    PyIntOfDigits(b);
  }

  /** The record date the patient client derives from a key, `month/day`, parses back in the current year. */
  lemma RecordDateParses(month: nat, day: nat, today: Date)
    requires ValidDate(Date(today.year, month, day))
    ensures ParseRecordDate(NatToString(month) + "/" + Pad2(day), today) == Some(Date(today.year, month, day))
  {
    Pad2Value(day);
    NatToStringValue(month);
    ParseRecordDateDigits(NatToString(month), Pad2(day), today);
  }

  /** The entry time the patient client writes parses back to its hour and minute. */
  lemma TimeTextParses(hour: nat, minute: nat)
    requires hour < 24 && minute < 60
    ensures ParseTime(TimeText(hour, minute)) == Some(Time(hour, minute))
  {
    var s := TimeText(hour, minute);
    assert |s| == 5 && s[2] == ':' && IsDigit(s[0]) && IsDigit(s[1]) && IsDigit(s[3]) && IsDigit(s[4])
      && DigitValue(s[0]) * 10 + DigitValue(s[1]) == hour && DigitValue(s[3]) * 10 + DigitValue(s[4]) == minute
    by {
      var h, m := Pad2(hour), Pad2(minute);
      Pad2Chars(hour);
      Pad2Chars(minute);
      assert s == h + ":" + m;
    }
    ParseTimeFive(s);
  }

  /** Five characters `HH:MM` naming an hour below 24 and a minute below 60 take both two-digit patterns. */
  lemma ParseTimeFive(s: string)
    requires |s| == 5 && s[2] == ':' && IsDigit(s[0]) && IsDigit(s[1]) && IsDigit(s[3]) && IsDigit(s[4])
    requires DigitValue(s[0]) * 10 + DigitValue(s[1]) < 24 && DigitValue(s[3]) * 10 + DigitValue(s[4]) < 60
    ensures ParseTime(s) == Some(Time(DigitValue(s[0]) * 10 + DigitValue(s[1]), DigitValue(s[3]) * 10 + DigitValue(s[4])))
  {
    assert (s[0] == '2' && '0' <= s[1] <= '3') || ((s[0] == '0' || s[0] == '1') && IsDigit(s[1]));
    assert '0' <= s[3] <= '5';
  }

  /** `%H:%M` rejects an hour past 23, a minute past 59, a missing colon and trailing text, and accepts single digits. */
  lemma TimeExamples()
    ensures ParseTime("24:00").None?
    ensures ParseTime("12:60").None?
    ensures ParseTime("1200").None?
    ensures ParseTime("12:5x").None?
    ensures ParseTime("7:5") == Some(Time(7, 5))
  {
  }

  /** A weight without a fractional part does not match the pattern. */
  lemma WholeWeightRejected()
    ensures !WeightValid("54 kg")
  {
    assert "54 kg"[..2] == "54";
    assert IndexOf("54", '.').None?;
  }

  lemma Mantissa545()
    ensures Mantissa("54.5") == Some(545.0 / 10.0)
  {
    var u := "54.5";
    assert IndexOf(u, '.') == Some(2);
    assert u[..2] == "54" && u[3..] == "5";
    assert ExponentIndex(u).None?;
    assert "54" + "5" == "545";
    assert RadixValue("545", 10) == 545 by {
      assert "545"[..2] == "54" && "54"[..1] == "5" && "5"[..0] == [];
    }
  }

  /** A positive weight with a fractional part, and the unset weight, pass. */
  lemma FractionalWeightAccepted()
    ensures WeightValid("54.5 kg") && WeightValid("NaN")
  {
    assert "54.5 kg"[..4] == "54.5";
    assert IndexOf("54.5", '.') == Some(2);
    assert "54.5"[..2] == "54" && "54.5"[3..] == "5";
    Mantissa545();
  }

  /**
   * A weight written `digits.digits kg` is valid exactly when its number is
   * above zero, that is when some digit is not `0`.
   */
  lemma DecimalWeightValid(w: string, f: string)
    requires w != [] && f != [] && AllDigits(w) && AllDigits(f)
    ensures AllDigitsIn(w + f, 10)
    ensures WeightValid(w + "." + f + " kg") <==> RadixValue(w + f, 10) > 0
  {
    var u := w + "." + f;
    var s := u + " kg";
    DotNumeralShape(w, f);
    AllDigitsInDecimal(w + f);
    assert s[..|s| - 3] == u && s[|s| - 3..] == " kg";
    assert s[0] == w[0] && IsDigit(w[0]);
    assert DecimalWithFraction(u);
    var v := RadixValue(w + f, 10);
    assert Mantissa(u) == Some(v as real / Pow10(|f|) as real);
    QuotientPositive(v, Pow10(|f|));
  }

  lemma QuotientPositive(v: nat, d: nat)
    requires d >= 1
    ensures v as real / d as real > 0.0 <==> v > 0
  {
    var q := v as real / d as real;
    assert q * d as real == v as real;
  }

  /** A zero weight is rejected. */
  lemma ZeroWeightRejected()
    ensures !WeightValid("0.0 kg")
  {
    DecimalWeightValid("0", "0");
    assert "0" + "." + "0" + " kg" == "0.0 kg";
    assert RadixValue("00", 10) == 0 by { assert "00"[..1] == "0" && "0"[..0] == []; }
  }

  /** A negative weight and the bare unit are rejected. */
  lemma NegativeOrBareWeightRejected()
    ensures !WeightValid("-1.5 kg") && !WeightValid(" kg")
  {
  }

  /** The weight the backend's tests store, `53.12 kg`, passes. */
  lemma TestWeightAccepted()
    ensures WeightValid("53.12 kg")
  {
    DecimalWeightValid("53", "12");
    assert "53" + "." + "12" + " kg" == "53.12 kg";
    assert RadixValue("5312", 10) > 0 by {
      assert "5312"[..3] == "531" && "531"[..2] == "53" && "53"[..1] == "5" && "5"[..0] == [];
    }
  }

  /** The weights the backend's tests expect to fail: `301 kg`, `-123 kg`, `??? kg` and `NaNN`. */
  lemma TestWeightsRejected()
    ensures !WeightValid("301 kg") && !WeightValid("-123 kg") && !WeightValid("??? kg") && !WeightValid("NaNN")
  {
    assert "301 kg"[..3] == "301";
    assert IndexOf("301", '.').None?;
    assert "??? kg"[..3] == "???";
    assert IndexOf("???", '.').None?;
  }

  /** No control key is a date key, so a date key never overwrites a control value. */
  lemma ControlKeysAreNotDates()
    ensures forall c :: IsControlKey(c) ==> ParseDateKey(c).None?
  {
    forall c | IsControlKey(c) ensures ParseDateKey(c).None? {
      assert c in ControlKeys;
      assert '_' !in c;
      SplitNone(c, '_');
    }
  }

  /** The key a client builds for today passes the record-key check. */
  lemma TodayKeyAccepted(today: Date)
    requires ValidDate(today)
    ensures DateKeyNotFuture(DateKey(today.year, today.month, today.day), today)
  {
    DateKeyParses(today.year, today.month, today.day);
  }

  /** The same day a year later is a future key, and the patient data holding it is rejected. */
  lemma NextYearKeyRejected(o: Obj, today: Date, now: Time)
    requires ValidDate(today) && ValidDate(Date(today.year + 1, today.month, today.day))
    requires DateKey(today.year + 1, today.month, today.day) in o.keys
    ensures !DateKeyNotFuture(DateKey(today.year + 1, today.month, today.day), today)
    ensures !PatientDataValid(o, today, now)
  {
    var k := DateKey(today.year + 1, today.month, today.day);
    NextYearKeyFuture(today);
    assert k in o.keys && !IsControlKey(k);
  }

  /** The key of the same day a year later parses, is after today, and is no control key. */
  lemma NextYearKeyFuture(today: Date)
    requires ValidDate(today) && ValidDate(Date(today.year + 1, today.month, today.day))
    ensures var k := DateKey(today.year + 1, today.month, today.day);
      !DateKeyNotFuture(k, today) && !IsControlKey(k)
  {
    var k := DateKey(today.year + 1, today.month, today.day);
    DateKeyParses(today.year + 1, today.month, today.day);
    assert ParseDateKey(k) == Some(Date(today.year + 1, today.month, today.day));
    ControlKeysAreNotDates();
  }

  /**
   * In a bucket dated today an entry later than now makes the record invalid,
   * even when everything else about it holds.
   */
  lemma LaterEntryRejected(b: Bucket, today: Date, now: Time, i: nat, hour: nat, minute: nat)
    requires ValidDate(today)
    requires b.recordDate == NatToString(today.month) + "/" + Pad2(today.day)
    requires i < |b.data| && hour < 24 && minute < 60 && b.data[i].time == TimeText(hour, minute)
    requires After(Time(hour, minute), now)
    ensures !DailyRecordValid(b, today, now)
  {
    RecordDateParses(today.month, today.day, today);
    TimeTextParses(hour, minute);
  }

  /** A bucket dated tomorrow is invalid. */
  lemma FutureRecordDateRejected(b: Bucket, today: Date, now: Time)
    requires ValidDate(today) && ValidDate(Date(today.year, today.month, today.day + 1))
    requires b.recordDate == NatToString(today.month) + "/" + Pad2(today.day + 1)
    ensures !DailyRecordValid(b, today, now)
  {
    RecordDateParses(today.month, today.day + 1, today);
  }
}
