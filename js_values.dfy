/**
 * The ECMAScript values the pipeline computes with besides strings: Numbers
 * (restricted to the integers that occur, plus NaN), the comparator rule of
 * `Array.prototype.sort`, `Number(string)`, Date values with `toUTCString`,
 * the ISO strings `JSON.stringify` writes for Dates, and `encodeURIComponent`.
 */
module JsValues {
  import opened Wrappers
  import opened JsStrings

  /** An ECMAScript Number: an integer, or NaN. */
  datatype Number = Finite(value: int) | NaN

  /** `a - b`. */
  function Subtract(a: Number, b: Number): (r: Number)
    ensures r.Finite? <==> a.Finite? && b.Finite?
    ensures r.Finite? ==> r.value + b.value == a.value
  {
    if a.Finite? && b.Finite? then Finite(a.value - b.value) else NaN
  }

  /** `a * b`. */
  function Multiply(a: Number, b: Number): Number
  {
    if a.Finite? && b.Finite? then Finite(a.value * b.value) else NaN
  }

  /**
   * How `Array.prototype.sort` reads a comparator's result (SortCompare,
   * section 23.1.3.30.2 of ECMA-262): a NaN result counts as +0, "equal".
   */
  function ComparatorResult(n: Number): (r: int)
    ensures n.NaN? ==> r == 0
    ensures n.Finite? ==> r == n.value
  {
    match n
    case NaN => 0
    case Finite(v) => v
  }

  // ---------------------------------------------------------------------------
  // Number(string)
  // ---------------------------------------------------------------------------

  predicate IsDigit(c: char)
  {
    '0' <= c <= '9'
  }

  predicate AllDigits(s: string)
  {
    forall i :: 0 <= i < |s| ==> IsDigit(s[i])
  }

  /** The value of a string of decimal digits. */
  function DecimalValue(s: string): (n: nat)
    requires AllDigits(s)
    decreases |s|
  {
    if s == [] then 0
    else DecimalValue(s[..|s| - 1]) * 10 + (s[|s| - 1] as int - '0' as int)
  }

  /**
   * `Number(s)` (StringToNumber): surrounding whitespace is ignored, a blank
   * string is 0, an optionally signed decimal integer is its value, and
   * anything else is NaN.
   */
  function StringToNumber(s: string): Number
  {
    var t := Trim(s);
    if t == [] then Finite(0)
    else if |t| > 1 && t[0] == '-' && AllDigits(t[1..]) then Finite(-(DecimalValue(t[1..]) as int))
    else if |t| > 1 && t[0] == '+' && AllDigits(t[1..]) then Finite(DecimalValue(t[1..]))
    else if AllDigits(t) then Finite(DecimalValue(t))
    else NaN
  }

  /** `Number(v)` for a value that is a string or `undefined` (which gives NaN). */
  function ToNumber(v: Option<string>): Number
  {
    match v
    case None => NaN
    case Some(s) => StringToNumber(s)
  }

  function DigitChar(d: int): char
    requires 0 <= d < 10
  {
    ('0' as int + d) as char
  }

  /** The decimal digits of `n`, as `String(n)` writes them. */
  function Digits(n: nat): (r: string)
    ensures r != [] && AllDigits(r)
    decreases n
  {
    if n < 10 then [DigitChar(n)] else Digits(n / 10) + [DigitChar(n % 10)]
  }

  lemma {:induction false} DecimalValueOfDigits(n: nat)
    ensures DecimalValue(Digits(n)) == n
    decreases n
  {
    if n >= 10 {
      DecimalValueOfDigits(n / 10);
      var d := Digits(n);
      assert d[..|d| - 1] == Digits(n / 10);
    }
  }

  lemma DigitsNotWhitespace(n: nat)
    ensures Trim(Digits(n)) == Digits(n)
  {
    var d := Digits(n);
    assert !IsWhitespace(d[0]) && !IsWhitespace(d[|d| - 1]);
    assert TrimStart(d) == d;
  }

  /** `Number(String(n)) == n` for every natural number. */
  lemma NumberOfDigits(n: nat)
    ensures StringToNumber(Digits(n)) == Finite(n)
  {
    DigitsNotWhitespace(n);
    DecimalValueOfDigits(n);
  }

  // ---------------------------------------------------------------------------
  // Dates
  // ---------------------------------------------------------------------------

  /** The largest absolute time value a Date can hold, in milliseconds. */
  const MaxTimeValue := 8_640_000_000_000_000

  /** TimeClip: the time value `new Date(n)` holds, or None for an Invalid Date. */
  function TimeClip(n: Number): (t: Option<int>)
    ensures t.Some? <==> n.Finite? && -MaxTimeValue <= n.value <= MaxTimeValue
    ensures t.Some? ==> t.value == n.value
  {
    if n.Finite? && -MaxTimeValue <= n.value <= MaxTimeValue then Some(n.value) else None
  }

  /**
   * A field that holds a Date: a Date object, or the ISO-8601 string that
   * `JSON.stringify` writes for one (through `Date.prototype.toJSON`). Both
   * keep the instant in milliseconds since the epoch; the string form is
   * taken to encode its instant exactly.
   */
  datatype DateField = DateObject(time: int) | IsoString(time: int)

  /**
   * The Number `date.valueOf()` contributes to a subtraction: a Date's time
   * value, but for a string its text, which `-` converts with StringToNumber:
   * an ISO date string is not a numeric literal, so it is NaN.
   */
  function ValueInSubtraction(d: DateField): (n: Number)
    ensures n.Finite? <==> d.DateObject?
  {
    match d
    case DateObject(t) => Finite(t)
    case IsoString(_) => NaN
  }

  /** What `JSON.stringify` writes for a Date field. */
  function DateToJson(d: DateField): (r: DateField)
    ensures r.IsoString? && r.time == d.time
  {
    IsoString(d.time)
  }

  /** `new Date(d)`: a Date again, with the same instant. */
  function ReviveDate(d: DateField): (r: DateField)
    ensures r.DateObject? && r.time == d.time
  {
    DateObject(d.time)
  }

  const MsPerDay := 86_400_000

  function WeekDayName(d: int): string
  {
    if d == 0 then "Sun" else if d == 1 then "Mon" else if d == 2 then "Tue"
    else if d == 3 then "Wed" else if d == 4 then "Thu" else if d == 5 then "Fri" else "Sat"
  }

  function MonthName(m: int): string
  {
    if m == 1 then "Jan" else if m == 2 then "Feb" else if m == 3 then "Mar"
    else if m == 4 then "Apr" else if m == 5 then "May" else if m == 6 then "Jun"
    else if m == 7 then "Jul" else if m == 8 then "Aug" else if m == 9 then "Sep"
    else if m == 10 then "Oct" else if m == 11 then "Nov" else "Dec"
  }

  /** The proleptic Gregorian (year, month, day) of a day count from 1970-01-01. */
  function CivilFromDays(days: int): (r: (int, int, nat))
  {
    var z := days + 719468;
    var era := z / 146097;
    var doe := z - era * 146097;
    var yoe := (doe - doe / 1460 + doe / 36524 - doe / 146096) / 365;
    var y := yoe + era * 400;
    var doy := doe - (365 * yoe + yoe / 4 - yoe / 100);
    var mp := (5 * doy + 2) / 153;
    var d := doy - (153 * mp + 2) / 5 + 1;
    var m := if mp < 10 then mp + 3 else mp - 9;
    (if m <= 2 then y + 1 else y, m, if d < 0 then 0 else d)
  }

  /** `n` in decimal, padded with zeros on the left to `width` digits. */
  function Padded(n: nat, width: nat): (r: string)
    ensures |r| >= width
  {
    var ds := Digits(n);
    if |ds| >= width then ds else seq(width - |ds|, _ => '0') + ds
  }

  /** The zeros `Padded` puts in front of the digits add nothing to their value. */
  lemma {:induction false} LeadingZerosValue(z: string, ds: string)
    requires forall i :: 0 <= i < |z| ==> z[i] == '0'
    requires AllDigits(ds)
    ensures AllDigits(z + ds) && DecimalValue(z + ds) == DecimalValue(ds)
    decreases |ds|
  {
    if ds == [] {
      assert z + ds == z;
      ZerosValue(z);
    } else {
      var init := ds[..|ds| - 1];
      assert (z + ds)[..|z + ds| - 1] == z + init;
      LeadingZerosValue(z, init);
    }
  }

  lemma {:induction false} ZerosValue(z: string)
    requires forall i :: 0 <= i < |z| ==> z[i] == '0'
    ensures AllDigits(z) && DecimalValue(z) == 0
    decreases |z|
  {
    if z != [] {
      ZerosValue(z[..|z| - 1]);
    }
  }

  /**
   * `Padded(n, width)` is a string of digits whose value is `n`, exactly
   * `width` long unless the digits of `n` are longer already.
   */
  lemma PaddedValue(n: nat, width: nat)
    ensures var r := Padded(n, width);
      && AllDigits(r) && DecimalValue(r) == n
      && |r| == (if |Digits(n)| >= width then |Digits(n)| else width)
  {
    var ds := Digits(n);
    DecimalValueOfDigits(n);
    if |ds| < width {
      var z: string := seq(width - |ds|, _ => '0');
      assert Padded(n, width) == z + ds;
      LeadingZerosValue(z, ds);
    } else {
      assert Padded(n, width) == ds;
    }
  }

  /** `date.toUTCString()`, with "Invalid Date" for an invalid Date. */
  function ToUtcString(t: Option<int>): string
  {
    match t
    case None => "Invalid Date"
    case Some(tv) =>
      var day := tv / MsPerDay;
      var ms: nat := tv % MsPerDay;
      var (y, m, d) := CivilFromDays(day);
      WeekDayName((day + 4) % 7) + ", " + Padded(d, 2) + " " + MonthName(m) + " "
        + (if y >= 0 then "" else "-") + Padded(if y >= 0 then y else -y, 4) + " "
        + Padded(ms / 3_600_000, 2) + ":" + Padded(ms / 60_000 % 60, 2) + ":"
        + Padded(ms / 1000 % 60, 2) + " GMT"
  }

  // ---------------------------------------------------------------------------
  // encodeURIComponent
  // ---------------------------------------------------------------------------

  /** The characters `encodeURIComponent` leaves alone. */
  predicate IsUriUnreserved(c: char)
  {
    || ('A' <= c <= 'Z') || ('a' <= c <= 'z') || ('0' <= c <= '9')
    || c == '-' || c == '_' || c == '.' || c == '!' || c == '~' || c == '*'
    || c == '\'' || c == '(' || c == ')'
  }

  predicate IsUpperHex(c: char)
  {
    ('0' <= c <= '9') || ('A' <= c <= 'F')
  }

  function HexChar(n: int): (c: char)
    requires 0 <= n < 16
    ensures IsUpperHex(c)
  {
    if n < 10 then ('0' as int + n) as char else ('A' as int + n - 10) as char
  }

  /** The UTF-8 bytes of a code point. */
  function Utf8(cp: nat): (bytes: seq<nat>)
    requires cp < 0x110000
    ensures forall i :: 0 <= i < |bytes| ==> bytes[i] < 256
  {
    if cp < 0x80 then [cp]
    else if cp < 0x800 then [0xC0 + cp / 64, 0x80 + cp % 64]
    else if cp < 0x10000 then [0xE0 + cp / 4096, 0x80 + cp / 64 % 64, 0x80 + cp % 64]
    else [0xF0 + cp / 262144, 0x80 + cp / 4096 % 64, 0x80 + cp / 64 % 64, 0x80 + cp % 64]
  }

  function PercentEncoded(bytes: seq<nat>): (r: string)
    requires forall i :: 0 <= i < |bytes| ==> bytes[i] < 256
    ensures forall i :: 0 <= i < |r| ==> r[i] == '%' || IsUpperHex(r[i])
  {
    if bytes == [] then []
    else ['%', HexChar(bytes[0] / 16), HexChar(bytes[0] % 16)] + PercentEncoded(bytes[1..])
  }

  /**
   * `encodeURIComponent(s)`: unreserved characters are kept and every other
   * character becomes the percent-escapes of its UTF-8 bytes.
   */
  function EncodeUriComponent(s: string): (r: string)
    ensures forall i :: 0 <= i < |r| ==> IsUriUnreserved(r[i]) || r[i] == '%'
    ensures |r| >= |s|
    ensures (forall i :: 0 <= i < |s| ==> IsUriUnreserved(s[i])) ==> r == s
  {
    if s == [] then []
    else
      (if IsUriUnreserved(s[0]) then [s[0]] else PercentEncoded(Utf8(s[0] as nat)))
        + EncodeUriComponent(s[1..])
  }
}
