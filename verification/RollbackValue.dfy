/** Rendering and parsing rollback indices as hexadecimal, decimal, and UTC dates. Text is ASCII. */
module RollbackValue {
  import opened Wrappers
  import opened Calendar

  datatype Format = Raw | Unix | Date

  datatype ParseError = MissingPrefix | BadHex | BadDecimal | DateShape | DateValue

  const SECONDS_PER_DAY: nat := 86_400
  const I64_MAX: nat := 0x7FFF_FFFF_FFFF_FFFF
  /** The last year the date library represents. */
  const LAST_YEAR: nat := 262_142

  // ---------------------------------------------------------------- digits

  function DigitChar(v: nat): (c: char)
    requires v < 16
  {
    if v < 10 then ('0' as int + v) as char else ('A' as int + (v - 10)) as char
  }

  /** The value of a digit in a radix, either case; anything else is not a digit. */
  function DigitValue(c: char, radix: nat): (v: Option<nat>)
    ensures v.Some? ==> v.value < radix
  {
    var v := if '0' <= c <= '9' then c as int - '0' as int
             else if 'a' <= c <= 'z' then c as int - 'a' as int + 10
             else if 'A' <= c <= 'Z' then c as int - 'A' as int + 10
             else 36;
    if v < radix then Some(v) else None
  }

  lemma DigitRoundTrip(v: nat, radix: nat)
    requires v < radix && (radix == 10 || radix == 16)
    ensures DigitValue(DigitChar(v), radix) == Some(v)
    ensures '0' <= DigitChar(v) <= '9' || 'A' <= DigitChar(v) <= 'F'
  {
  }

  function Rest(n: nat, radix: nat): (q: nat)
    requires radix == 10 || radix == 16
    ensures n >= radix ==> q < n
  {
    if radix == 16 then n / 16 else n / 10
  }

  function LastDigit(n: nat, radix: nat): (r: nat)
    requires radix == 10 || radix == 16
    ensures r < radix
  {
    if radix == 16 then n % 16 else n % 10
  }

  lemma RestAndLast(n: nat, radix: nat)
    requires radix == 10 || radix == 16
    ensures Rest(n, radix) * radix + LastDigit(n, radix) == n
  {
    if radix == 16 { assert n / 16 * 16 + n % 16 == n; } else { assert n / 10 * 10 + n % 10 == n; }
  }

  /** The digits of a number, most significant first, without leading zeros. */
  function Digits(n: nat, radix: nat): (s: string)
    requires radix == 10 || radix == 16
    ensures s != ""
  {
    if n < radix then [DigitChar(n)] else Digits(Rest(n, radix), radix) + [DigitChar(LastDigit(n, radix))]
  }

  /** The value of a nonempty digit string, or nothing if some character is not a digit. */
  function DigitsValue(s: string, radix: nat): Option<nat>
    requires radix >= 2
  {
    if s == "" then None
    else
      var n := |s| - 1;
      match (DigitValue(s[n], radix), if n == 0 then Some(0) else DigitsValue(s[..n], radix))
      case (Some(v), Some(high)) => Some(high * radix + v)
      case _ => None
  }

  lemma DigitsValueSnoc(s: string, c: char, radix: nat)
    requires radix >= 2 && s != "" && DigitsValue(s, radix).Some? && DigitValue(c, radix).Some?
    ensures DigitsValue(s + [c], radix) == Some(DigitsValue(s, radix).value * radix + DigitValue(c, radix).value)
  {
    assert (s + [c])[..|s|] == s;
  }

  lemma {:induction false} DigitsRoundTrip(n: nat, radix: nat)
    requires radix == 10 || radix == 16
    ensures DigitsValue(Digits(n, radix), radix) == Some(n)
  {
    if n < radix {
      DigitRoundTrip(n, radix);
      assert Digits(n, radix) == [DigitChar(n)];
    } else {
      var q, r := Rest(n, radix), LastDigit(n, radix);
      DigitsRoundTrip(q, radix);
      DigitRoundTrip(r, radix);
      DigitsValueSnoc(Digits(q, radix), DigitChar(r), radix);
      RestAndLast(n, radix);
    }
  }

  lemma {:induction false} DigitsAreDigits(n: nat, radix: nat)
    requires radix == 10 || radix == 16
    ensures forall i :: 0 <= i < |Digits(n, radix)| ==>
              '0' <= Digits(n, radix)[i] <= '9' || 'A' <= Digits(n, radix)[i] <= 'F'
  {
    if n < radix {
      DigitRoundTrip(n, radix);
    } else {
      DigitRoundTrip(LastDigit(n, radix), radix);
      DigitsAreDigits(Rest(n, radix), radix);
    }
  }

  /** Rust's integer parsing: an optional sign, digits, and a range check. */
  function ParseUnsigned(s: string, radix: nat, max: nat): Option<nat>
    requires radix >= 2
  {
    var body := if s != "" && s[0] == '+' then s[1..] else s;
    match DigitsValue(body, radix)
    case Some(v) => if v <= max then Some(v) else None
    case None => None
  }

  function ParseSigned(s: string): Option<int> {
    if s != "" && s[0] == '-' then
      var v := DigitsValue(s[1..], 10);
      if v.Some? && v.value <= 0x8000_0000 then Negated(v.value) else None
    else
      ParseUnsigned(s, 10, 0x7FFF_FFFF)
  }

  function Negated(n: int): Option<int> { Some(-n) }

  // ---------------------------------------------------------------- trimming

  predicate IsSpace(c: char) {
    c == ' ' || '\t' <= c <= '\r'
  }

  function TrimStart(s: string): string {
    if s != "" && IsSpace(s[0]) then TrimStart(s[1..]) else s
  }

  function TrimEnd(s: string): string {
    if s != "" && IsSpace(s[|s| - 1]) then TrimEnd(s[..|s| - 1]) else s
  }

  function Trim(s: string): string { TrimEnd(TrimStart(s)) }

  // ---------------------------------------------------------------- dates

  function Pad2(n: nat): string
    requires n < 100
  {
    [DigitChar(n / 10), DigitChar(n % 10)]
  }

  function Pad4(n: nat): string
    requires n < 10000
  {
    Pad2(n / 100) + Pad2(n % 100)
  }

  /** A date as the library prints it: four digits, or a sign and as many as needed. */
  function DateText(d: Civil): string
    requires IsDate(d) && d.year >= 0
  {
    (if d.year < 10000 then Pad4(d.year) else "+" + Digits(d.year, 10)) + "-" + Pad2(d.month) + "-" + Pad2(d.day)
  }

  /** The day containing a timestamp, if the library represents it. */
  ghost function DayOf(index: nat): Option<Civil> {
    if index > I64_MAX
        || DateOf(index / SECONDS_PER_DAY).year > LAST_YEAR then None else Some(DateOf(index / SECONDS_PER_DAY))
  }

  ghost function Render(f: Format, index: U64): string {
    match f
    case Raw => "0x" + Digits(index, 16)
    case Unix => Digits(index, 10)
    case Date =>
      DayNumberOfDateOf(index / SECONDS_PER_DAY);
      match DayOf(index)
      case Some(d) => DateText(d)
      case None => Digits(index, 10)
  }

  /** Days since the epoch of a civil date, or nothing for an impossible one. */
  function DaysFromCivil(year: int, month: int, day: int): (r: Option<int>)
    ensures r.Some? <==> IsDate(Civil(year, month, day))
    ensures r.Some? ==> r.value == DayNumber(Civil(year, month, day))
  {
    var d := Civil(year, month, day);
    if IsDate(d) then Some(DayNumber(d)) else None
  }

  function ParseDate(s: string): Result<U64, ParseError> {
    if |s| != 10 || s[4] != '-' || s[7] != '-' then Err(DateShape)
    else
      match ParseSigned(s[..4])
      case None => Err(DateValue)
      case Some(year) =>
        match ParseUnsigned(s[5..7], 10, 0xFFFF_FFFF)
        case None => Err(DateValue)
        case Some(month) =>
          if !(1 <= month <= 12) then Err(DateValue)
          else
            match ParseUnsigned(s[8..10], 10, 0xFFFF_FFFF)
            case None => Err(DateValue)
            case Some(day) =>
              if !(1 <= day <= 31) then Err(DateValue)
              else
                match DaysFromCivil(year, month, day)
                case None => Err(DateValue)
                case Some(days) =>
                  if 0 <= days * SECONDS_PER_DAY <= U64_MAX then Ok(days * SECONDS_PER_DAY) else Err(DateValue)
  }

  function Parse(f: Format, input: string): Result<U64, ParseError> {
    var s := Trim(input);
    match f
    case Raw =>
      if !("0x" <= s || "0X" <= s) then Err(MissingPrefix)
      else
        (match ParseUnsigned(s[2..], 16, U64_MAX)
         case Some(v) => Ok(v)
         case None => Err(BadHex))
    case Unix =>
      (match ParseUnsigned(s, 10, U64_MAX)
       case Some(v) => Ok(v)
       case None => Err(BadDecimal))
    case Date => ParseDate(s)
  }

  // ---------------------------------------------------------------- round trips

  lemma TrimNothing(s: string)
    requires s != "" && !IsSpace(s[0]) && !IsSpace(s[|s| - 1])
    ensures Trim(s) == s
  {
  }

  lemma DigitsTrimmed(n: nat, radix: nat)
    requires radix == 10 || radix == 16
    ensures Trim(Digits(n, radix)) == Digits(n, radix)
    ensures ParseUnsigned(Digits(n, radix), radix, n) == Some(n)
  {
    DigitsRoundTrip(n, radix);
    DigitsAreDigits(n, radix);
    TrimNothing(Digits(n, radix));
  }

  /** Hexadecimal: parsing what was rendered gives the index back, for every 64-bit value. */
  lemma RawRoundTrip(index: U64)
    ensures Parse(Raw, Render(Raw, index)) == Ok(index)
  {
    var digits := Digits(index, 16);
    var s := "0x" + digits;
    DigitsAreDigits(index, 16);
    DigitsTrimmed(index, 16);
    TrimNothing(s);
    assert s[2..] == digits;
    assert "0x" <= s;
  }

  lemma UnixRoundTrip(index: U64)
    ensures Parse(Unix, Render(Unix, index)) == Ok(index)
  {
    DigitsAreDigits(index, 10);
    DigitsTrimmed(index, 10);
  }

  lemma Pad2Value(n: nat)
    requires n < 100
    ensures DigitsValue(Pad2(n), 10) == Some(n)
    ensures |Pad2(n)| == 2 && '0' <= Pad2(n)[0] <= '9' && '0' <= Pad2(n)[1] <= '9'
  {
    var s := Pad2(n);
    DigitRoundTrip(n / 10, 10);
    DigitRoundTrip(n % 10, 10);
    assert s[..1] == [s[0]];
    assert DigitsValue(s[..1], 10) == Some(n / 10);
  }

  lemma Pad4Value(n: nat)
    requires n < 10000
    ensures DigitsValue(Pad4(n), 10) == Some(n)
    ensures |Pad4(n)| == 4 && '0' <= Pad4(n)[0] <= '9'
  {
    var s := Pad4(n);
    var high, low := n / 100, n % 100;
    Pad2Value(high);
    DigitRoundTrip(low / 10, 10);
    DigitRoundTrip(low % 10, 10);
    assert s[..3][..2] == Pad2(high);
    assert DigitsValue(s[..3], 10) == Some(high * 10 + low / 10);
  }

  /** A four-digit year's text is read back field by field. */
  lemma DateTextParses(d: Civil)
    requires IsDate(d) && 1970 <= d.year < 10000 && DayNumber(d) >= 0 && DayNumber(d) * SECONDS_PER_DAY <= U64_MAX
    ensures Trim(DateText(d)) == DateText(d)
    ensures ParseDate(DateText(d)) == Ok(DayNumber(d) * SECONDS_PER_DAY)
  {
    var s := DateText(d);
    Pad4Value(d.year);
    Pad2Value(d.month);
    Pad2Value(d.day);
    assert s[..4] == Pad4(d.year) && s[5..7] == Pad2(d.month) && s[8..10] == Pad2(d.day);
    assert s[4] == '-' && s[7] == '-' && s[0] == Pad4(d.year)[0] && s[9] == Pad2(d.day)[1];
    TrimNothing(s);
  }

  /** Dates: a four-digit year gives exactly the start of that UTC day; anything later is refused, so no index is ever
      read back as a different day. */
  lemma DateRoundTrip(index: U64)
    ensures DateOf(index / SECONDS_PER_DAY).year < 10000 ==>
              Parse(Date, Render(Date, index)) == Ok(index / SECONDS_PER_DAY * SECONDS_PER_DAY)
    ensures DateOf(index / SECONDS_PER_DAY).year >= 10000 ==> Parse(Date, Render(Date, index)).Err?
  {
    var days := index / SECONDS_PER_DAY;
    var d := DateOf(days);
    DayNumberOfDateOf(days);
    YearBound(days);
    if d.year < 10000 {
      DateTextParses(d);
    } else if DayOf(index).Some? {
      LongDateRefused(d);
    } else {
      DigitsRefused(index);
    }
  }

  /** The last four-digit year ends with day 2932896; every index in it is far below the signed limit. */
  lemma YearBound(days: nat)
    ensures DateOf(days).year < 10000 <==> days < 2_932_897
  {
    var limit := Civil(10000, 1, 1);
    assert DayNumber(limit) == 2_932_897;
    var d := DateOf(days);
    DayNumberOfDateOf(days);
    if d.year < 10000 {
      DayNumberIncreases(d, limit);
    } else if d != limit {
      DayNumberIncreases(limit, d);
    }
  }

  lemma LongDateRefused(d: Civil)
    requires IsDate(d) && d.year >= 10000
    ensures Parse(Date, DateText(d)) == Err(DateShape)
  {
    var s := DateText(d);
    LongDigits(d.year);
    Pad2Value(d.day);
    assert s[0] == '+' && s[|s| - 1] == Pad2(d.day)[1];
    TrimNothing(s);
  }

  lemma LongDigits(n: nat)
    requires n >= 10000
    ensures |Digits(n, 10)| >= 5
  {
    assert n / 10 >= 1000 && n / 10 / 10 >= 100 && n / 10 / 10 / 10 >= 10;
    assert |Digits(n / 10 / 10 / 10, 10)| >= 2;
    assert |Digits(n / 10 / 10, 10)| >= 3;
    assert |Digits(n / 10, 10)| >= 4;
  }

  lemma DigitsRefused(n: nat)
    ensures Parse(Date, Digits(n, 10)) == Err(DateShape)
  {
    DigitsAreDigits(n, 10);
    DigitsTrimmed(n, 10);
    var s := Digits(n, 10);
    assert |s| == 10 ==> s[4] != '-';
  }

  /** The date a text of the right shape spells, field by field. */
  function Spelled(s: string): Option<Civil>
    requires |s| == 10
  {
    var year, month, day := ParseSigned(s[..4]), ParseUnsigned(s[5..7], 10, 0xFFFF_FFFF),
        ParseUnsigned(s[8..10], 10, 0xFFFF_FFFF);
    if year.Some? && month.Some? && day.Some? then Some(Civil(year.value, month.value, day.value)) else None
  }

  lemma SpelledDecides(s: string)
    ensures ParseDate(s).Ok? ==> |s| == 10 && Spelled(s).Some? && IsDate(Spelled(s).value)
                                 && DayNumber(Spelled(s).value) * SECONDS_PER_DAY == ParseDate(s).value
  {
  }

  /** Whatever text is accepted as a date names a real day from 1970 on, by its own three fields, and the value is the
      start of that day. */
  lemma AcceptedDateIsThatDay(input: string, index: U64)
    requires Parse(Format.Date, input) == Ok(index)
    ensures |Trim(input)| == 10 && Spelled(Trim(input)).Some?
    ensures IsDate(Spelled(Trim(input)).value) && Spelled(Trim(input)).value.year >= 1970
    ensures index % SECONDS_PER_DAY == 0 && DateOf(index / SECONDS_PER_DAY) == Spelled(Trim(input)).value
  {
    hide Spelled, ParseDate, Trim, DayNumber, DateOf, IsDate;
    SpelledDecides(Trim(input));
    var d := Spelled(Trim(input)).value;
    assert DayNumber(d) >= 0;
    NegativeBeforeEpoch(d);
    DateOfDayNumber(d);
  }
}
