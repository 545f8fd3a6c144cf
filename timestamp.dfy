/**
 * `getTimeStamp` (moonsla.go) and the clock shown beside each message:
 * Go's `strconv.ParseInt(s, 10, 64)` on the part of the Slack timestamp
 * before the first '.', `time.Unix`, and the "%02d:%02d:%02d" time of day,
 * with "00:00:00" when the timestamp does not parse.
 */
module Timestamps {
  import opened Wrappers
  import opened GoStrings

  /** The two errors `strconv` reports: a malformed number, or one out of range. */
  datatype NumError = Syntax | Range

  datatype Parsed = Ok(value: int) | Err(error: NumError)

  const MaxUint64: nat := 0x1_0000_0000_0000_0000 - 1
  /** `strconv`'s bound beyond which multiplying by ten overflows 64 bits. */
  const Cutoff: nat := MaxUint64 / 10 + 1
  /** 1 << 63: the int64 range is [-Int64Bound, Int64Bound - 1]. */
  const Int64Bound: nat := 0x8000_0000_0000_0000

  predicate IsDigit(c: char)
  {
    '0' <= c <= '9'
  }

  predicate AllDigits(s: string)
  {
    forall k :: 0 <= k < |s| ==> IsDigit(s[k])
  }

  function DigitValue(c: char): (d: nat)
    requires IsDigit(c)
    ensures d < 10
  {
    c as int - '0' as int
  }

  function DigitChar(d: nat): (c: char)
    requires d < 10
    ensures IsDigit(c) && DigitValue(c) == d
  {
    ('0' as int + d) as char
  }

  function Pow10(n: nat): (p: nat)
    ensures p >= 1
  {
    if n == 0 then 1 else 10 * Pow10(n - 1)
  }

  /** The positional value of a string of digits, most significant first. */
  function Value(s: string): nat
    requires AllDigits(s)
  {
    if s == [] then 0 else Value(s[..|s| - 1]) * 10 + DigitValue(s[|s| - 1])
  }

  /**
   * The digit loop of `ParseUint` from accumulator `n`: a non-digit is a syntax
   * error; an accumulator at or past the cutoff, or a step past the largest
   * uint64, is a range error; each is reported as soon as it is met.
   */
  function Accumulate(s: string, n: nat): Parsed
    requires n <= MaxUint64
    decreases |s|
  {
    if s == [] then Ok(n)
    else if !IsDigit(s[0]) then Err(Syntax)
    else if n >= Cutoff then Err(Range)
    else
      var n1 := n * 10 + DigitValue(s[0]);
      if n1 > MaxUint64 then Err(Range) else Accumulate(s[1..], n1)
  }

  /** `strconv.ParseUint(s, 10, 64)`. */
  function ParseUint(s: string): Parsed
  {
    if s == [] then Err(Syntax) else Accumulate(s, 0)
  }

  /** `strconv.ParseInt(s, 10, 64)`: an optional sign, then `ParseUint` and the int64 range check. */
  function ParseInt(s: string): Parsed
  {
    if s == [] then Err(Syntax)
    else
      var neg := s[0] == '-';
      var body := if s[0] == '+' || s[0] == '-' then s[1..] else s;
      match ParseUint(body)
      case Err(e) => Err(e)
      case Ok(un) =>
        if !neg && un >= Int64Bound then Err(Range)
        else if neg && un > Int64Bound then Err(Range)
        else Ok(if neg then -un else un)
  }

  /** A decimal integer as ParseInt accepts it: an optional sign and at least one digit. */
  predicate IsInteger(s: string)
  {
    var body := if s != [] && (s[0] == '+' || s[0] == '-') then s[1..] else s;
    body != [] && AllDigits(body)
  }

  /** The value of such an integer. */
  function IntegerValue(s: string): int
    requires IsInteger(s)
  {
    if s[0] == '-' then -(Value(s[1..]) as int) else if s[0] == '+' then Value(s[1..]) else Value(s)
  }

  predicate InInt64(i: int)
  {
    -(Int64Bound as int) <= i < Int64Bound
  }

  /** One more trailing digit shifts the value left by one place. */
  lemma ValueSnoc(s: string, c: char)
    requires AllDigits(s + [c])
    ensures AllDigits(s) && IsDigit(c)
    ensures Value(s + [c]) == Value(s) * 10 + DigitValue(c)
  {
    assert (s + [c])[..|s + [c]| - 1] == s;
    assert (s + [c])[|s|] == c;
    assert forall k :: 0 <= k < |s| ==> s[k] == (s + [c])[k];
  }

  /** The leading digit is worth its value times ten to the number of digits after it. */
  lemma {:induction false} ValueFront(s: string)
    requires s != [] && AllDigits(s)
    ensures AllDigits(s[1..])
    ensures Value(s) == DigitValue(s[0]) * Pow10(|s| - 1) + Value(s[1..])
    decreases |s|
  {
    assert forall k :: 0 <= k < |s[1..]| ==> s[1..][k] == s[k + 1];
    if |s| > 1 {
      var init := s[..|s| - 1];
      assert forall k :: 0 <= k < |init| ==> init[k] == s[k];
      ValueFront(init);
      assert init[1..] == s[1..][..|s[1..]| - 1];
      assert init[0] == s[0] && s[1..][|s[1..]| - 1] == s[|s| - 1];
      var d, p, rest := DigitValue(s[0]), Pow10(|init| - 1), Value(init[1..]);
      assert Value(s) == (d * p + rest) * 10 + DigitValue(s[|s| - 1]);
      assert Value(s[1..]) == rest * 10 + DigitValue(s[|s| - 1]);
      assert Pow10(|s| - 1) == 10 * p;
      ScaleDigit(d, p, rest, DigitValue(s[|s| - 1]));
    } else {
      assert s[..|s| - 1] == [];
    }
  }

  /** What the digit loop reads from accumulator `n` over the digits `s`. */
  function Read(n: nat, s: string): nat
    requires AllDigits(s)
  {
    n * Pow10(|s|) + Value(s)
  }

  /** Reading the first digit into the accumulator does not change what is read. */
  lemma ReadFront(n: nat, s: string)
    requires s != [] && AllDigits(s)
    ensures AllDigits(s[1..])
    ensures Read(n, s) == Read(n * 10 + DigitValue(s[0]), s[1..])
    ensures Read(n, s) >= n * 10 + DigitValue(s[0])
  {
    ValueFront(s);
    assert Pow10(|s|) == 10 * Pow10(|s| - 1);
    ShiftIn(n, DigitValue(s[0]), Pow10(|s| - 1), Value(s[1..]));
  }

  /** Moving a trailing digit in under a leading digit's weight. */
  lemma ScaleDigit(d: nat, p: nat, rest: nat, e: nat)
    ensures (d * p + rest) * 10 + e == d * (10 * p) + (rest * 10 + e)
  {
  }

  lemma ShiftIn(n: nat, d: nat, p: nat, a: nat)
    requires p >= 1
    ensures n * (10 * p) + (d * p + a) == (n * 10 + d) * p + a
    ensures (n * 10 + d) * p + a >= n * 10 + d
  {
    var m := n * 10 + d;
    assert m * p == m + m * (p - 1);
  }

  /** On digits whose reading fits in uint64 the loop yields that reading. */
  lemma {:induction false} AccumulateOk(s: string, n: nat)
    requires AllDigits(s) && Read(n, s) <= MaxUint64
    ensures n <= MaxUint64 && Accumulate(s, n) == Ok(Read(n, s))
    decreases |s|
  {
    if s == [] {
      assert Read(n, s) == n;
    } else {
      ReadFront(n, s);
      AccumulateOk(s[1..], n * 10 + DigitValue(s[0]));
    }
  }

  /** On anything else the loop fails. */
  lemma {:induction false} AccumulateErr(s: string, n: nat)
    requires n <= MaxUint64
    requires !AllDigits(s) || Read(n, s) > MaxUint64
    ensures Accumulate(s, n).Err?
    decreases |s|
  {
    if s != [] && IsDigit(s[0]) && n < Cutoff && n * 10 + DigitValue(s[0]) <= MaxUint64 {
      var rest := s[1..];
      if AllDigits(rest) {
        assert AllDigits(s) by {
          assert forall k :: 1 <= k < |s| ==> s[k] == rest[k - 1];
        }
        ReadFront(n, s);
      }
      AccumulateErr(rest, n * 10 + DigitValue(s[0]));
    }
  }

  /** `ParseUint` accepts exactly the non-empty digit strings of value at most 2^64 - 1. */
  lemma ParseUintMeaning(s: string)
    ensures ParseUint(s).Ok? <==> s != [] && AllDigits(s) && Value(s) <= MaxUint64
    ensures ParseUint(s).Ok? ==> ParseUint(s).value == Value(s)
  {
    if s != [] {
      if AllDigits(s) && Read(0, s) <= MaxUint64 {
        AccumulateOk(s, 0);
      } else {
        AccumulateErr(s, 0);
      }
      if AllDigits(s) {
        assert Read(0, s) == Value(s);
      }
    }
  }

  /**
   * `ParseInt` accepts exactly the decimal integers in the int64 range, and
   * yields their value.
   */
  lemma ParseIntMeaning(s: string)
    ensures ParseInt(s).Ok? <==> IsInteger(s) && InInt64(IntegerValue(s))
    ensures ParseInt(s).Ok? ==> ParseInt(s).value == IntegerValue(s)
  {
    if s != [] {
      var body := if s[0] == '+' || s[0] == '-' then s[1..] else s;
      ParseUintMeaning(body);
    }
  }

  /** The decimal digits of a natural number, without leading zeros. */
  function Digits(n: nat): (s: string)
    ensures s != [] && AllDigits(s) && Value(s) == n
  {
    if n < 10 then assert [DigitChar(n)][..0] == []; [DigitChar(n)]
    else
      var init := Digits(n / 10);
      var s := init + [DigitChar(n % 10)];
      assert AllDigits(s) by {
        assert forall k :: 0 <= k < |init| ==> s[k] == init[k];
      }
      ValueSnoc(init, DigitChar(n % 10));
      s
  }

  /** `strconv.FormatInt(i, 10)`: a '-' for negatives, then the digits. */
  function Decimal(i: int): string
  {
    if i < 0 then "-" + Digits(-i) else Digits(i)
  }

  /** Printing an int64 and parsing it back gives the same number. */
  lemma ParseDecimal(i: int)
    requires InInt64(i)
    ensures ParseInt(Decimal(i)) == Ok(i)
  {
    var s := Decimal(i);
    if i < 0 {
      assert s[1..] == Digits(-i);
    } else {
      assert IsDigit(s[0]);
    }
    ParseIntMeaning(s);
  }

  /** What `getTimeStamp` returns: Unix seconds (0 on failure) and the parse error, if any. */
  datatype TimeStamp = TimeStamp(unix: int, err: Option<NumError>)

  /** `getTimeStamp`: ParseInt on the text before the first '.'. */
  function GetTimeStamp(ts: string): (r: TimeStamp)
    ensures r.err.None? <==> ParseInt(Split(ts, '.')[0]).Ok?
    ensures r.err.Some? ==> r.unix == 0
  {
    match ParseInt(Split(ts, '.')[0])
    case Ok(i) => TimeStamp(i, None)
    case Err(e) => TimeStamp(0, Some(e))
  }

  /** Only the text before the first '.' matters. */
  lemma StampPrefix(p: string, rest: string)
    requires '.' !in p
    ensures GetTimeStamp(p + "." + rest) == GetTimeStamp(p)
  {
    IndexAfter(p, '.', rest);
    IndexAbsent(p, '.');
    assert (p + "." + rest)[..|p|] == p;
  }

  /** A Slack timestamp made of printed int64 seconds, a '.' and anything reads back as those seconds. */
  lemma StampOfDecimal(secs: int, fraction: string)
    requires InInt64(secs)
    ensures GetTimeStamp(Decimal(secs) + "." + fraction) == TimeStamp(secs, None)
  {
    var p := Decimal(secs);
    ParseDecimal(secs);
    assert '.' !in p by {
      assert forall k :: 0 <= k < |p| ==> p[k] == '-' || IsDigit(p[k]);
    }
    StampPrefix(p, fraction);
    IndexAbsent(p, '.');
  }

  /**
   * A timestamp is read exactly when its seconds part is a decimal integer in
   * the int64 range; the time is then those seconds.
   */
  lemma StampMeaning(ts: string)
    ensures var secs := Split(ts, '.')[0];
      (GetTimeStamp(ts).err.None? <==> IsInteger(secs) && InInt64(IntegerValue(secs)))
      && (GetTimeStamp(ts).err.None? ==> GetTimeStamp(ts).unix == IntegerValue(secs))
  {
    ParseIntMeaning(Split(ts, '.')[0]);
  }

  const SecondsPerDay := 86400

  /** Two digits, zero padded, as "%02d" prints a number below 100. */
  function Pad2(n: nat): (s: string)
    requires n < 100
    ensures |s| == 2 && AllDigits(s) && Value(s) == n
  {
    var hi := [DigitChar(n / 10)];
    var s := hi + [DigitChar(n % 10)];
    assert hi[..0] == [] && Value(hi) == n / 10;
    ValueSnoc(hi, DigitChar(n % 10));
    s
  }

  /** "%02d:%02d:%02d" of the hour, minute and second of local time `x` (seconds, zone offset included). */
  function Clock(x: int): string
  {
    var day := x % SecondsPerDay;
    Pad2(day / 3600) + ":" + Pad2(day % 3600 / 60) + ":" + Pad2(day % 60)
  }

  /**
   * The clock is eight characters "HH:MM:SS", and reading its fields back
   * gives the second of the day.
   */
  lemma ClockFields(x: int)
    ensures var c := Clock(x);
      |c| == 8 && c[2] == ':' && c[5] == ':'
      && AllDigits(c[..2]) && AllDigits(c[3..5]) && AllDigits(c[6..])
      && Value(c[..2]) < 24 && Value(c[3..5]) < 60 && Value(c[6..]) < 60
      && Value(c[..2]) * 3600 + Value(c[3..5]) * 60 + Value(c[6..]) == x % SecondsPerDay
  {
    var day := x % SecondsPerDay;
    DayParts(day);
    var h, m, s := Pad2(day / 3600), Pad2(day % 3600 / 60), Pad2(day % 60);
    var c := Clock(x);
    assert c == h + ":" + m + ":" + s;
    assert |h| == 2 && |m| == 2 && |s| == 2;
    assert c[..2] == h;
    assert c[3..5] == m;
    assert c[6..] == s;
  }

  /** A second of the day splits into hours, minutes and seconds in range. */
  lemma DayParts(day: int)
    requires 0 <= day < SecondsPerDay
    ensures day / 3600 < 24 && day % 3600 / 60 < 60 && day % 60 < 60
    ensures day / 3600 * 3600 + day % 3600 / 60 * 60 + day % 60 == day
  {
    assert day % 3600 == day % 3600 / 60 * 60 + day % 60;
  }

  /** The clock repeats every day. */
  lemma ClockDaily(x: int, days: int)
    ensures Clock(x + days * SecondsPerDay) == Clock(x)
  {
    assert (x + days * SecondsPerDay) % SecondsPerDay == x % SecondsPerDay;
  }

  /** The time shown for a message: its clock in the given zone, or "00:00:00" if the timestamp does not parse. */
  function ShownTime(ts: string, offset: int): (r: string)
    ensures GetTimeStamp(ts).err.Some? ==> r == "00:00:00"
  {
    var t := GetTimeStamp(ts);
    if t.err.None? then Clock(t.unix + offset) else "00:00:00"
  }

  /**
   * A timestamp that parses is shown as the clock `HH:MM:SS` of its seconds
   * plus the offset, taken modulo one day.
   */
  lemma ShownTimeFields(ts: string, offset: int)
    requires GetTimeStamp(ts).err.None?
    ensures var secs, c := Split(ts, '.')[0], ShownTime(ts, offset);
      IsInteger(secs) && InInt64(IntegerValue(secs))
      && |c| == 8 && c[2] == ':' && c[5] == ':'
      && AllDigits(c[..2]) && AllDigits(c[3..5]) && AllDigits(c[6..])
      && Value(c[..2]) < 24 && Value(c[3..5]) < 60 && Value(c[6..]) < 60
      && Value(c[..2]) * 3600 + Value(c[3..5]) * 60 + Value(c[6..]) == (IntegerValue(secs) + offset) % SecondsPerDay
  {
    StampMeaning(ts);
    ClockFields(GetTimeStamp(ts).unix + offset);
  }

  /** The message case's time steps: parse, and print the local clock unless parsing failed. */
  method FormatTime(ts: string, offset: int) returns (timeStamp: string)
    ensures timeStamp == ShownTime(ts, offset)
  {
    var t := GetTimeStamp(ts);
    timeStamp := "00:00:00";
    if t.err.None? {
      timeStamp := Clock(t.unix + offset);
    }
  }

  /**
   * The source's timestamp test: "1530593277.000080" is 04:47:57 UTC, shown
   * as "06:47:57" in a zone two hours ahead.
   */
  lemma StampExample()
    ensures ShownTime("1530593277.000080", 0) == "04:47:57"
    ensures ShownTime("1530593277.000080", 7200) == "06:47:57"
  {
    ExampleStamp();
    ExampleClockUtc();
    ExampleClockZone();
  }

  lemma ExampleStamp()
    ensures GetTimeStamp("1530593277.000080") == TimeStamp(1530593277, None)
  {
    StampOfDecimal(1530593277, "000080");
    ExampleDigits();
    assert Decimal(1530593277) + "." + "000080" == "1530593277.000080";
  }

  lemma ExampleDigits()
    ensures Decimal(1530593277) == "1530593277"
  {
    assert Digits(15) == "15";
    assert Digits(1530) == Digits(153) + "0" == "1530";
    assert Digits(153059) == Digits(15305) + "9" == "153059";
    assert Digits(15305932) == Digits(1530593) + "2" == "15305932";
    assert Digits(1530593277) == Digits(153059327) + "7" == "1530593277";
  }

  lemma ExampleClockUtc()
    ensures Clock(1530593277 + 0) == "04:47:57"
  {
    assert (1530593277 + 0) % SecondsPerDay == 17277;
  }

  lemma ExampleClockZone()
    ensures Clock(1530593277 + 7200) == "06:47:57"
  {
    assert (1530593277 + 7200) % SecondsPerDay == 24477;
  }

  /** A timestamp whose seconds part is empty or not a number shows as "00:00:00". */
  lemma StampMalformed(ts: string, offset: int)
    requires !IsInteger(Split(ts, '.')[0])
    ensures ShownTime(ts, offset) == "00:00:00"
  {
    StampMeaning(ts);
  }
}
