/** `Date.prototype.toISOString` (section 21.4.4.36 of ECMA-262): the
    `YYYY-MM-DDTHH:mm:ss.sssZ` text every date of the scraper's record is
    stored as, and the reading of that text back into its fields. */
module IsoDate {

  import opened Wrappers
  import opened Numerals
  import opened Civil

  /** The digit `k` places from the right in the decimal notation of `n`. */
  function Dig(n: nat, k: nat): (c: char)
    ensures IsDecimalDigit(c)
  {
    if k == 0 then DigitChar(n % 10) else Dig(n / 10, k - 1)
  }

  /** The year: four digits for years 0 to 9999, otherwise a sign and six digits. */
  function YearText(y: int): (s: string)
    requires -999999 <= y <= 999999
    ensures 0 <= y <= 9999 ==> |s| == 4
    ensures !(0 <= y <= 9999) ==> |s| == 7 && s[0] == (if y < 0 then '-' else '+')
  {
    if 0 <= y <= 9999 then [Dig(y, 3), Dig(y, 2), Dig(y, 1), Dig(y, 0)]
    else
      var v := if y < 0 then -y else y;
      [if y < 0 then '-' else '+', Dig(v, 5), Dig(v, 4), Dig(v, 3), Dig(v, 2), Dig(v, 1), Dig(v, 0)]
  }

  /** Everything after the year: `-MM-DDTHH:mm:ss.sssZ`. */
  function TailText(t: DateTime): (s: string)
    requires Valid(t)
    ensures |s| == 20
  {
    ['-', Dig(t.month, 1), Dig(t.month, 0), '-', Dig(t.day, 1), Dig(t.day, 0),
     'T', Dig(t.hour, 1), Dig(t.hour, 0), ':', Dig(t.minute, 1), Dig(t.minute, 0),
     ':', Dig(t.second, 1), Dig(t.second, 0), '.', Dig(t.ms, 2), Dig(t.ms, 1), Dig(t.ms, 0), 'Z']
  }

  /** `toISOString` of a valid `Date`, whose fields are `t` in UTC. */
  function ToIsoString(t: DateTime): (s: string)
    requires Valid(t) && -999999 <= t.year <= 999999
    ensures |s| == (if 0 <= t.year <= 9999 then 24 else 27)
    ensures s[|s| - 1] == 'Z'
  {
    YearText(t.year) + TailText(t)
  }

  /** `toISOString` of a `Date` holding a valid time value: the text reads
      back as the date-time it was written from. */
  function DateString(t: DateTime): (s: string)
    requires Valid(t) && InRange(t)
    ensures ParseIsoString(s) == Some(t)
  {
    InRangeYear(t);
    IsoRoundTrip(t);
    ToIsoString(t)
  }

  /** `toISOString` of a `Date` that may be invalid: an invalid one throws a `RangeError`. */
  function IsoOf(d: Option<DateTime>): (r: Result<string>)
    requires d.Some? ==> Valid(d.value) && InRange(d.value)
    ensures r.Err? <==> d.None?
    ensures r.Err? ==> r.fault == RangeError
    ensures r.Ok? ==> ParseIsoString(r.value) == d
  {
    match d
    case Some(t) => Ok(DateString(t))
    case None => Err(RangeError)
  }

  function Num(s: string, i: nat, n: nat): (v: nat)
    requires i + n <= |s|
    requires forall k :: i <= k < i + n ==> IsDecimalDigit(s[k])
    decreases n
  {
    if n == 0 then 0 else Num(s, i, n - 1) * 10 + DigitValue(s[i + n - 1])
  }

  predicate DigitsAt(s: string, i: nat, n: nat) {
    i + n <= |s| && forall k :: i <= k < i + n ==> IsDecimalDigit(s[k])
  }

  /** The fields after the year, read from position `i`. */
  function ParseTail(s: string, i: nat, year: int): (r: Option<DateTime>)
    ensures r.Some? ==> Valid(r.value) && r.value.year == year
  {
    if !(|s| == i + 20 && s[i] == '-' && s[i + 3] == '-' && s[i + 6] == 'T' && s[i + 9] == ':'
         && s[i + 12] == ':' && s[i + 15] == '.' && s[i + 19] == 'Z'
         && DigitsAt(s, i + 1, 2) && DigitsAt(s, i + 4, 2) && DigitsAt(s, i + 7, 2)
         && DigitsAt(s, i + 10, 2) && DigitsAt(s, i + 13, 2) && DigitsAt(s, i + 16, 3)) then None
    else
      var t := DateTime(year, Num(s, i + 1, 2), Num(s, i + 4, 2), Num(s, i + 7, 2),
                        Num(s, i + 10, 2), Num(s, i + 13, 2), Num(s, i + 16, 3));
      if Valid(t) then Some(t) else None
  }

  /** Reads the text `toISOString` writes; `None` for any other text, including
      a six-digit year that the four-digit form would have written. */
  function ParseIsoString(s: string): (r: Option<DateTime>)
    ensures r.Some? ==> Valid(r.value) && -999999 <= r.value.year <= 999999
  {
    if |s| == 24 && DigitsAt(s, 0, 4) then ParseTail(s, 4, Num(s, 0, 4))
    else if |s| == 27 && (s[0] == '+' || s[0] == '-') && DigitsAt(s, 1, 6) then
      var v := Num(s, 1, 6);
      NumBound(s, 1, 6);
      if s[0] == '+' && v > 9999 then ParseTail(s, 7, v)
      else if s[0] == '-' && v >= 1 then ParseTail(s, 7, -(v as int))
      else None
    else None
  }

  lemma {:induction false} NumBound(s: string, i: nat, n: nat)
    requires DigitsAt(s, i, n)
    ensures Num(s, i, n) < Pow10(n)
    decreases n
  {
    if n > 0 {
      NumBound(s, i, n - 1);
    }
  }

  lemma DigitsOf2(n: nat)
    requires n < 100
    ensures DigitValue(Dig(n, 1)) * 10 + DigitValue(Dig(n, 0)) == n
  {
    assert Dig(n, 1) == Dig(n / 10, 0);
  }

  lemma DigitsOf3(n: nat)
    requires n < 1000
    ensures (DigitValue(Dig(n, 2)) * 10 + DigitValue(Dig(n, 1))) * 10 + DigitValue(Dig(n, 0)) == n
  {
    DigitsOf2(n / 10);
    assert Dig(n, 2) == Dig(n / 10, 1) && Dig(n, 1) == Dig(n / 10, 0);
  }

  lemma DigitsOf4(n: nat)
    requires n < 10000
    ensures ((DigitValue(Dig(n, 3)) * 10 + DigitValue(Dig(n, 2))) * 10 + DigitValue(Dig(n, 1))) * 10
            + DigitValue(Dig(n, 0)) == n
  {
    DigitsOf3(n / 10);
    assert Dig(n, 3) == Dig(n / 10, 2) && Dig(n, 2) == Dig(n / 10, 1) && Dig(n, 1) == Dig(n / 10, 0);
  }

  lemma DigitsOf5(n: nat)
    requires n < 100000
    ensures (((DigitValue(Dig(n, 4)) * 10 + DigitValue(Dig(n, 3))) * 10 + DigitValue(Dig(n, 2))) * 10
            + DigitValue(Dig(n, 1))) * 10 + DigitValue(Dig(n, 0)) == n
  {
    DigitsOf4(n / 10);
    assert Dig(n, 4) == Dig(n / 10, 3) && Dig(n, 3) == Dig(n / 10, 2);
    assert Dig(n, 2) == Dig(n / 10, 1) && Dig(n, 1) == Dig(n / 10, 0);
  }

  lemma DigitsOf6(n: nat)
    requires n < 1000000
    ensures ((((DigitValue(Dig(n, 5)) * 10 + DigitValue(Dig(n, 4))) * 10 + DigitValue(Dig(n, 3))) * 10
            + DigitValue(Dig(n, 2))) * 10 + DigitValue(Dig(n, 1))) * 10 + DigitValue(Dig(n, 0)) == n
  {
    DigitsOf5(n / 10);
    assert Dig(n, 5) == Dig(n / 10, 4) && Dig(n, 4) == Dig(n / 10, 3) && Dig(n, 3) == Dig(n / 10, 2);
    assert Dig(n, 2) == Dig(n / 10, 1) && Dig(n, 1) == Dig(n / 10, 0);
  }

  /** Two digits written by `Dig` read back as the number. */
  lemma ReadTwo(s: string, j: nat, n: nat)
    requires n < 100 && j + 2 <= |s| && s[j] == Dig(n, 1) && s[j + 1] == Dig(n, 0)
    ensures DigitsAt(s, j, 2) && Num(s, j, 2) == n
  {
    DigitsOf2(n);
  }

  lemma ReadThree(s: string, j: nat, n: nat)
    requires n < 1000 && j + 3 <= |s| && s[j] == Dig(n, 2) && s[j + 1] == Dig(n, 1) && s[j + 2] == Dig(n, 0)
    ensures DigitsAt(s, j, 3) && Num(s, j, 3) == n
  {
    DigitsOf3(n);
  }

  lemma TailRoundTrip(s: string, i: nat, t: DateTime)
    requires Valid(t)
    requires |s| == i + 20 && s[i..] == TailText(t)
    ensures ParseTail(s, i, t.year) == Some(t)
  {
    TailChars(s, i, t);
    ReadTwo(s, i + 1, t.month);
    ReadTwo(s, i + 4, t.day);
    ReadTwo(s, i + 7, t.hour);
    ReadTwo(s, i + 10, t.minute);
    ReadTwo(s, i + 13, t.second);
    ReadThree(s, i + 16, t.ms);
  }

  lemma TailChars(s: string, i: nat, t: DateTime)
    requires Valid(t)
    requires |s| == i + 20 && s[i..] == TailText(t)
    ensures s[i] == '-' && s[i + 3] == '-' && s[i + 6] == 'T' && s[i + 9] == ':'
    ensures s[i + 12] == ':' && s[i + 15] == '.' && s[i + 19] == 'Z'
    ensures s[i + 1] == Dig(t.month, 1) && s[i + 2] == Dig(t.month, 0)
    ensures s[i + 4] == Dig(t.day, 1) && s[i + 5] == Dig(t.day, 0)
    ensures s[i + 7] == Dig(t.hour, 1) && s[i + 8] == Dig(t.hour, 0)
    ensures s[i + 10] == Dig(t.minute, 1) && s[i + 11] == Dig(t.minute, 0)
    ensures s[i + 13] == Dig(t.second, 1) && s[i + 14] == Dig(t.second, 0)
    ensures s[i + 16] == Dig(t.ms, 2) && s[i + 17] == Dig(t.ms, 1) && s[i + 18] == Dig(t.ms, 0)
  {
    assert forall k :: 0 <= k < 20 ==> s[i + k] == s[i..][k];
  }

  /** Reading the ISO text back gives the date-time it was written from. */
  lemma IsoRoundTrip(t: DateTime)
    requires Valid(t) && -999999 <= t.year <= 999999
    ensures ParseIsoString(ToIsoString(t)) == Some(t)
  {
    if 0 <= t.year <= 9999 {
      ShortYearRoundTrip(t);
    } else {
      LongYearRoundTrip(t);
    }
  }

  lemma ShortYearRoundTrip(t: DateTime)
    requires Valid(t) && 0 <= t.year <= 9999
    ensures ParseIsoString(ToIsoString(t)) == Some(t)
  {
    var s := ToIsoString(t);
    var y := YearText(t.year);
    assert s[4..] == TailText(t);
    assert forall k :: 0 <= k < 4 ==> s[k] == y[k];
    ReadFour(s, 0, t.year);
    TailRoundTrip(s, 4, t);
  }

  lemma LongYearRoundTrip(t: DateTime)
    requires Valid(t) && -999999 <= t.year <= 999999 && !(0 <= t.year <= 9999)
    ensures ParseIsoString(ToIsoString(t)) == Some(t)
  {
    var s := ToIsoString(t);
    var v := if t.year < 0 then -t.year else t.year;
    LongYearChars(s, t.year, v);
    assert s[7..] == TailText(t);
    ReadSix(s, 1, v);
    TailRoundTrip(s, 7, t);
  }

  lemma LongYearChars(s: string, y: int, v: nat)
    requires -999999 <= y <= 999999 && !(0 <= y <= 9999) && v == (if y < 0 then -y else y)
    requires |s| >= 7 && s[..7] == YearText(y)
    ensures s[0] == (if y < 0 then '-' else '+')
    ensures s[1] == Dig(v, 5) && s[2] == Dig(v, 4) && s[3] == Dig(v, 3)
    ensures s[4] == Dig(v, 2) && s[5] == Dig(v, 1) && s[6] == Dig(v, 0)
  {
    assert forall k :: 0 <= k < 7 ==> s[k] == s[..7][k];
  }

  lemma ReadFour(s: string, j: nat, n: nat)
    requires n < 10000 && j + 4 <= |s|
    requires s[j] == Dig(n, 3) && s[j + 1] == Dig(n, 2) && s[j + 2] == Dig(n, 1) && s[j + 3] == Dig(n, 0)
    ensures DigitsAt(s, j, 4) && Num(s, j, 4) == n
  {
    DigitsOf4(n);
  }

  lemma ReadSix(s: string, j: nat, n: nat)
    requires n < 1000000 && j + 6 <= |s|
    requires s[j] == Dig(n, 5) && s[j + 1] == Dig(n, 4) && s[j + 2] == Dig(n, 3)
    requires s[j + 3] == Dig(n, 2) && s[j + 4] == Dig(n, 1) && s[j + 5] == Dig(n, 0)
    ensures DigitsAt(s, j, 6) && Num(s, j, 6) == n
  {
    DigitsOf6(n);
  }

  /** The digit `k` places from the right of a number read from text is the
      character at that place. */
  lemma {:induction false} DigOfNum(s: string, i: nat, n: nat, k: nat)
    requires DigitsAt(s, i, n) && k < n
    ensures Dig(Num(s, i, n), k) == s[i + n - 1 - k]
    decreases n
  {
    var v := Num(s, i, n);
    assert v / 10 == Num(s, i, n - 1) && v % 10 == DigitValue(s[i + n - 1]);
    if k > 0 {
      DigOfNum(s, i, n - 1, k - 1);
    }
  }

  lemma TailCanonical(s: string, i: nat, year: int)
    requires ParseTail(s, i, year).Some?
    ensures s[i..] == TailText(ParseTail(s, i, year).value)
  {
    var t := ParseTail(s, i, year).value;
    DigOfNum(s, i + 1, 2, 0); DigOfNum(s, i + 1, 2, 1);
    DigOfNum(s, i + 4, 2, 0); DigOfNum(s, i + 4, 2, 1);
    DigOfNum(s, i + 7, 2, 0); DigOfNum(s, i + 7, 2, 1);
    DigOfNum(s, i + 10, 2, 0); DigOfNum(s, i + 10, 2, 1);
    DigOfNum(s, i + 13, 2, 0); DigOfNum(s, i + 13, 2, 1);
    DigOfNum(s, i + 16, 3, 0); DigOfNum(s, i + 16, 3, 1); DigOfNum(s, i + 16, 3, 2);
    var u := TailText(t);
    assert forall k :: 0 <= k < 20 ==> s[i..][k] == u[k];
  }

  /** Every text the reader accepts is exactly the text `toISOString` writes
      for what it read: the two functions are inverse both ways. */
  lemma IsoCanonical(s: string)
    requires ParseIsoString(s).Some?
    ensures ToIsoString(ParseIsoString(s).value) == s
  {
    var t := ParseIsoString(s).value;
    if |s| == 24 {
      assert t == ParseTail(s, 4, Num(s, 0, 4)).value;
      TailCanonical(s, 4, t.year);
      ShortYearCanonical(s, t.year);
    } else {
      var v := Num(s, 1, 6);
      assert t.year == (if s[0] == '+' then v as int else -(v as int));
      assert t == ParseTail(s, 7, t.year).value;
      TailCanonical(s, 7, t.year);
      LongYearCanonical(s, t.year);
    }
    Rejoin(s, YearText(t.year), TailText(t));
  }

  lemma Rejoin(s: string, a: string, b: string)
    requires |a| <= |s| && a == s[..|a|] && b == s[|a|..]
    ensures a + b == s
  {
  }

  lemma ShortYearCanonical(s: string, y: int)
    requires |s| == 24 && DigitsAt(s, 0, 4) && y == Num(s, 0, 4)
    ensures -999999 <= y <= 999999
    ensures YearText(y) == s[..4]
  {
    NumBound(s, 0, 4);
    DigOfNum(s, 0, 4, 0); DigOfNum(s, 0, 4, 1); DigOfNum(s, 0, 4, 2); DigOfNum(s, 0, 4, 3);
  }

  lemma LongYearCanonical(s: string, y: int)
    requires |s| == 27 && DigitsAt(s, 1, 6)
    requires (s[0] == '+' && y == Num(s, 1, 6) && y > 9999) || (s[0] == '-' && y == -(Num(s, 1, 6) as int) && y <= -1)
    ensures -999999 <= y <= 999999
    ensures YearText(y) == s[..7]
  {
    var v := Num(s, 1, 6);
    SixDigits(s, 1, v);
    var w := s[..7];
    assert w[0] == s[0] && w[1] == s[1] && w[2] == s[2] && w[3] == s[3];
    assert w[4] == s[4] && w[5] == s[5] && w[6] == s[6];
    LongYearText(y, v, w);
  }

  /** Six digits read from text give back, digit by digit, the characters read. */
  lemma SixDigits(s: string, i: nat, v: nat)
    requires DigitsAt(s, i, 6) && v == Num(s, i, 6)
    ensures v < 1000000
    ensures s[i] == Dig(v, 5) && s[i + 1] == Dig(v, 4) && s[i + 2] == Dig(v, 3)
    ensures s[i + 3] == Dig(v, 2) && s[i + 4] == Dig(v, 1) && s[i + 5] == Dig(v, 0)
  {
    NumBound(s, i, 6);
    DigOfNum(s, i, 6, 0); DigOfNum(s, i, 6, 1); DigOfNum(s, i, 6, 2);
    DigOfNum(s, i, 6, 3); DigOfNum(s, i, 6, 4); DigOfNum(s, i, 6, 5);
  }

  lemma LongYearText(y: int, v: nat, w: string)
    requires -999999 <= y <= 999999 && !(0 <= y <= 9999) && v == (if y < 0 then -y else y)
    requires |w| == 7 && w[0] == (if y < 0 then '-' else '+')
    requires w[1] == Dig(v, 5) && w[2] == Dig(v, 4) && w[3] == Dig(v, 3)
    requires w[4] == Dig(v, 2) && w[5] == Dig(v, 1) && w[6] == Dig(v, 0)
    ensures YearText(y) == w
  {
  }
}
