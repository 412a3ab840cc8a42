/** `parseInt` with no radix argument, and the scraper's `toNumber` on top of it. */
module ParseInt {

  import opened Wrappers
  import opened Numerals
  import opened JsText

  /** `parseInt(s)` (ECMAScript section 19.2.5 with the radix left undefined):
      leading white space is skipped, one sign is read, a `0x`/`0X` prefix
      switches to radix 16, and the longest run of digits that follows is read.
      `None` stands for `NaN`: there was no digit to read. */
  function JsParseInt(s: string): Option<int> {
    var t := TrimStart(s);
    if |t| > 0 && t[0] == '-' then
      match ReadMagnitude(t[1..])
      case None => None
      case Some(n) => Some(-(n as int))
    else if |t| > 0 && t[0] == '+' then Widen(ReadMagnitude(t[1..]))
    else Widen(ReadMagnitude(t))
  }

  function Widen(o: Option<nat>): (r: Option<int>)
    ensures r.Some? <==> o.Some?
    ensures r.Some? ==> r.value == o.value
  {
    match o
    case None => None
    case Some(n) => Some(n)
  }

  /** The unsigned part: a `0x`/`0X` prefix selects radix 16, otherwise radix 10. */
  function ReadMagnitude(u: string): Option<nat> {
    if |u| >= 2 && u[0] == '0' && (u[1] == 'x' || u[1] == 'X') then ReadDigits(u[2..], 16)
    else ReadDigits(u, 10)
  }

  /** The value of the longest leading run of digits; `None` when there is none. */
  function ReadDigits(body: string, radix: nat): (r: Option<nat>)
    ensures r.None? <==> (body == [] || !IsDigitOf(body[0], radix))
  {
    var k := DigitRun(body, radix);
    DigitRunMaximal(body, radix);
    if k == 0 then None else Some(ValueOf(body[..k], radix))
  }

  lemma ReadDigitsOfPrefix(ds: string, rest: string, radix: nat)
    requires |ds| >= 1 && AllDigitsOf(ds, radix)
    requires rest == [] || !IsDigitOf(rest[0], radix)
    ensures ReadDigits(ds + rest, radix) == Some(ValueOf(ds, radix))
  {
    DigitRunOfPrefix(ds, rest, radix);
  }

  /** The decimal run `ds` after optional white space is read in full, and
      nothing after it counts, unless `ds` is a lone `0` before an `x`. */
  lemma ParseIntDecimal(ws: string, ds: string, rest: string)
    requires AllSpace(ws)
    requires |ds| >= 1 && AllDecimal(ds)
    requires rest == [] || !IsDecimalDigit(rest[0])
    requires !(ds == "0" && |rest| > 0 && (rest[0] == 'x' || rest[0] == 'X'))
    ensures JsParseInt(ws + ds + rest) == Some(ValueOf(ds, 10))
  {
    Assoc(ws, ds, rest);
    ParseIntAfterSpace(ws, ds + rest);
    MagnitudeDecimal(ds, rest);
  }

  /** Digits at the very start are read up to the first non-digit. */
  lemma ParseIntDigitsThen(ds: string, rest: string)
    requires |ds| >= 1 && AllDecimal(ds)
    requires rest == [] || !IsDecimalDigit(rest[0])
    requires !(ds == "0" && |rest| > 0 && (rest[0] == 'x' || rest[0] == 'X'))
    ensures JsParseInt(ds + rest) == Some(ValueOf(ds, 10))
  {
    assert (ds + rest)[0] == ds[0];
    ParseIntUnsigned(ds + rest);
    MagnitudeDecimal(ds, rest);
  }

  lemma ParseIntAfterSpace(ws: string, u: string)
    requires AllSpace(ws)
    requires u == [] || (!IsJsSpace(u[0]) && u[0] != '-' && u[0] != '+')
    ensures JsParseInt(ws + u) == Widen(ReadMagnitude(u))
  {
    SkipSpace(ws, u);
  }

  lemma MagnitudeDecimal(ds: string, rest: string)
    requires |ds| >= 1 && AllDecimal(ds)
    requires rest == [] || !IsDecimalDigit(rest[0])
    requires !(ds == "0" && |rest| > 0 && (rest[0] == 'x' || rest[0] == 'X'))
    ensures ReadMagnitude(ds + rest) == Some(ValueOf(ds, 10))
  {
    var u := ds + rest;
    assert u[0] == ds[0];
    assert !(|u| >= 2 && u[0] == '0' && (u[1] == 'x' || u[1] == 'X')) by {
      if |ds| >= 2 { assert u[1] == ds[1]; } else { assert ds == [ds[0]]; }
    }
    ReadDigitsOfPrefix(ds, rest, 10);
  }

  /** Text that, after white space, starts with neither a digit nor a sign is `NaN`. */
  lemma ParseIntNoDigit(ws: string, rest: string)
    requires AllSpace(ws)
    requires rest == [] || (!IsDecimalDigit(rest[0]) && !IsJsSpace(rest[0]) && rest[0] != '-' && rest[0] != '+')
    ensures JsParseInt(ws + rest) == None
  {
    SkipSpace(ws, rest);
  }

  /** A minus sign negates the magnitude after it. */
  lemma ParseIntMinus(u: string, n: nat)
    requires ReadMagnitude(u) == Some(n)
    ensures JsParseInt("-" + u) == Some(-(n as int))
  {
    DropPrefix("-", u);
    assert TrimStart("-" + u) == "-" + u;
  }

  /** `0x` switches to hexadecimal: `parseInt("0x1A")` is 26. */
  lemma ParseIntHex(hs: string, rest: string)
    requires |hs| >= 1 && AllDigitsOf(hs, 16)
    requires rest == [] || !IsDigitOf(rest[0], 16)
    ensures JsParseInt("0x" + hs + rest) == Some(ValueOf(hs, 16))
  {
    var s := "0x" + (hs + rest);
    assert "0x" + hs + rest == s;
    DropPrefix("0x", hs + rest);
    assert s[0] == '0' && s[1] == 'x';
    ParseIntUnsigned(s);
    ReadDigitsOfPrefix(hs, rest, 16);
  }

  /** Text that starts with neither white space nor a sign is read as a magnitude. */
  lemma ParseIntUnsigned(s: string)
    requires s == [] || (!IsJsSpace(s[0]) && s[0] != '-' && s[0] != '+')
    ensures JsParseInt(s) == Widen(ReadMagnitude(s))
  {
    assert TrimStart(s) == s;
  }

  /** `toNumber` of the scraper: the first comma is removed, then `parseInt`. */
  function ToNumber(s: string): Option<int> {
    JsParseInt(ReplaceFirst(s, ",", ""))
  }

  /** A counter as the scraper reads it: the first space is removed, then `toNumber`. */
  function CounterValue(text: string): Option<int> {
    ToNumber(ReplaceFirst(text, " ", ""))
  }

  /** A run of digits with no separator denotes its value. */
  lemma ToNumberDigits(ds: string)
    requires |ds| >= 1 && AllDecimal(ds)
    ensures ToNumber(ds) == Some(ValueOf(ds, 10))
  {
    ToNumberNoComma(ds);
    ParseIntDigitsThen(ds, []);
    NoRest(ds);
  }

  lemma ToNumberNoComma(s: string)
    requires ',' !in s
    ensures ToNumber(s) == JsParseInt(s)
  {
    RemoveAbsentChar(s, ',');
  }

  lemma ToNumberFirstComma(a: string, rest: string)
    requires ',' !in a
    ensures ToNumber(a + [','] + rest) == JsParseInt(a + rest)
  {
    RemoveFirstChar(a, ',', rest);
  }

  lemma CounterFirstSpace(a: string, rest: string)
    requires ' ' !in a
    ensures CounterValue(a + [' '] + rest) == ToNumber(a + rest)
  {
    RemoveFirstChar(a, ' ', rest);
  }

  lemma CounterNoSpace(s: string)
    requires ' ' !in s
    ensures CounterValue(s) == ToNumber(s)
  {
    RemoveAbsentChar(s, ' ');
  }

  /** Digits with one grouping comma denote the digits without it. */
  lemma ToNumberOneComma(a: string, b: string)
    requires AllDecimal(a) && AllDecimal(b) && |a + b| >= 1
    ensures AllDecimal(a + b)
    ensures ToNumber(a + "," + b) == Some(ValueOf(a + b, 10))
  {
    NoCharInDigits(a, ',');
    ToNumberFirstComma(a, b);
    ParseIntDigitsThen(a + b, []);
    NoRest(a + b);
  }

  /** Only the first comma is removed: whatever follows a second comma is ignored. */
  lemma ToNumberSecondComma(a: string, b: string, c: string)
    requires AllDecimal(a) && AllDecimal(b) && |a + b| >= 1
    ensures AllDecimal(a + b)
    ensures ToNumber(a + "," + b + "," + c) == Some(ValueOf(a + b, 10))
  {
    NoCharInDigits(a, ',');
    Regroup(a, ',', b, ',', c);
    ToNumberFirstComma(a, b + [','] + c);
    ParseIntDigitsThen(a + b, [','] + c);
  }

  /** `a + [x] + b + [y] + c` regrouped around its first separator. */
  lemma Regroup(a: string, x: char, b: string, y: char, c: string)
    ensures a + [x] + b + [y] + c == a + [x] + (b + [y] + c)
    ensures a + (b + [y] + c) == (a + b) + ([y] + c)
  {
  }

  /** A counter such as `1 234,5` loses its one space and its one comma. */
  lemma CounterSpaceAndComma(a: string, b: string, c: string)
    requires AllDecimal(a) && AllDecimal(b) && AllDecimal(c) && |a + b + c| >= 1
    ensures AllDecimal(a + b + c)
    ensures CounterValue(a + " " + b + "," + c) == Some(ValueOf(a + b + c, 10))
  {
    NoCharInDigits(a, ' ');
    Regroup(a, ' ', b, ',', c);
    CounterFirstSpace(a, b + [','] + c);
    Assoc(a + b, [','], c);
    ToNumberOneComma(a + b, c);
  }

  /** A counter with two spaces keeps only the digits before the second one:
      `1 234 567` reads as 1234. */
  lemma CounterTwoSpaces(a: string, b: string, c: string)
    requires AllDecimal(a) && AllDecimal(b) && |a + b| >= 1
    ensures AllDecimal(a + b)
    ensures CounterValue(a + " " + b + " " + c) == Some(ValueOf(a + b, 10))
  {
    NoCharInDigits(a, ' ');
    Regroup(a, ' ', b, ' ', c);
    CounterFirstSpace(a, b + [' '] + c);
    Assoc(a + b, [' '], c);
    DigitsThenSpace(a + b, c);
  }

  /** Digits, a space, then anything: `toNumber` reads the digits only. */
  lemma DigitsThenSpace(ds: string, c: string)
    requires |ds| >= 1 && AllDecimal(ds)
    ensures ToNumber(ds + [' '] + c) == Some(ValueOf(ds, 10))
  {
    NoCharInDigits(ds, ',');
    if ',' in c {
      var i :| 0 <= i < |c| && c[i] == ',';
      var j := FirstIndex(c, ',', i);
      SplitAround(ds, c, j);
      ToNumberFirstComma(ds + [' '] + c[..j], c[j + 1..]);
      ParseIntDigitsThen(ds, [' '] + c[..j] + c[j + 1..]);
    } else {
      assert ',' !in ds + [' '] + c;
      ToNumberNoComma(ds + [' '] + c);
      Assoc(ds, [' '], c);
      ParseIntDigitsThen(ds, [' '] + c);
    }
  }

  lemma SplitAround(ds: string, c: string, j: nat)
    requires j < |c| && c[j] == ',' && ',' !in c[..j] && ',' !in ds
    ensures ds + [' '] + c == (ds + [' '] + c[..j]) + [','] + c[j + 1..]
    ensures ',' !in ds + [' '] + c[..j]
    ensures (ds + [' '] + c[..j]) + c[j + 1..] == ds + ([' '] + c[..j] + c[j + 1..])
  {
    assert c == c[..j] + [','] + c[j + 1..];
  }

  /** A counter whose cleaned text starts with a letter is `NaN`. */
  lemma CounterNotNumeric(text: string)
    requires |text| >= 1 && text[0] != ' ' && text[0] != ','
    requires !IsDecimalDigit(text[0]) && !IsJsSpace(text[0]) && text[0] != '-' && text[0] != '+'
    ensures CounterValue(text) == None
  {
    var t1 := ReplaceFirst(text, " ", "");
    assert t1[0] == text[0] by {
      FirstCharKept(text, ' ');
    }
    var t2 := ReplaceFirst(t1, ",", "");
    assert t2[0] == text[0] by {
      FirstCharKept(t1, ',');
    }
    assert [] + t2 == t2;
    ParseIntNoDigit([], t2);
  }

  lemma FirstCharKept(s: string, c: char)
    requires |s| >= 1 && s[0] != c
    ensures |ReplaceFirst(s, [c], "")| >= 1 && ReplaceFirst(s, [c], "")[0] == s[0]
  {
    match IndexOf(s, [c])
    case None =>
    case Some(i) =>
      assert s[i..i + 1][0] == s[i];
      assert s[..i] + "" + s[i + 1..] == s[..i] + s[i + 1..];
  }

  function FirstIndex(s: string, c: char, i: nat): (j: nat)
    requires i < |s| && s[i] == c
    ensures j <= i && s[j] == c && c !in s[..j]
  {
    if c in s[..i] then
      var k :| 0 <= k < i && s[..i][k] == c;
      FirstIndex(s, c, k)
    else i
  }
}
