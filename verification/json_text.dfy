/** `JSON.stringify` as text, and its inverse: the reader of exactly the
    text `JSON.stringify` writes. The reader is what shows that two values
    serialise to the same text precisely when their JSON round trips agree. */
module JsonText {
  import opened Wrappers
  import opened Numerals
  import opened JsText
  import opened Json

  /** Lower-case hexadecimal digit, as in the `\u00XX` escapes. */
  function HexDigit(d: nat): (c: char)
    requires d < 16
    ensures IsDigitOf(c, 16) && DigitValue(c) == d
  {
    if d < 10 then DigitChar(d) else ('a' as int + d - 10) as char
  }

  /** The escape JSON.stringify writes for one character of a string
      (QuoteJSONString, ECMA-262 section 25.5.2.3). */
  function Escape(c: char): (e: string)
    ensures |e| >= 1
  {
    if c == '"' then "\\\""
    else if c == '\\' then "\\\\"
    else if c == '\U{0008}' then "\\b"
    else if c == '\U{0009}' then "\\t"
    else if c == '\U{000A}' then "\\n"
    else if c == '\U{000C}' then "\\f"
    else if c == '\U{000D}' then "\\r"
    else if c < ' ' then "\\u00" + [HexDigit(c as int / 16), HexDigit(c as int % 16)]
    else [c]
  }

  function Escaped(s: string): string {
    if |s| == 0 then "" else Escape(s[0]) + Escaped(s[1..])
  }

  function Quote(s: string): string {
    "\"" + Escaped(s) + "\""
  }

  /** An integer as `Number.prototype.toString` writes it. */
  function IntText(n: int): (t: string)
    ensures |t| >= 1
  {
    if n < 0 then "-" + Decimal(-n) else Decimal(n)
  }

  /** The JSON text of a value nested in an array or object. `undefined`
      and `NaN` are written `null`; members holding `undefined` are left out. */
  function Text(v: Value): (t: string)
    ensures |t| >= 1
  {
    match v
    case Undefined => "null"
    case Null => "null"
    case NaN => "null"
    case Bool(b) => if b then "true" else "false"
    case Num(n) => IntText(n)
    case Str(s) => Quote(s)
    case Arr(items) => "[" + Items(items) + "]"
    case Obj(ms) => "{" + Members(ms) + "}"
  }

  function Items(items: seq<Value>): string {
    if |items| == 0 then "" else Text(items[0]) + MoreItems(items[1..])
  }

  function MoreItems(items: seq<Value>): string {
    if |items| == 0 then "" else "," + Text(items[0]) + MoreItems(items[1..])
  }

  function Members(ms: seq<Member>): string {
    if |ms| == 0 then ""
    else if ms[0].val.Undefined? then Members(ms[1..])
    else Entry(ms[0]) + MoreMembers(ms[1..])
  }

  function MoreMembers(ms: seq<Member>): string {
    if |ms| == 0 then ""
    else if ms[0].val.Undefined? then MoreMembers(ms[1..])
    else "," + Entry(ms[0]) + MoreMembers(ms[1..])
  }

  function Entry(m: Member): string {
    Quote(m.key) + ":" + Text(m.val)
  }

  /** `JSON.stringify(v)`: no text at all for `undefined`. */
  function Stringify(v: Value): (r: Option<string>)
    ensures r.None? <==> v.Undefined?
  {
    if v.Undefined? then None else Some(Text(v))
  }

  // ---------------------------------------------------------------- reader

  function Unescape(e: char): Option<char> {
    if e == '"' then Some('"')
    else if e == '\\' then Some('\\')
    else if e == '/' then Some('/')
    else if e == 'b' then Some('\U{0008}')
    else if e == 't' then Some('\U{0009}')
    else if e == 'n' then Some('\U{000A}')
    else if e == 'f' then Some('\U{000C}')
    else if e == 'r' then Some('\U{000D}')
    else None
  }

  /** The characters of a string literal up to its closing quote, and the
      text after that quote. Surrogate escapes are refused. */
  function ParseChars(s: string): (r: Option<(string, string)>)
    ensures r.Some? ==> |r.value.1| < |s|
  {
    if |s| == 0 then None
    else if s[0] == '"' then Some(([], s[1..]))
    else if s[0] == '\\' then
      if |s| < 2 then None
      else if s[1] == 'u' then
        if |s| < 6 || !AllDigitsOf(s[2..6], 16) then None
        else
          var code := ValueOf(s[2..6], 16);
          HexBound(s[2..6]);
          assert Pow16(4) == 0x10000;
          if 0xD800 <= code < 0xE000 then None
          else
            var p :- ParseChars(s[6..]);
            Some(([code as char] + p.0, p.1))
      else
        var c :- Unescape(s[1]);
        var p :- ParseChars(s[2..]);
        Some(([c] + p.0, p.1))
    else if s[0] < ' ' then None
    else
      var p :- ParseChars(s[1..]);
      Some(([s[0]] + p.0, p.1))
  }

  function Pow16(k: nat): nat {
    if k == 0 then 1 else 16 * Pow16(k - 1)
  }

  /** `k` hexadecimal digits denote less than `16^k`. */
  lemma {:induction false} HexBound(s: string)
    requires AllDigitsOf(s, 16)
    ensures ValueOf(s, 16) < Pow16(|s|)
  {
    var k := |s|;
    if k > 0 {
      var front := s[..k - 1];
      assert AllDigitsOf(front, 16);
      HexBound(front);
      var v := ValueOf(front, 16);
      assert (v + 1) * 16 <= Pow16(k - 1) * 16;
    }
  }

  function ParseNumber(s: string): (r: Option<(Value, string)>)
    requires |s| >= 1
    ensures r.Some? ==> |r.value.1| < |s|
  {
    var neg := s[0] == '-';
    var t := if neg then s[1..] else s;
    if |t| == 0 || !IsDecimalDigit(t[0]) then None
    else if t[0] == '0' then Some((Num(0), t[1..]))
    else
      var k := DigitRun(t, 10);
      DigitRunMaximal(t, 10);
      var n := ValueOf(t[..k], 10);
      Some((Num(if neg then -(n as int) else n), t[k..]))
  }

  function Keyword(s: string, word: string, v: Value): (r: Option<(Value, string)>)
    requires |word| >= 1
    ensures r.Some? ==> |r.value.1| < |s|
  {
    if |word| <= |s| && s[..|word|] == word then Some((v, s[|word|..])) else None
  }

  /** One JSON value at the front of `s`, and the text after it. */
  function ParseValue(s: string): (r: Option<(Value, string)>)
    ensures r.Some? ==> |r.value.1| < |s|
    decreases |s|, 0
  {
    if |s| == 0 then None
    else if s[0] == 'n' then Keyword(s, "null", Null)
    else if s[0] == 't' then Keyword(s, "true", Bool(true))
    else if s[0] == 'f' then Keyword(s, "false", Bool(false))
    else if s[0] == '"' then
      var p :- ParseChars(s[1..]);
      Some((Str(p.0), p.1))
    else if s[0] == '-' || IsDecimalDigit(s[0]) then ParseNumber(s)
    else if s[0] == '[' then ParseArray(s[1..])
    else if s[0] == '{' then ParseObject(s[1..])
    else None
  }

  /** The elements after `[`, through the closing `]`. */
  function ParseArray(s: string): (r: Option<(Value, string)>)
    ensures r.Some? ==> |r.value.1| < |s|
    decreases |s|, 1
  {
    if |s| > 0 && s[0] == ']' then Some((Arr([]), s[1..]))
    else
      var first :- ParseValue(s);
      var more :- ParseItemsTail(first.1);
      Some((Arr([first.0] + more.0), more.1))
  }

  function ParseItemsTail(s: string): (r: Option<(seq<Value>, string)>)
    ensures r.Some? ==> |r.value.1| < |s|
    decreases |s|, 0
  {
    if |s| == 0 then None
    else if s[0] == ']' then Some(([], s[1..]))
    else if s[0] == ',' then
      var next :- ParseValue(s[1..]);
      var more :- ParseItemsTail(next.1);
      Some(([next.0] + more.0, more.1))
    else None
  }

  /** The members after `{`, through the closing `}`. */
  function ParseObject(s: string): (r: Option<(Value, string)>)
    ensures r.Some? ==> |r.value.1| < |s|
    decreases |s|, 2
  {
    if |s| > 0 && s[0] == '}' then Some((Obj([]), s[1..]))
    else
      var first :- ParseMember(s);
      var more :- ParseMembersTail(first.1);
      Some((Obj([first.0] + more.0), more.1))
  }

  function ParseMember(s: string): (r: Option<(Member, string)>)
    ensures r.Some? ==> |r.value.1| < |s|
    decreases |s|, 1
  {
    if |s| == 0 || s[0] != '"' then None
    else
      var key :- ParseChars(s[1..]);
      if |key.1| == 0 || key.1[0] != ':' then None
      else
        var val :- ParseValue(key.1[1..]);
        Some((Member(key.0, val.0), val.1))
  }

  function ParseMembersTail(s: string): (r: Option<(seq<Member>, string)>)
    ensures r.Some? ==> |r.value.1| < |s|
    decreases |s|, 0
  {
    if |s| == 0 then None
    else if s[0] == '}' then Some(([], s[1..]))
    else if s[0] == ',' then
      var next :- ParseMember(s[1..]);
      var more :- ParseMembersTail(next.1);
      Some(([next.0] + more.0, more.1))
    else None
  }

  /** `JSON.parse` of the text `JSON.stringify` writes: one value, nothing after it. */
  function Parse(text: string): (r: Option<Value>)
  {
    var p :- ParseValue(text);
    if p.1 == [] then Some(p.0) else None
  }

  // ------------------------------------------------------------ round trip

  /** The reader's result with one more character in front of the string read. */
  function Cons(c: char, o: Option<(string, string)>): Option<(string, string)> {
    if o.None? then None else Some(([c] + o.value.0, o.value.1))
  }

  /** Text that cannot continue a number just read. */
  predicate Delimited(rest: string) {
    rest == [] || !IsDecimalDigit(rest[0])
  }

  /** Regrouping `open + body + close + rest` to read past `open`. */
  lemma Wrap(open: string, body: string, close: string, rest: string)
    ensures open + body + close + rest == open + (body + close + rest)
    ensures (open + body + close + rest)[|open|..] == body + close + rest
  {
    Assoc(open + body, close, rest);
    Assoc(open, body, close + rest);
    Assoc(body, close, rest);
    DropPrefix(open, body + close + rest);
  }

  /** The reader undoes one escape. */
  lemma EscapeThen(c: char, rest: string)
    ensures ParseChars(Escape(c) + rest) == Cons(c, ParseChars(rest))
  {
    var s := Escape(c) + rest;
    if c == '"' || c == '\\' || c == '\U{0008}' || c == '\U{0009}' || c == '\U{000A}'
       || c == '\U{000C}' || c == '\U{000D}' {
      DropPrefix(Escape(c), rest);
      assert s[0] == '\\' && s[2..] == rest;
    } else if c < ' ' {
      HexEscapeThen(c, rest);
    } else {
      assert s[1..] == rest;
    }
  }

  lemma HexEscapeThen(c: char, rest: string)
    requires c < ' ' && c != '\U{0008}' && c != '\U{0009}' && c != '\U{000A}' && c != '\U{000C}' && c != '\U{000D}'
    ensures ParseChars(Escape(c) + rest) == Cons(c, ParseChars(rest))
  {
    var q := "00" + [HexDigit(c as int / 16), HexDigit(c as int % 16)];
    var s := Escape(c) + rest;
    assert Escape(c) == "\\u" + q;
    HexEscape(c);
    assert s[2..6] == q;
    DropPrefix(Escape(c), rest);
    assert s[6..] == rest;
  }

  /** The four hexadecimal digits of a control character's escape denote it. */
  lemma HexEscape(c: char)
    requires c < ' '
    ensures var q := "00" + [HexDigit(c as int / 16), HexDigit(c as int % 16)];
            AllDigitsOf(q, 16) && ValueOf(q, 16) == c as int
  {
    var hi := c as int / 16;
    var lo := c as int % 16;
    var q := "00" + [HexDigit(hi), HexDigit(lo)];
    assert q[..3] == "00" + [HexDigit(hi)];
    assert q[..3][..2] == "00";
    assert "00"[..1] == "0" && "0"[..0] == [];
    assert ValueOf("00", 16) == 0;
    assert ValueOf(q[..3], 16) == hi;
    assert ValueOf(q, 16) == hi * 16 + lo;
  }

  lemma {:induction false} EscapedThen(s: string, rest: string)
    ensures ParseChars(Escaped(s) + "\"" + rest) == Some((s, rest))
  {
    if |s| == 0 {
      assert Escaped(s) + "\"" + rest == "\"" + rest;
    } else {
      var tail := Escaped(s[1..]) + "\"" + rest;
      EscapedThen(s[1..], rest);
      Wrap(Escape(s[0]), Escaped(s[1..]), "\"", rest);
      EscapeThen(s[0], tail);
      assert [s[0]] + s[1..] == s;
    }
  }

  /** A quoted string reads back as itself, whatever follows. */
  lemma QuoteThen(s: string, rest: string)
    ensures (Quote(s) + rest)[0] == '"'
    ensures ParseChars((Quote(s) + rest)[1..]) == Some((s, rest))
  {
    Wrap("\"", Escaped(s), "\"", rest);
    EscapedThen(s, rest);
  }

  /** A lone zero reads back as zero. */
  lemma ZeroThen(rest: string)
    requires Delimited(rest)
    ensures ParseNumber("0" + rest) == Some((Num(0), rest))
  {
    DropPrefix("0", rest);
  }

  /** Digits without a leading zero read back as their value... */
  lemma PositiveThen(d: string, rest: string)
    requires |d| >= 1 && AllDecimal(d) && d[0] != '0' && Delimited(rest)
    ensures ParseNumber(d + rest) == Some((Num(ValueOf(d, 10)), rest))
  {
    DigitRunOfPrefix(d, rest, 10);
    DropPrefix(d, rest);
  }

  /** ... and, after a minus sign, as its negation. */
  lemma NegativeThen(d: string, rest: string, n: nat)
    requires |d| >= 1 && AllDecimal(d) && d[0] != '0' && Delimited(rest)
    requires n == ValueOf(d, 10)
    ensures ParseNumber("-" + d + rest) == Some((Num(-(n as int)), rest))
  {
    var s := "-" + d + rest;
    var t := d + rest;
    Assoc("-", d, rest);
    DropPrefix("-", t);
    DigitRunOfPrefix(d, rest, 10);
    DropPrefix(d, rest);
    assert s[0] == '-';
    assert s[1..] == t;
    assert DigitRun(t, 10) == |d|;
    assert t[..|d|] == d && t[|d|..] == rest;
  }

  /** Text starting with a sign or a digit is read as a number. */
  lemma NumberDispatch(t: string)
    requires |t| >= 1 && (t[0] == '-' || IsDecimalDigit(t[0]))
    ensures ParseValue(t) == ParseNumber(t)
  {
  }

  /** An integer's text reads back as that integer. */
  lemma NumberThen(n: int, rest: string)
    requires Delimited(rest)
    ensures ParseValue(IntText(n) + rest) == Some((Num(n), rest))
  {
    if n < 0 {
      var d := Decimal(-n);
      assert IntText(n) + rest == "-" + d + rest;
      NegativeThen(d, rest, -n);
      NumberDispatch("-" + d + rest);
    } else if n == 0 {
      assert IntText(n) == "0";
      ZeroThen(rest);
      NumberDispatch("0" + rest);
    } else {
      var d := Decimal(n);
      assert IntText(n) == d;
      PositiveThen(d, rest);
      NumberDispatch(d + rest);
    }
  }

  /** What any value's text starts with. */
  lemma TextStart(v: Value)
    ensures var c := Text(v)[0];
            c != ']' && c != '}' && c != ',' && (c == '-' || IsDecimalDigit(c) <==> v.Num?)
  {
    if v.Num? && v.n < 0 {
      assert Text(v)[0] == '-';
    }
  }

  lemma {:induction false} MoreItemsStart(items: seq<Value>)
    ensures MoreItems(items) == [] || MoreItems(items)[0] == ','
  {
  }

  lemma {:induction false} MoreMembersStart(ms: seq<Member>)
    ensures MoreMembers(ms) == [] || MoreMembers(ms)[0] == ','
  {
    if |ms| > 0 && ms[0].val.Undefined? {
      MoreMembersStart(ms[1..]);
    }
  }

  lemma WordThen(word: string, v: Value, rest: string)
    requires word == Text(v) && (v.Undefined? || v.Null? || v.NaN? || v.Bool?)
    ensures ParseValue(word + rest) == Some((Canon(v), rest))
  {
    DropPrefix(word, rest);
  }

  /** Any value's text reads back as its JSON round trip, whatever text that
      cannot continue a number follows it. */
  lemma {:induction false} ValueThen(v: Value, rest: string)
    requires Delimited(rest)
    ensures ParseValue(Text(v) + rest) == Some((Canon(v), rest))
    decreases v, 2
  {
    match v
    case Num(n) => NumberThen(n, rest);
    case Str(x) => QuoteThen(x, rest);
    case Arr(items) => ArrThen(items, rest);
    case Obj(ms) => ObjThen(ms, rest);
    case _ => WordThen(Text(v), v, rest);
  }

  lemma {:induction false} ArrThen(items: seq<Value>, rest: string)
    ensures ParseValue(Text(Arr(items)) + rest) == Some((Arr(CanonItems(items)), rest))
    decreases items, 1
  {
    Wrap("[", Items(items), "]", rest);
    ArrayThen(items, rest);
  }

  lemma {:induction false} ObjThen(ms: seq<Member>, rest: string)
    ensures ParseValue(Text(Obj(ms)) + rest) == Some((Obj(CanonMembers(ms)), rest))
    decreases ms, 1
  {
    Wrap("{", Members(ms), "}", rest);
    ObjectThen(ms, rest);
  }

  lemma {:induction false} ArrayThen(items: seq<Value>, rest: string)
    ensures ParseArray(Items(items) + "]" + rest) == Some((Arr(CanonItems(items)), rest))
    decreases items, 0
  {
    if |items| > 0 {
      var after := MoreItems(items[1..]) + "]" + rest;
      Wrap(Text(items[0]), MoreItems(items[1..]), "]", rest);
      TextStart(items[0]);
      MoreItemsStart(items[1..]);
      ValueThen(items[0], after);
      ItemsTailThen(items[1..], rest);
    } else {
      assert Items(items) + "]" + rest == "]" + rest;
    }
  }

  lemma {:induction false} ItemsTailThen(items: seq<Value>, rest: string)
    ensures ParseItemsTail(MoreItems(items) + "]" + rest) == Some((CanonItems(items), rest))
    decreases items, 0
  {
    if |items| > 0 {
      var after := MoreItems(items[1..]) + "]" + rest;
      Wrap("," + Text(items[0]), MoreItems(items[1..]), "]", rest);
      Wrap(",", Text(items[0]), [], after);
      assert "," + Text(items[0]) + [] == "," + Text(items[0]);
      assert Text(items[0]) + [] + after == Text(items[0]) + after;
      MoreItemsStart(items[1..]);
      ValueThen(items[0], after);
      ItemsTailThen(items[1..], rest);
    } else {
      assert MoreItems(items) + "]" + rest == "]" + rest;
    }
  }

  lemma {:induction false} MemberThen(m: Member, rest: string)
    requires !m.val.Undefined? && Delimited(rest)
    ensures ParseMember(Entry(m) + rest) == Some((Member(m.key, Canon(m.val)), rest))
    decreases m, 0
  {
    var after := ":" + Text(m.val) + rest;
    Wrap(Quote(m.key), ":", Text(m.val), rest);
    QuoteThen(m.key, after);
    Wrap(":", Text(m.val), rest, []);
    assert ":" + Text(m.val) + rest + [] == after;
    assert Text(m.val) + rest + [] == Text(m.val) + rest;
    ValueThen(m.val, rest);
  }

  lemma {:induction false} ObjectThen(ms: seq<Member>, rest: string)
    ensures ParseObject(Members(ms) + "}" + rest) == Some((Obj(CanonMembers(ms)), rest))
    decreases ms, 0
  {
    if |ms| == 0 {
      assert Members(ms) + "}" + rest == "}" + rest;
    } else if ms[0].val.Undefined? {
      ObjectThen(ms[1..], rest);
    } else {
      var after := MoreMembers(ms[1..]) + "}" + rest;
      Wrap(Entry(ms[0]), MoreMembers(ms[1..]), "}", rest);
      assert Quote(ms[0].key)[0] == '"';
      MoreMembersStart(ms[1..]);
      MemberThen(ms[0], after);
      MembersTailThen(ms[1..], rest);
    }
  }

  lemma {:induction false} MembersTailThen(ms: seq<Member>, rest: string)
    ensures ParseMembersTail(MoreMembers(ms) + "}" + rest) == Some((CanonMembers(ms), rest))
    decreases ms, 0
  {
    if |ms| == 0 {
      assert MoreMembers(ms) + "}" + rest == "}" + rest;
    } else if ms[0].val.Undefined? {
      MembersTailThen(ms[1..], rest);
    } else {
      MembersTailThen(ms[1..], rest);
      MembersTailStep(ms[0], ms[1..], rest);
      assert CanonMembers(ms) == [Member(ms[0].key, Canon(ms[0].val))] + CanonMembers(ms[1..]);
    }
  }

  /** One `,key:value` in front of the members the reader already reads back. */
  lemma MembersTailStep(m: Member, tail: seq<Member>, rest: string)
    requires !m.val.Undefined?
    requires ParseMembersTail(MoreMembers(tail) + "}" + rest) == Some((CanonMembers(tail), rest))
    ensures ParseMembersTail("," + Entry(m) + MoreMembers(tail) + "}" + rest)
            == Some(([Member(m.key, Canon(m.val))] + CanonMembers(tail), rest))
    decreases m, 1
  {
    var after := MoreMembers(tail) + "}" + rest;
    var s := "," + Entry(m) + MoreMembers(tail) + "}" + rest;
    CommaThen(Entry(m), MoreMembers(tail), rest);
    MoreMembersStart(tail);
    MemberThen(m, after);
    assert ParseMember(s[1..]) == Some((Member(m.key, Canon(m.val)), after));
  }

  lemma CommaThen(entry: string, more: string, rest: string)
    ensures var s := "," + entry + more + "}" + rest;
            s[0] == ',' && s[1..] == entry + (more + "}" + rest)
  {
    Wrap("," + entry, more, "}", rest);
    Wrap(",", entry, [], more + "}" + rest);
    assert "," + entry + [] == "," + entry;
    assert entry + [] + (more + "}" + rest) == entry + (more + "}" + rest);
  }

  /** Reading back what `JSON.stringify` wrote gives the JSON round trip of the value. */
  lemma ParseOfStringify(v: Value)
    requires !v.Undefined?
    ensures Parse(Stringify(v).value) == Some(Canon(v))
  {
    NoRest(Text(v));
    ValueThen(v, []);
  }

  /** The JSON round trip does not change a value's text. */
  lemma {:induction false} TextOfCanon(v: Value)
    ensures Text(Canon(v)) == Text(v)
    decreases v, 1
  {
    match v
    case Arr(items) => ItemsOfCanon(items);
    case Obj(ms) => MembersOfCanon(ms);
    case _ =>
  }

  lemma {:induction false} ItemsOfCanon(items: seq<Value>)
    ensures Items(CanonItems(items)) == Items(items)
    decreases items, 0
  {
    if |items| > 0 {
      TextOfCanon(items[0]);
      MoreItemsOfCanon(items[1..]);
      assert CanonItems(items)[1..] == CanonItems(items[1..]);
    }
  }

  lemma {:induction false} MoreItemsOfCanon(items: seq<Value>)
    ensures MoreItems(CanonItems(items)) == MoreItems(items)
    decreases items, 0
  {
    if |items| > 0 {
      TextOfCanon(items[0]);
      MoreItemsOfCanon(items[1..]);
      assert CanonItems(items)[1..] == CanonItems(items[1..]);
    }
  }

  lemma {:induction false} MembersOfCanon(ms: seq<Member>)
    ensures Members(CanonMembers(ms)) == Members(ms)
    decreases ms, 0
  {
    if |ms| > 0 {
      if ms[0].val.Undefined? {
        MembersOfCanon(ms[1..]);
      } else {
        TextOfCanon(ms[0].val);
        MoreMembersOfCanon(ms[1..]);
        assert CanonMembers(ms)[1..] == CanonMembers(ms[1..]);
      }
    }
  }

  lemma {:induction false} MoreMembersOfCanon(ms: seq<Member>)
    ensures MoreMembers(CanonMembers(ms)) == MoreMembers(ms)
    decreases ms, 0
  {
    if |ms| > 0 {
      if ms[0].val.Undefined? {
        MoreMembersOfCanon(ms[1..]);
      } else {
        TextOfCanon(ms[0].val);
        MoreMembersOfCanon(ms[1..]);
        assert CanonMembers(ms)[1..] == CanonMembers(ms[1..]);
      }
    }
  }

  /** Two values are written as the same JSON text exactly when their JSON
      round trips are the same value: comparing the texts compares what
      JSON keeps of the values. */
  lemma SameText(a: Value, b: Value)
    ensures Text(a) == Text(b) <==> Canon(a) == Canon(b)
  {
    NoRest(Text(a));
    NoRest(Text(b));
    ValueThen(a, []);
    ValueThen(b, []);
    TextOfCanon(a);
    TextOfCanon(b);
  }

  /** The same for `JSON.stringify`, on values other than `undefined`. */
  lemma SameStringify(a: Value, b: Value)
    requires !a.Undefined? && !b.Undefined?
    ensures Stringify(a) == Stringify(b) <==> Canon(a) == Canon(b)
  {
    SameText(a, b);
  }
}
