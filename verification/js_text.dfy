/** The JavaScript string operations the scraper applies to page text:
    `trim`, `replace` with a string pattern, `replace` with a global
    one-character regular expression, and `split` on one character. */
module JsText {

  import opened Wrappers

  /** ECMAScript WhiteSpace and LineTerminator code points: what `trim`
      removes and what `parseInt` skips. */
  predicate IsJsSpace(c: char) {
    c == '\t' || c == '\n' || c == '\U{000B}' || c == '\U{000C}' || c == '\r' || c == ' '
    || c == '\U{00A0}' || c == '\U{1680}' || ('\U{2000}' <= c <= '\U{200A}')
    || c == '\U{2028}' || c == '\U{2029}' || c == '\U{202F}' || c == '\U{205F}'
    || c == '\U{3000}' || c == '\U{FEFF}'
  }

  predicate AllSpace(s: string) {
    forall i :: 0 <= i < |s| ==> IsJsSpace(s[i])
  }

  /** `String.prototype.trimStart`: the suffix left after the leading white space. */
  function TrimStart(s: string): (r: string)
    ensures |r| <= |s| && r == s[|s| - |r|..]
    ensures AllSpace(s[..|s| - |r|])
    ensures r == [] || !IsJsSpace(r[0])
  {
    if |s| > 0 && IsJsSpace(s[0]) then
      var r := TrimStart(s[1..]);
      assert AllSpace(s[..|s| - |r|]) by {
        var t, u := s[..|s| - |r|], s[1..][..|s| - 1 - |r|];
        forall i | 1 <= i < |t|
          ensures IsJsSpace(t[i])
        {
          assert t[i] == u[i - 1];
        }
      }
      r
    else
      s
  }

  /** `String.prototype.trimEnd`: the prefix left before the trailing white space. */
  function TrimEnd(s: string): (r: string)
    ensures |r| <= |s| && r == s[..|r|]
    ensures AllSpace(s[|r|..])
    ensures r == [] || !IsJsSpace(r[|r| - 1])
  {
    if |s| > 0 && IsJsSpace(s[|s| - 1]) then
      var r := TrimEnd(s[..|s| - 1]);
      assert AllSpace(s[|r|..]) by {
        var t, u := s[|r|..], s[..|s| - 1][|r|..];
        forall i | 0 <= i < |t| - 1
          ensures IsJsSpace(t[i])
        {
          assert t[i] == u[i];
        }
      }
      r
    else
      s
  }

  /** `String.prototype.trim`: `s[i..j]` with white space only outside it. */
  function Trim(s: string): (r: string)
    ensures r == [] || (!IsJsSpace(r[0]) && !IsJsSpace(r[|r| - 1]))
    ensures exists i, j :: 0 <= i <= j <= |s| && AllSpace(s[..i]) && AllSpace(s[j..]) && r == s[i..j]
  {
    var e := TrimEnd(s);
    var r := TrimStart(e);
    var i := |e| - |r|;
    assert AllSpace(s[..i]) by {
      forall t | 0 <= t < i
        ensures IsJsSpace(s[..i][t])
      {
        assert s[..i][t] == e[..i][t];
      }
    }
    assert r == s[i..|e|];
    r
  }

  /** Leading white space is exactly what `trimStart` removes. */
  lemma {:induction false} SkipSpace(ws: string, rest: string)
    requires AllSpace(ws)
    requires rest == [] || !IsJsSpace(rest[0])
    ensures TrimStart(ws + rest) == rest
  {
    if |ws| > 0 {
      assert (ws + rest)[1..] == ws[1..] + rest;
      SkipSpace(ws[1..], rest);
    } else {
      assert ws + rest == rest;
    }
  }

  /** Trailing white space is exactly what `trimEnd` removes. */
  lemma {:induction false} SkipSpaceEnd(rest: string, ws: string)
    requires AllSpace(ws)
    requires rest == [] || !IsJsSpace(rest[|rest| - 1])
    ensures TrimEnd(rest + ws) == rest
  {
    if |ws| > 0 {
      var front := ws[..|ws| - 1];
      assert (rest + ws)[..|rest + ws| - 1] == rest + front;
      SkipSpaceEnd(rest, front);
    } else {
      assert rest + ws == rest;
    }
  }

  /** `trim` gives back text that was padded with white space on both sides. */
  lemma TrimAround(before: string, t: string, after: string)
    requires AllSpace(before) && AllSpace(after)
    requires t == [] || (!IsJsSpace(t[0]) && !IsJsSpace(t[|t| - 1]))
    ensures Trim(before + t + after) == t
  {
    if t == [] {
      assert before + t + after == before + after;
      SkipSpaceEnd([], before + after);
      assert AllSpace(before + after);
      assert TrimEnd(before + after) == [];
    } else {
      SkipSpaceEnd(before + t, after);
      SkipSpace(before, t);
    }
  }

  /** `pat` occurs in `s` at position `i`. */
  predicate OccursAt(s: string, pat: string, i: int) {
    0 <= i && i + |pat| <= |s| && s[i..i + |pat|] == pat
  }

  /** The first position at or after `from` where `pat` occurs. */
  function IndexFrom(s: string, pat: string, from: nat): (r: Option<nat>)
    decreases |s| - from
    ensures r.Some? ==> from <= r.value && OccursAt(s, pat, r.value)
    ensures r.Some? ==> forall j :: from <= j < r.value ==> !OccursAt(s, pat, j)
    ensures r.None? ==> forall j :: from <= j ==> !OccursAt(s, pat, j)
  {
    if from + |pat| > |s| then None
    else if s[from..from + |pat|] == pat then Some(from)
    else IndexFrom(s, pat, from + 1)
  }

  /** `String.prototype.indexOf`. */
  function IndexOf(s: string, pat: string): Option<nat> {
    IndexFrom(s, pat, 0)
  }

  /** `s.replace(pat, rep)` with a string pattern: only the first occurrence is
      replaced (the replacement is taken literally; no `$` patterns occur). */
  function ReplaceFirst(s: string, pat: string, rep: string): string {
    match IndexOf(s, pat)
    case None => s
    case Some(i) => s[..i] + rep + s[i + |pat|..]
  }

  /** A pattern that occurs nowhere leaves the text unchanged. */
  lemma ReplaceAbsent(s: string, pat: string, rep: string)
    requires forall j :: !OccursAt(s, pat, j)
    ensures ReplaceFirst(s, pat, rep) == s
  {
  }

  /** The replacement goes where the pattern first occurs, and only there. */
  lemma ReplaceAtFirst(s: string, pat: string, rep: string, i: nat)
    requires OccursAt(s, pat, i)
    requires forall j :: 0 <= j < i ==> !OccursAt(s, pat, j)
    ensures ReplaceFirst(s, pat, rep) == s[..i] + rep + s[i + |pat|..]
  {
  }

  /** Replacing the one-character pattern `[c]` in `a + [c] + b`, when `a` has
      no `c`, puts the replacement where that `c` was. */
  lemma ReplaceFirstChar(a: string, c: char, rep: string, b: string)
    requires c !in a
    ensures ReplaceFirst(a + [c] + b, [c], rep) == a + rep + b
  {
    var s := a + [c] + b;
    assert OccursAt(s, [c], |a|);
    forall j | 0 <= j < |a|
      ensures !OccursAt(s, [c], j)
    {
      assert s[j] == a[j];
    }
    assert s[..|a|] == a && s[|a| + 1..] == b;
    ReplaceAtFirst(s, [c], rep, |a|);
  }

  lemma RemoveFirstChar(a: string, c: char, b: string)
    requires c !in a
    ensures ReplaceFirst(a + [c] + b, [c], "") == a + b
  {
    ReplaceFirstChar(a, c, "", b);
    NoRest(a);
  }

  /** A one-character pattern that does not occur leaves the text unchanged. */
  lemma RemoveAbsentChar(s: string, c: char)
    requires c !in s
    ensures ReplaceFirst(s, [c], "") == s
  {
    forall j
      ensures !OccursAt(s, [c], j)
    {
      if 0 <= j < |s| {
        assert s[j..j + 1] == [s[j]];
      }
    }
    ReplaceAbsent(s, [c], "");
  }

  /** `s.replace(/c/g, "")`: every occurrence of `c` removed. */
  function RemoveAll(s: string, c: char): (r: string)
    ensures c !in r
    ensures c !in s ==> r == s
    ensures multiset(r) == multiset(s)[c := 0]
  {
    if |s| == 0 then []
    else
      var tail := RemoveAll(s[1..], c);
      assert s == [s[0]] + s[1..];
      if s[0] == c then tail else [s[0]] + tail
  }

  /** `s.split(sep)` for a one-character separator. */
  function Split(s: string, sep: char): (parts: seq<string>)
    ensures |parts| >= 1
    ensures forall i :: 0 <= i < |parts| ==> sep !in parts[i]
    ensures Join(parts, sep) == s
  {
    if |s| == 0 then [[]]
    else
      var rest := Split(s[1..], sep);
      if s[0] == sep then
        assert Join([[]] + rest, sep) == [sep] + Join(rest, sep);
        [[]] + rest
      else
        var parts := [[s[0]] + rest[0]] + rest[1..];
        assert Join(parts, sep) == [s[0]] + Join(rest, sep) by {
          if |rest| > 1 {
            assert rest == [rest[0]] + rest[1..];
            assert parts[1..] == rest[1..];
          }
        }
        assert s == [s[0]] + s[1..];
        parts
  }

  /** `parts.join(sep)`: the inverse of `Split`. */
  function Join(parts: seq<string>, sep: char): string
    requires |parts| >= 1
  {
    if |parts| == 1 then parts[0] else parts[0] + [sep] + Join(parts[1..], sep)
  }

  /** Three pieces with no separator in them split back into the three. */
  lemma SplitThree(a: string, b: string, c: string, sep: char)
    requires sep !in a && sep !in b && sep !in c
    ensures Split(a + [sep] + b + [sep] + c, sep) == [a, b, c]
  {
    Assoc(a + [sep], b, [sep]);
    Assoc(a + [sep], b + [sep], c);
    SplitAtFirst(a, sep, b + [sep] + c);
    SplitAtFirst(b, sep, c);
    SplitNoSeparator(c, sep);
  }

  /** Splitting the joined pieces gives the pieces back when none contains the separator. */
  lemma {:induction false} SplitOfJoin(parts: seq<string>, sep: char)
    requires |parts| >= 1
    requires forall i :: 0 <= i < |parts| ==> sep !in parts[i]
    ensures Split(Join(parts, sep), sep) == parts
  {
    if |parts| == 1 {
      SplitNoSeparator(parts[0], sep);
    } else {
      SplitOfJoin(parts[1..], sep);
      SplitAtFirst(parts[0], sep, Join(parts[1..], sep));
    }
  }

  lemma {:induction false} SplitNoSeparator(s: string, sep: char)
    requires sep !in s
    ensures Split(s, sep) == [s]
  {
    if |s| > 0 {
      SplitNoSeparator(s[1..], sep);
      assert s == [s[0]] + s[1..];
    }
  }

  lemma {:induction false} SplitAtFirst(a: string, sep: char, b: string)
    requires sep !in a
    ensures Split(a + [sep] + b, sep) == [a] + Split(b, sep)
  {
    if |a| == 0 {
      assert a + [sep] + b == [sep] + b;
      assert ([sep] + b)[1..] == b;
    } else {
      assert (a + [sep] + b)[1..] == a[1..] + [sep] + b;
      SplitAtFirst(a[1..], sep, b);
      assert [a[0]] + a[1..] == a;
    }
  }

  lemma Assoc(a: string, b: string, c: string)
    ensures a + b + c == a + (b + c)
  {
  }

  lemma NoRest(a: string)
    ensures a + [] == a && [] + a == a
  {
  }

  /** Dropping a prefix from a concatenation. */
  lemma DropPrefix(p: string, q: string)
    ensures (p + q)[|p|..] == q
    ensures (p + q)[..|p|] == p
  {
  }

  /** The field `i` of a split, as a template literal renders it: a missing
      field prints as the text `undefined`. */
  function Field(parts: seq<string>, i: nat): (r: string)
    ensures i < |parts| ==> r == parts[i]
    ensures i >= |parts| ==> r == "undefined"
  {
    if i < |parts| then parts[i] else "undefined"
  }
}
