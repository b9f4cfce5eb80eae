/** The small part of .NET's string API the puzzles use: character classes,
    ordinal search, `Split`, `Trim`, `Replace`, and integer parsing. Strings are
    `seq<char>`; character classes are restricted to the characters the inputs
    contain (ASCII digits, ASCII letters, ASCII white space). */
module Strings {
  import opened Wrappers

  predicate IsDigit(c: char) { '0' <= c <= '9' }

  /** `char.IsWhiteSpace`, restricted to the ASCII white-space characters. */
  predicate IsWhiteSpace(c: char) {
    c in WhiteSpace
  }

  /** `string.IsNullOrWhiteSpace`. */
  predicate IsBlank(s: string) {
    forall i :: 0 <= i < |s| ==> IsWhiteSpace(s[i])
  }

  function DigitValue(c: char): (d: nat)
    requires IsDigit(c)
    ensures d < 10
  {
    (c as int) - ('0' as int)
  }

  function DigitChar(d: nat): (c: char)
    requires d < 10
    ensures IsDigit(c) && DigitValue(c) == d
  {
    (('0' as int) + d) as char
  }

  predicate AllDigits(s: string) {
    forall i :: 0 <= i < |s| ==> IsDigit(s[i])
  }

  /** Value of a run of decimal digits, most significant first. */
  function DigitsValue(s: string): nat
    requires AllDigits(s)
  {
    if |s| == 0 then 0 else 10 * DigitsValue(s[..|s| - 1]) + DigitValue(s[|s| - 1])
  }

  /** A run of digits holds no character that is not a digit. */
  lemma NoDigitDelimiter(s: string, c: char)
    requires AllDigits(s) && !IsDigit(c)
    ensures c !in s
  {
    forall i | 0 <= i < |s| ensures s[i] != c {
      assert IsDigit(s[i]);
    }
  }

  /** Decimal rendering of a natural number (no leading zeros). */
  function NatToString(n: nat): (s: string)
    ensures |s| >= 1 && AllDigits(s)
  {
    if n < 10 then [DigitChar(n)] else NatToString(n / 10) + [DigitChar(n % 10)]
  }

  lemma {:induction false} DigitsValueOfNatToString(n: nat)
    ensures DigitsValue(NatToString(n)) == n
  {
    if n >= 10 {
      var s := NatToString(n);
      assert s[..|s| - 1] == NatToString(n / 10);
      DigitsValueOfNatToString(n / 10);
    }
  }

  /** Parses a non-empty run of decimal digits (`long.Parse` on unsigned input). */
  function ParseNat(s: string): (r: Option<nat>)
    ensures r.Some? <==> |s| > 0 && AllDigits(s)
  {
    if |s| > 0 && AllDigits(s) then Some(DigitsValue(s)) else None
  }

  lemma ParseNatOfNatToString(n: nat)
    ensures ParseNat(NatToString(n)) == Some(n)
  {
    DigitsValueOfNatToString(n);
  }

  /** `int.Parse` / `long.Parse`: an optional sign followed by decimal digits.
      The 32/64-bit range check is not modelled. */
  function ParseInt(s: string): (r: Option<int>)
    ensures r.Some? <==>
      (|s| > 0 && (s[0] == '+' || s[0] == '-') && |s| > 1 && AllDigits(s[1..]))
      || (|s| > 0 && AllDigits(s))
    ensures |s| > 0 && AllDigits(s) ==> r == Some(DigitsValue(s))
    ensures |s| > 1 && s[0] == '-' && AllDigits(s[1..]) ==> r.Some? && r.value == -(DigitsValue(s[1..]) as int)
  {
    if |s| > 0 && (s[0] == '+' || s[0] == '-') then
      match ParseNat(s[1..])
      case Some(n) =>
        var v: int := if s[0] == '-' then -(n as int) else n;
        Some(v)
      case None => None
    else
      match ParseNat(s)
      case Some(n) => Some(n)
      case None => None
  }

  /** `int.Parse` / `int.TryParse`: `ParseInt` within the 32-bit range. */
  function ParseInt32(s: string): (r: Option<int>)
    ensures r.Some? <==> ParseInt(s).Some? && -0x8000_0000 <= ParseInt(s).value < 0x8000_0000
    ensures r.Some? ==> r == ParseInt(s)
  {
    match ParseInt(s)
    case Some(v) => if -0x8000_0000 <= v < 0x8000_0000 then Some(v) else None
    case None => None
  }

  /** Renders an integer the way `ToString()` does. */
  function IntToString(n: int): string {
    if n < 0 then "-" + NatToString(-n) else NatToString(n)
  }

  lemma ParseIntOfIntToString(n: int)
    ensures ParseInt(IntToString(n)) == Some(n)
  {
    var s := IntToString(n);
    if n < 0 {
      assert s[0] == '-' && s[1..] == NatToString(-n);
      DigitsValueOfNatToString(-n);
      assert ParseNat(s[1..]) == Some(-n);
    } else {
      assert IsDigit(s[0]);
      DigitsValueOfNatToString(n);
      assert ParseNat(s) == Some(n);
    }
  }

  // ---------------------------------------------------------------- search

  /** ASCII upper-casing (the ordinal ignore-case comparison of .NET on ASCII). */
  function ToUpper(c: char): char {
    if 'a' <= c <= 'z' then (c as int - 32) as char else c
  }

  predicate CharEq(a: char, b: char, ignoreCase: bool) {
    if ignoreCase then ToUpper(a) == ToUpper(b) else a == b
  }

  /** `pat` occurs in `s` starting at index `i`. */
  predicate MatchesAt(s: string, i: nat, pat: string, ignoreCase: bool) {
    i + |pat| <= |s| && forall k :: 0 <= k < |pat| ==> CharEq(s[i + k], pat[k], ignoreCase)
  }

  /** `s.IndexOf(pat, from)` with ordinal (or ordinal ignore-case) comparison. */
  function IndexOfFrom(s: string, pat: string, from: nat, ignoreCase: bool): (r: Option<nat>)
    ensures r.Some? ==> from <= r.value && MatchesAt(s, r.value, pat, ignoreCase)
    ensures r.Some? ==> forall j: nat :: from <= j < r.value ==> !MatchesAt(s, j, pat, ignoreCase)
    ensures r.None? ==> forall j: nat :: from <= j ==> !MatchesAt(s, j, pat, ignoreCase)
    decreases |s| - from
  {
    if from + |pat| > |s| then None
    else if MatchesAt(s, from, pat, ignoreCase) then Some(from)
    else IndexOfFrom(s, pat, from + 1, ignoreCase)
  }

  function IndexOf(s: string, pat: string): (r: Option<nat>)
    ensures r.Some? ==> MatchesAt(s, r.value, pat, false)
    ensures r.Some? ==> forall j: nat :: j < r.value ==> !MatchesAt(s, j, pat, false)
    ensures r.None? ==> forall j: nat :: !MatchesAt(s, j, pat, false)
  {
    IndexOfFrom(s, pat, 0, false)
  }

  /** `s.Contains(pat)` (ordinal) or `s.Contains(pat, OrdinalIgnoreCase)`. */
  predicate Contains(s: string, pat: string, ignoreCase: bool) {
    IndexOfFrom(s, pat, 0, ignoreCase).Some?
  }

  lemma ContainsIff(s: string, pat: string, ignoreCase: bool)
    ensures Contains(s, pat, ignoreCase) <==> exists i: nat :: MatchesAt(s, i, pat, ignoreCase)
  {
    if Contains(s, pat, ignoreCase) {
      var i := IndexOfFrom(s, pat, 0, ignoreCase).value;
      assert MatchesAt(s, i, pat, ignoreCase);
    }
  }

  // ---------------------------------------------------------------- Split

  /** `s.Split(sep)` with a non-empty separator and no options: every piece,
      empty ones included, from left to right. */
  function Split(s: string, sep: string): (pieces: seq<string>)
    requires |sep| > 0
    ensures |pieces| >= 1
    ensures forall k :: 0 <= k < |pieces| ==> IndexOf(pieces[k], sep).None?
    decreases |s|
  {
    match IndexOf(s, sep)
    case None => [s]
    case Some(i) =>
      PrefixHasNoMatch(s, sep, i);
      [s[..i]] + Split(s[i + |sep|..], sep)
  }

  lemma MatchInPrefix(s: string, n: nat, j: nat, pat: string, ignoreCase: bool)
    requires n <= |s| && MatchesAt(s[..n], j, pat, ignoreCase)
    ensures MatchesAt(s, j, pat, ignoreCase) && j + |pat| <= n
  {
    forall k | 0 <= k < |pat|
      ensures CharEq(s[j + k], pat[k], ignoreCase)
    {
      assert s[..n][j + k] == s[j + k];
    }
  }

  lemma PrefixHasNoMatch(s: string, sep: string, i: nat)
    requires |sep| > 0 && IndexOf(s, sep) == Some(i)
    ensures IndexOf(s[..i], sep).None?
  {
    var r := IndexOf(s[..i], sep);
    if r.Some? {
      MatchInPrefix(s, i, r.value, sep, false);
    }
  }

  /** `string.Join(sep, pieces)`. */
  function Join(pieces: seq<string>, sep: string): string {
    if |pieces| == 0 then ""
    else if |pieces| == 1 then pieces[0]
    else pieces[0] + sep + Join(pieces[1..], sep)
  }

  /** Splitting and joining with the same separator gives the input back. */
  lemma {:induction false} JoinSplit(s: string, sep: string)
    requires |sep| > 0
    ensures Join(Split(s, sep), sep) == s
    decreases |s|
  {
    var r := IndexOf(s, sep);
    if r.Some? {
      var i := r.value;
      var rest := s[i + |sep|..];
      JoinSplit(rest, sep);
      SplitStep(s, sep, i);
      JoinCons(s[..i], Split(rest, sep), sep);
      SeparatorAt(s, sep, i);
    }
  }

  lemma SplitStep(s: string, sep: string, i: nat)
    requires |sep| > 0 && IndexOf(s, sep) == Some(i)
    ensures Split(s, sep) == [s[..i]] + Split(s[i + |sep|..], sep)
  {
  }

  lemma JoinCons(x: string, tail: seq<string>, sep: string)
    requires |tail| >= 1
    ensures Join([x] + tail, sep) == x + sep + Join(tail, sep)
  {
    assert ([x] + tail)[1..] == tail;
  }

  lemma SeparatorAt(s: string, sep: string, i: nat)
    requires MatchesAt(s, i, sep, false)
    ensures s == s[..i] + sep + s[i + |sep|..]
  {
    assert s[i..i + |sep|] == sep;
    assert s == s[..i] + s[i..i + |sep|] + s[i + |sep|..];
  }

  /** A one-character pattern matches exactly where that character is. */
  lemma MatchesChar(s: string, j: nat, c: char)
    ensures MatchesAt(s, j, [c], false) <==> j < |s| && s[j] == c
  {
    assert [c][0] == c;
    if MatchesAt(s, j, [c], false) {
      assert CharEq(s[j + 0], [c][0], false);
    }
    if j < |s| && s[j] == c {
      assert s[j + 0] == [c][0];
    }
  }

  /** A string without the separator character is one piece. */
  lemma SplitNoSeparator(s: string, c: char)
    requires c !in s
    ensures Split(s, [c]) == [s]
  {
    forall j: nat ensures !MatchesAt(s, j, [c], false) {
      MatchesChar(s, j, c);
    }
    assert IndexOf(s, [c]).None?;
  }

  /** A string with exactly one `c` splits into the parts either side. */
  lemma SplitPair(a: string, c: char, b: string)
    requires c !in a && c !in b
    ensures Split(a + [c] + b, [c]) == [a, b]
  {
    SplitAtFirst(a, c, b);
    SplitNoSeparator(b, c);
  }

  /** Splitting on a character gives at least two pieces exactly when the
      character occurs. */
  lemma SplitNoSeparatorIff(s: string, c: char)
    ensures |Split(s, [c])| >= 2 <==> c in s
  {
    if c in s {
      var i :| 0 <= i < |s| && s[i] == c;
      var k := FirstIndex(s, c, i);
      assert s == s[..k] + [c] + s[k + 1..];
      SplitAtFirst(s[..k], c, s[k + 1..]);
    } else {
      SplitNoSeparator(s, c);
    }
  }

  /** Index of the first `c` in `s`, given that one sits at `i`. */
  lemma FirstIndex(s: string, c: char, i: nat) returns (k: nat)
    requires i < |s| && s[i] == c
    ensures k < |s| && s[k] == c && c !in s[..k]
    decreases i
  {
    if c in s[..i] {
      var j :| 0 <= j < i && s[..i][j] == c;
      k := FirstIndex(s, c, j);
    } else {
      k := i;
    }
  }

  /** Splitting on a character cuts at its first occurrence. */
  lemma SplitAtFirst(a: string, c: char, b: string)
    requires c !in a
    ensures Split(a + [c] + b, [c]) == [a] + Split(b, [c])
  {
    var s := a + [c] + b;
    forall j: nat | j < |a| ensures !MatchesAt(s, j, [c], false) {
      MatchesChar(s, j, c);
      assert s[j] == a[j];
    }
    MatchesChar(s, |a|, c);
    assert IndexOf(s, [c]) == Some(|a|);
    assert s[..|a|] == a && s[|a| + 1..] == b;
  }

  /** Removes the pieces `Split` produced that are empty
      (`StringSplitOptions.RemoveEmptyEntries`). */
  function NonEmpty(pieces: seq<string>): (r: seq<string>)
    ensures forall k :: 0 <= k < |r| ==> |r[k]| > 0
    ensures forall x :: x in r <==> x in pieces && |x| > 0
  {
    if |pieces| == 0 then []
    else if |pieces[0]| == 0 then NonEmpty(pieces[1..])
    else [pieces[0]] + NonEmpty(pieces[1..])
  }

  // ---------------------------------------------------------------- Trim

  /** The white-space characters `Trim()` removes. */
  const WhiteSpace: set<char> := {' ', '\t', '\n', '\r', '\U{000B}', '\U{000C}'}

  /** Number of leading characters of `s` that belong to `drop`. */
  function LeadingIn(s: string, drop: set<char>): (n: nat)
    ensures n <= |s|
    ensures n < |s| ==> s[n] !in drop
    ensures forall i :: 0 <= i < n ==> s[i] in drop
  {
    if |s| > 0 && s[0] in drop then 1 + LeadingIn(s[1..], drop) else 0
  }

  /** Number of trailing characters of `s` that belong to `drop`. */
  function TrailingIn(s: string, drop: set<char>): (n: nat)
    ensures n <= |s|
    ensures n < |s| ==> s[|s| - 1 - n] !in drop
    ensures forall i :: |s| - n <= i < |s| ==> s[i] in drop
  {
    if |s| > 0 && s[|s| - 1] in drop then 1 + TrailingIn(s[..|s| - 1], drop) else 0
  }

  /** `s.Trim(chars)`: the characters in `drop` removed from both ends. */
  function TrimSet(s: string, drop: set<char>): (r: string)
    ensures exists a, b :: 0 <= a <= b <= |s| && r == s[a..b]
    ensures |r| > 0 ==> r[0] !in drop && r[|r| - 1] !in drop
    ensures (forall i :: 0 <= i < |s| ==> s[i] in drop) <==> r == ""
  {
    var a := LeadingIn(s, drop);
    var t := s[a..];
    var b := TrailingIn(t, drop);
    assert t[..|t| - b] == s[a..|s| - b];
    if a == |s| then "" else s[a..|s| - b]
  }

  /** `s.Trim()`: white space removed from both ends, the middle untouched. */
  function Trim(s: string): (r: string)
    ensures exists a, b :: 0 <= a <= b <= |s| && r == s[a..b]
    ensures |r| > 0 ==> !IsWhiteSpace(r[0]) && !IsWhiteSpace(r[|r| - 1])
    ensures IsBlank(s) <==> r == ""
  {
    TrimSet(s, WhiteSpace)
  }

  /** `s.Trim(c)`: the character `c` removed from both ends. */
  function TrimChar(s: string, c: char): (r: string)
    ensures exists a, b :: 0 <= a <= b <= |s| && r == s[a..b]
    ensures |r| > 0 ==> r[0] != c && r[|r| - 1] != c
  {
    TrimSet(s, {c})
  }

  // ---------------------------------------------------------------- Replace

  /** `s.Replace(pat, rep)` (ordinal, or ordinal ignore-case): occurrences are
      found from left to right and do not overlap. */
  function Replace(s: string, pat: string, rep: string, ignoreCase: bool): (r: string)
    requires |pat| > 0
    ensures (forall i: nat :: !MatchesAt(s, i, pat, ignoreCase)) ==> r == s
    ensures |rep| == 0 ==> |r| <= |s|
    decreases |s|
  {
    if |s| == 0 then ""
    else if MatchesAt(s, 0, pat, ignoreCase) then
      rep + Replace(s[|pat|..], pat, rep, ignoreCase)
    else
      assert forall i: nat :: MatchesAt(s[1..], i, pat, ignoreCase) ==> MatchesAt(s, i + 1, pat, ignoreCase);
      [s[0]] + Replace(s[1..], pat, rep, ignoreCase)
  }

  /** Removing a pattern that has a single character removes exactly the
      occurrences of that character. */
  lemma {:induction false} ReplaceCharRemovesIt(s: string, c: char)
    ensures Replace(s, [c], "", false) == Filter(s, c)
    decreases |s|
  {
    if |s| > 0 {
      ReplaceCharRemovesIt(s[1..], c);
      assert [c][0] == c;
      if s[0] == c {
        assert MatchesAt(s, 0, [c], false);
      } else {
        assert !CharEq(s[0 + 0], [c][0], false);
      }
    }
  }

  /** The characters of `s` other than `c`, in order. */
  function Filter(s: string, c: char): (r: string)
    ensures c !in r
    ensures forall x :: x in r <==> x in s && x != c
  {
    if |s| == 0 then "" else (if s[0] == c then "" else [s[0]]) + Filter(s[1..], c)
  }

  lemma {:induction false} FilterAppend(a: string, b: string, c: char)
    ensures Filter(a + b, c) == Filter(a, c) + Filter(b, c)
  {
    if |a| == 0 {
      assert a + b == b;
    } else {
      var head := if a[0] == c then "" else [a[0]];
      assert (a + b)[0] == a[0] && (a + b)[1..] == a[1..] + b;
      assert Filter(a + b, c) == head + Filter(a[1..] + b, c);
      FilterAppend(a[1..], b, c);
      assert Filter(a, c) == head + Filter(a[1..], c);
      assert head + (Filter(a[1..], c) + Filter(b, c)) == (head + Filter(a[1..], c)) + Filter(b, c);
    }
  }

  lemma {:induction false} FilterAbsent(s: string, c: char)
    requires c !in s
    ensures Filter(s, c) == s
  {
    if |s| > 0 {
      FilterAbsent(s[1..], c);
    }
  }

  /** Number of occurrences of `c` in `s` (LINQ `Count(x => x == c)`). */
  function CountChar(s: string, c: char): (n: nat)
    ensures n <= |s|
    ensures n == 0 <==> c !in s
  {
    if |s| == 0 then 0 else (if s[0] == c then 1 else 0) + CountChar(s[1..], c)
  }

  /** `CountChar` is the multiplicity of `c` in `s`. */
  lemma {:induction false} CountCharMultiplicity(s: string, c: char)
    ensures CountChar(s, c) == multiset(s)[c]
  {
    if |s| > 0 {
      CountCharMultiplicity(s[1..], c);
      assert s == [s[0]] + s[1..];
    }
  }

  // ---------------------------------------------------------------- occurrences in joined strings

  /** `pat` occurs nowhere in `s`. */
  ghost predicate NoMatch(s: string, pat: string, ignoreCase: bool) {
    forall i: nat :: !MatchesAt(s, i, pat, ignoreCase)
  }

  /** No character of `m` equals a character of `pat`. */
  predicate Avoids(m: string, pat: string, ignoreCase: bool) {
    forall i, k :: 0 <= i < |m| && 0 <= k < |pat| ==> !CharEq(m[i], pat[k], ignoreCase)
  }

  predicate IsLetter(c: char) { 'a' <= c <= 'z' || 'A' <= c <= 'Z' }

  /** White space shares no character with a pattern of letters. */
  lemma BlankAvoids(m: string, pat: string, ignoreCase: bool)
    requires IsBlank(m) && forall k :: 0 <= k < |pat| ==> IsLetter(pat[k])
    ensures Avoids(m, pat, ignoreCase)
  {
  }

  /** A string whose characters all come from `from` avoids what `from` avoids. */
  lemma AvoidsWithin(m: string, from: string, pat: string, ignoreCase: bool)
    requires Avoids(from, pat, ignoreCase) && forall i :: 0 <= i < |m| ==> m[i] in from
    ensures Avoids(m, pat, ignoreCase)
  {
    forall i, k | 0 <= i < |m| && 0 <= k < |pat| ensures !CharEq(m[i], pat[k], ignoreCase) {
      var j :| 0 <= j < |from| && from[j] == m[i];
    }
  }

  lemma MatchInLeft(x: string, y: string, i: nat, pat: string, ignoreCase: bool)
    requires i + |pat| <= |x|
    ensures MatchesAt(x + y, i, pat, ignoreCase) <==> MatchesAt(x, i, pat, ignoreCase)
  {
    if MatchesAt(x + y, i, pat, ignoreCase) {
      forall k | 0 <= k < |pat| ensures CharEq(x[i + k], pat[k], ignoreCase) {
        assert (x + y)[i + k] == x[i + k];
      }
    }
    if MatchesAt(x, i, pat, ignoreCase) {
      forall k | 0 <= k < |pat| ensures CharEq((x + y)[i + k], pat[k], ignoreCase) {
        assert (x + y)[i + k] == x[i + k];
      }
    }
  }

  lemma MatchInRight(x: string, y: string, i: nat, pat: string, ignoreCase: bool)
    requires |x| <= i
    ensures MatchesAt(x + y, i, pat, ignoreCase) <==> MatchesAt(y, i - |x|, pat, ignoreCase)
  {
    if MatchesAt(x + y, i, pat, ignoreCase) {
      forall k | 0 <= k < |pat| ensures CharEq(y[i - |x| + k], pat[k], ignoreCase) {
        assert (x + y)[i + k] == y[i - |x| + k];
      }
    }
    if MatchesAt(y, i - |x|, pat, ignoreCase) {
      forall k | 0 <= k < |pat| ensures CharEq((x + y)[i + k], pat[k], ignoreCase) {
        assert (x + y)[i + k] == y[i - |x| + k];
      }
    }
  }

  /** An occurrence of a pattern holds an occurrence of each of its pieces. */
  lemma MatchPart(s: string, i: nat, pat: string, j: nat, n: nat, ignoreCase: bool)
    requires j + n <= |pat| && MatchesAt(s, i, pat, ignoreCase)
    ensures MatchesAt(s, i + j, pat[j..j + n], ignoreCase)
  {
    var sub := pat[j..j + n];
    forall k | 0 <= k < n ensures CharEq(s[i + j + k], sub[k], ignoreCase) {
      assert sub[k] == pat[j + k];
      assert CharEq(s[i + (j + k)], pat[j + k], ignoreCase);
    }
  }

  /** A string without a piece of the pattern has no occurrence of the pattern. */
  lemma NoMatchPart(s: string, pat: string, j: nat, n: nat, ignoreCase: bool)
    requires j + n <= |pat| && NoMatch(s, pat[j..j + n], ignoreCase)
    ensures NoMatch(s, pat, ignoreCase)
  {
    forall i: nat | MatchesAt(s, i, pat, ignoreCase) ensures false {
      MatchPart(s, i, pat, j, n, ignoreCase);
    }
  }

  /** No occurrence starts inside `a + m` when `a` has none and `m` shares no
      character with the pattern: it would have to cover a character of `m`. */
  lemma NoMatchBefore(a: string, m: string, b: string, pat: string, ignoreCase: bool)
    requires |pat| > 0 && (|m| > 0 || |a| == 0)
    requires NoMatch(a, pat, ignoreCase) && Avoids(m, pat, ignoreCase)
    ensures forall i: nat :: i < |a| + |m| ==> !MatchesAt(a + m + b, i, pat, ignoreCase)
  {
    var s := a + m + b;
    forall i: nat | i < |a| + |m| ensures !MatchesAt(s, i, pat, ignoreCase) {
      if i + |pat| <= |a| {
        assert s == a + (m + b);
        MatchInLeft(a, m + b, i, pat, ignoreCase);
      } else {
        var p := if i < |a| then |a| else i;
        assert s[p] == m[p - |a|];
        assert !CharEq(s[i + (p - i)], pat[p - i], ignoreCase);
      }
    }
  }

  /** Joining two strings without the pattern around a middle that shares no
      character with it creates no occurrence. */
  lemma NoMatchJoin(a: string, m: string, b: string, pat: string, ignoreCase: bool)
    requires |pat| > 0 && (|m| > 0 || |a| == 0)
    requires NoMatch(a, pat, ignoreCase) && Avoids(m, pat, ignoreCase) && NoMatch(b, pat, ignoreCase)
    ensures NoMatch(a + m + b, pat, ignoreCase)
  {
    NoMatchBefore(a, m, b, pat, ignoreCase);
    forall i: nat | |a| + |m| <= i ensures !MatchesAt(a + m + b, i, pat, ignoreCase) {
      MatchInRight(a + m, b, i, pat, ignoreCase);
    }
  }

  /** The first occurrence is at `i` when one is there and none starts before. */
  lemma IndexOfAt(s: string, pat: string, i: nat)
    requires MatchesAt(s, i, pat, false)
    requires forall j: nat :: j < i ==> !MatchesAt(s, j, pat, false)
    ensures IndexOf(s, pat) == Some(i)
  {
  }

  /** Splitting at a first separator that follows `a`. */
  lemma SplitAfter(a: string, sep: string, b: string)
    requires |sep| > 0
    requires forall j: nat :: j < |a| ==> !MatchesAt(a + sep + b, j, sep, false)
    ensures Split(a + sep + b, sep) == [a] + Split(b, sep)
  {
    var s := a + sep + b;
    assert s == a + (sep + b);
    MatchInRight(a, sep + b, |a|, sep, false);
    assert MatchesAt(sep + b, 0, sep, false) by {
      assert forall k :: 0 <= k < |sep| ==> (sep + b)[k] == sep[k];
    }
    IndexOfAt(s, sep, |a|);
    SplitStep(s, sep, |a|);
    assert s[..|a|] == a && s[|a| + |sep|..] == b;
  }

  /** Splitting a string without the separator gives it back whole. */
  lemma SplitWhole(s: string, sep: string)
    requires |sep| > 0 && NoMatch(s, sep, false)
    ensures Split(s, sep) == [s]
  {
  }

  /** `Replace` copies a prefix in which no occurrence starts. */
  lemma {:induction false} ReplaceSkip(a: string, b: string, pat: string, rep: string, ignoreCase: bool)
    requires |pat| > 0
    requires forall i: nat :: i < |a| ==> !MatchesAt(a + b, i, pat, ignoreCase)
    ensures Replace(a + b, pat, rep, ignoreCase) == a + Replace(b, pat, rep, ignoreCase)
    decreases |a|
  {
    if |a| == 0 {
      assert a + b == b;
      assert a + Replace(b, pat, rep, ignoreCase) == Replace(b, pat, rep, ignoreCase);
    } else {
      SkipShift(a, b, pat, ignoreCase);
      ReplaceSkip(a[1..], b, pat, rep, ignoreCase);
      ReplaceSkipStep(a, b, pat, rep, ignoreCase);
    }
  }

  /** One step of `ReplaceSkip`: the first character is copied. */
  lemma ReplaceSkipStep(a: string, b: string, pat: string, rep: string, ignoreCase: bool)
    requires |pat| > 0 && |a| > 0 && !MatchesAt(a + b, 0, pat, ignoreCase)
    requires Replace(a[1..] + b, pat, rep, ignoreCase) == a[1..] + Replace(b, pat, rep, ignoreCase)
    ensures Replace(a + b, pat, rep, ignoreCase) == a + Replace(b, pat, rep, ignoreCase)
  {
    ReplaceCopyFirst(a, b, pat, rep, ignoreCase);
    ConsTail(a, Replace(b, pat, rep, ignoreCase));
  }

  lemma ReplaceCopyFirst(a: string, b: string, pat: string, rep: string, ignoreCase: bool)
    requires |pat| > 0 && |a| > 0 && !MatchesAt(a + b, 0, pat, ignoreCase)
    ensures Replace(a + b, pat, rep, ignoreCase) == [a[0]] + Replace(a[1..] + b, pat, rep, ignoreCase)
  {
    var s := a + b;
    assert s[1..] == a[1..] + b && s[0] == a[0];
    ReplaceNoMatchFront(s, pat, rep, ignoreCase);
  }

  lemma ConsTail(a: string, t: string)
    requires |a| > 0
    ensures [a[0]] + (a[1..] + t) == a + t
  {
    assert a == [a[0]] + a[1..];
  }

  /** No occurrence starts in `a[1..]` when none starts in `a`. */
  lemma SkipShift(a: string, b: string, pat: string, ignoreCase: bool)
    requires |a| > 0
    requires forall i: nat :: i < |a| ==> !MatchesAt(a + b, i, pat, ignoreCase)
    ensures forall i: nat :: i < |a[1..]| ==> !MatchesAt(a[1..] + b, i, pat, ignoreCase)
  {
    assert a + b == [a[0]] + (a[1..] + b);
    forall i: nat | i < |a[1..]| ensures !MatchesAt(a[1..] + b, i, pat, ignoreCase) {
      assert !MatchesAt(a + b, i + 1, pat, ignoreCase);
      MatchInRight([a[0]], a[1..] + b, i + 1, pat, ignoreCase);
    }
  }

  /** `Replace` copies a first character at which no occurrence starts. */
  lemma ReplaceNoMatchFront(s: string, pat: string, rep: string, ignoreCase: bool)
    requires |pat| > 0 && |s| > 0 && !MatchesAt(s, 0, pat, ignoreCase)
    ensures Replace(s, pat, rep, ignoreCase) == [s[0]] + Replace(s[1..], pat, rep, ignoreCase)
  {
  }

  /** `Replace` at an occurrence at the front. */
  lemma ReplaceFront(pat: string, b: string, rep: string, ignoreCase: bool)
    requires |pat| > 0
    ensures Replace(pat + b, pat, rep, ignoreCase) == rep + Replace(b, pat, rep, ignoreCase)
  {
    var s := pat + b;
    assert forall k :: 0 <= k < |pat| ==> s[k] == pat[k];
    assert MatchesAt(s, 0, pat, ignoreCase);
    assert s[|pat|..] == b;
  }

  /** Removing a pattern that occurs once, after a middle that shares no
      character with it, leaves the pieces around it. */
  lemma RemoveBetween(a: string, m: string, pat: string, b: string, ignoreCase: bool)
    requires |pat| > 0 && |m| > 0
    requires NoMatch(a, pat, ignoreCase) && Avoids(m, pat, ignoreCase) && NoMatch(b, pat, ignoreCase)
    ensures Replace(a + m + pat + b, pat, "", ignoreCase) == a + m + b
  {
    NoMatchBefore(a, m, pat + b, pat, ignoreCase);
    assert a + m + pat + b == (a + m) + (pat + b);
    ReplaceSkip(a + m, pat + b, pat, "", ignoreCase);
    ReplaceFront(pat, b, "", ignoreCase);
    assert "" + b == b;
  }

  /** `TrimSet` drops exactly the padding around a core whose ends it keeps. */
  lemma TrimSetPadded(lead: string, x: string, tail: string, drop: set<char>)
    requires forall i :: 0 <= i < |lead| ==> lead[i] in drop
    requires forall i :: 0 <= i < |tail| ==> tail[i] in drop
    requires |x| > 0 && x[0] !in drop && x[|x| - 1] !in drop
    ensures TrimSet(lead + x + tail, drop) == x
  {
    var s := lead + x + tail;
    var a := LeadingIn(s, drop);
    assert s[|lead|] == x[0];
    assert forall i :: 0 <= i < |lead| ==> s[i] == lead[i];
    assert a == |lead|;
    var t := s[a..];
    assert t == x + tail;
    var b := TrailingIn(t, drop);
    assert t[|x| - 1] == x[|x| - 1];
    assert forall i :: |x| <= i < |t| ==> t[i] == tail[i - |x|];
    assert b == |tail|;
    assert s[a..|s| - b] == x;
  }

  lemma TrimPadded(lead: string, x: string, tail: string)
    requires IsBlank(lead) && IsBlank(tail)
    requires |x| > 0 && !IsWhiteSpace(x[0]) && !IsWhiteSpace(x[|x| - 1])
    ensures Trim(lead + x + tail) == x
  {
    TrimSetPadded(lead, x, tail, WhiteSpace);
  }

  // ---------------------------------------------------------------- paragraphs

  /** Lines grouped into paragraphs: a blank line (`IsNullOrWhiteSpace`) closes
      the group being built and starts a new one, and the group being built
      when the input ends is always kept, even when it is empty. */
  function Paragraphs(lines: seq<string>): (groups: seq<seq<string>>)
    ensures |groups| >= 1
    ensures forall g, l :: g in groups && l in g ==> l in lines && !IsBlank(l)
  {
    if |lines| == 0 then [[]]
    else
      var rest := Paragraphs(lines[1..]);
      if IsBlank(lines[0]) then [[]] + rest else [[lines[0]] + rest[0]] + rest[1..]
  }

  function CountBlank(lines: seq<string>): nat {
    if |lines| == 0 then 0 else (if IsBlank(lines[0]) then 1 else 0) + CountBlank(lines[1..])
  }

  function NonBlank(lines: seq<string>): seq<string> {
    if |lines| == 0 then [] else (if IsBlank(lines[0]) then [] else [lines[0]]) + NonBlank(lines[1..])
  }

  function Flatten<T>(groups: seq<seq<T>>): seq<T> {
    if |groups| == 0 then [] else groups[0] + Flatten(groups[1..])
  }

  lemma {:induction false} InFlatten<T>(groups: seq<seq<T>>, x: T)
    requires x in Flatten(groups)
    ensures exists k :: 0 <= k < |groups| && x in groups[k]
  {
    if x !in groups[0] {
      InFlatten(groups[1..], x);
      var k :| 0 <= k < |groups[1..]| && x in groups[1..][k];
      assert x in groups[k + 1];
    }
  }

  lemma {:induction false} InNonBlank(lines: seq<string>, l: string)
    requires l in lines && !IsBlank(l)
    ensures l in NonBlank(lines)
  {
    if lines[0] != l {
      InNonBlank(lines[1..], l);
    }
  }

  /** There is one more paragraph than there are blank lines, and the
      paragraphs hold exactly the non-blank lines, in input order. */
  lemma {:induction false} ParagraphsPartition(lines: seq<string>)
    ensures |Paragraphs(lines)| == CountBlank(lines) + 1
    ensures Flatten(Paragraphs(lines)) == NonBlank(lines)
  {
    if |lines| > 0 {
      ParagraphsPartition(lines[1..]);
      var rest := Paragraphs(lines[1..]);
      if !IsBlank(lines[0]) {
        assert Flatten(rest) == rest[0] + Flatten(rest[1..]);
      }
    }
  }
}
