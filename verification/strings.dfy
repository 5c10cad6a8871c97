/**
 The few Python `str` operations the scraper relies on, with Python's
 semantics: `startswith`, `endswith`, `in`, `split(sep)`, `sep.join`,
 `lstrip(chars)` (which strips a character SET, not a prefix) and
 `int(...)` on a decimal literal.
 */
module Strings {
  import opened Outcomes

  predicate StartsWith(s: string, prefix: string) {
    |prefix| <= |s| && s[..|prefix|] == prefix
  }

  predicate EndsWith(s: string, suffix: string) {
    |suffix| <= |s| && s[|s| - |suffix|..] == suffix
  }

  /** `sub` occurs in `s` starting at index `i`. */
  predicate OccursAt(s: string, sub: string, i: int) {
    0 <= i && i + |sub| <= |s| && s[i..i + |sub|] == sub
  }

  lemma OccursAtShift(s: string, sub: string)
    requires |s| > 0
    ensures forall j :: 1 <= j ==> (OccursAt(s, sub, j) <==> OccursAt(s[1..], sub, j - 1))
  {
    forall j | 1 <= j
      ensures OccursAt(s, sub, j) <==> OccursAt(s[1..], sub, j - 1)
    {
      if j + |sub| <= |s| {
        assert s[1..][j - 1..j - 1 + |sub|] == s[j..j + |sub|];
      }
    }
  }

  lemma OccursInPrefix(s: string, k: nat, sub: string)
    requires k <= |s|
    ensures forall j :: OccursAt(s[..k], sub, j) ==> OccursAt(s, sub, j) && j + |sub| <= k
  {
    forall j | OccursAt(s[..k], sub, j)
      ensures OccursAt(s, sub, j) && j + |sub| <= k
    {
      assert s[..k][j..j + |sub|] == s[j..j + |sub|];
    }
  }

  /** Index of the leftmost occurrence of `sub` in `s` (Python's `s.find(sub)`, with `None` for -1). */
  function FindFirst(s: string, sub: string): (r: Option<nat>)
    ensures r.Some? ==> OccursAt(s, sub, r.value)
    ensures r.Some? ==> forall j :: 0 <= j < r.value ==> !OccursAt(s, sub, j)
    ensures r.None? ==> forall j :: !OccursAt(s, sub, j)
    decreases |s|
  {
    if |s| < |sub| then None
    else if s[..|sub|] == sub then Some(0)
    else
      OccursAtShift(s, sub);
      match FindFirst(s[1..], sub)
      case None => None
      case Some(i) => Some(i + 1)
  }

  /** Python's `sub in s`. */
  function Contains(s: string, sub: string): (b: bool)
    ensures b <==> exists j :: OccursAt(s, sub, j)
  {
    FindFirst(s, sub).Some?
  }

  /** Python's `sep.join(pieces)`. */
  function Join(pieces: seq<string>, sep: string): string
    decreases |pieces|
  {
    if |pieces| == 0 then ""
    else if |pieces| == 1 then pieces[0]
    else pieces[0] + sep + Join(pieces[1..], sep)
  }

  /**
   Python's `s.split(sep)` for a non-empty separator: cut at every
   non-overlapping occurrence, scanning from the left. Joining the pieces
   back gives `s`, and no piece contains the separator.
   */
  function SplitOn(s: string, sep: string): (pieces: seq<string>)
    requires |sep| > 0
    ensures |pieces| >= 1
    ensures |pieces| >= 2 <==> Contains(s, sep)
    decreases |s|
  {
    match FindFirst(s, sep)
    case None => [s]
    case Some(i) => [s[..i]] + SplitOn(s[i + |sep|..], sep)
  }

  /** Joining the pieces with the separator gives back the string, and no piece contains the separator. */
  lemma {:induction false} SplitOnJoin(s: string, sep: string)
    requires |sep| > 0
    ensures Join(SplitOn(s, sep), sep) == s
    ensures forall k :: 0 <= k < |SplitOn(s, sep)| ==> !Contains(SplitOn(s, sep)[k], sep)
    decreases |s|
  {
    match FindFirst(s, sep)
    case None =>
    case Some(i) =>
      var rest := s[i + |sep|..];
      SplitOnJoin(rest, sep);
      OccursInPrefix(s, i, sep);
      assert s[i..i + |sep|] == sep;
      assert s == s[..i] + s[i..i + |sep|] + rest;
      assert SplitOn(s, sep) == [s[..i]] + SplitOn(rest, sep);
  }

  /** `FindFirst` is pinned down by any occurrence with none before it. */
  lemma FindFirstAt(s: string, sub: string, i: nat)
    requires OccursAt(s, sub, i)
    requires forall j :: 0 <= j < i ==> !OccursAt(s, sub, j)
    ensures FindFirst(s, sub) == Some(i)
  {
  }

  /** A string without the separator splits into itself alone. */
  lemma SplitWithoutSep(s: string, sep: string)
    requires |sep| > 0 && !Contains(s, sep)
    ensures SplitOn(s, sep) == [s]
  {
  }

  /** The first piece of a split is the text before the leftmost separator. */
  lemma SplitFirstPiece(s: string, sep: string, i: nat)
    requires |sep| > 0 && FindFirst(s, sep) == Some(i)
    ensures SplitOn(s, sep)[0] == s[..i]
    ensures SplitOn(s, sep)[1..] == SplitOn(s[i + |sep|..], sep)
  {
    var rest := SplitOn(s[i + |sep|..], sep);
    assert SplitOn(s, sep) == [s[..i]] + rest;
    assert ([s[..i]] + rest)[1..] == rest;
  }

  /** One mismatching character rules out an occurrence. */
  lemma NotOccursByChar(s: string, sub: string, j: nat, k: nat)
    requires k < |sub| && j + k < |s| && s[j + k] != sub[k]
    ensures !OccursAt(s, sub, j)
  {
    if j + |sub| <= |s| {
      assert s[j..j + |sub|][k] == s[j + k];
    }
  }

  /** An occurrence missing from the middle part is missing from the whole at the shifted index. */
  lemma NotOccursAround(pre: string, s: string, post: string, sub: string, j: nat)
    requires j + |sub| <= |s| && !OccursAt(s, sub, j)
    ensures !OccursAt(pre + s + post, sub, |pre| + j)
  {
    assert (pre + s + post)[|pre| + j..|pre| + j + |sub|] == s[j..j + |sub|];
  }

  /** A string that lacks the first character of `sub` does not contain `sub`. */
  lemma LacksFirstChar(s: string, sub: string)
    requires |sub| > 0 && sub[0] !in s
    ensures !Contains(s, sub)
  {
    forall j
      ensures !OccursAt(s, sub, j)
    {
      if 0 <= j && j + |sub| <= |s| {
        assert s[j..j + |sub|][0] == s[j];
      }
    }
  }

  /** A string without the character `c` splits on `c` into itself alone. */
  lemma SplitWithoutChar(s: string, c: char)
    requires c !in s
    ensures SplitOn(s, [c]) == [s]
  {
    forall j
      ensures !OccursAt(s, [c], j)
    {
      if 0 <= j && j + 1 <= |s| {
        assert s[j..j + 1] == [s[j]];
      }
    }
    SplitWithoutSep(s, [c]);
  }

  /** Splitting `a + [c] + b` on `c` gives back `a` and `b` when neither holds `c`. */
  lemma SplitPair(a: string, b: string, c: char)
    requires c !in a && c !in b
    ensures SplitOn(a + [c] + b, [c]) == [a, b]
  {
    var s := a + [c] + b;
    assert s[|a|..|a| + 1] == [c];
    forall j | 0 <= j < |a|
      ensures !OccursAt(s, [c], j)
    {
      assert s[j] == a[j];
      NotOccursByChar(s, [c], j, 0);
    }
    FindFirstAt(s, [c], |a|);
    assert SplitOn(b, [c]) == [b] by { SplitWithoutChar(b, c); }
    assert s[..|a|] == a;
    assert s[|a| + 1..] == b;
    SplitFirstPiece(s, [c], |a|);
  }

  /** Python's `s.lstrip(chars)`: drop the longest prefix made only of characters in `chars`. */
  function LStrip(s: string, chars: set<char>): (r: string)
    ensures |r| <= |s| && r == s[|s| - |r|..]
    ensures forall j :: 0 <= j < |s| - |r| ==> s[j] in chars
    ensures |r| > 0 ==> r[0] !in chars
    decreases |s|
  {
    if |s| > 0 && s[0] in chars then LStrip(s[1..], chars) else s
  }

  /** `lstrip` stops at the first character outside the set. */
  lemma {:induction false} LStripStopsAt(s: string, chars: set<char>, k: nat)
    requires k <= |s| && (k == |s| || s[k] !in chars)
    requires forall j :: 0 <= j < k ==> s[j] in chars
    ensures LStrip(s, chars) == s[k..]
    decreases k
  {
    if k > 0 {
      assert s[1..][k - 1..] == s[k..];
      LStripStopsAt(s[1..], chars, k - 1);
    }
  }

  /**
   The whitespace `int()` skips around a literal. An ASCII string reaches
   the digit parser unchanged, and that skips only tab, line feed, vertical
   tab, form feed, carriage return and space; a non-ASCII whitespace
   character is first turned into a space. So U+001C to U+001F, which
   `str.isspace` accepts, are not skipped.
   */
  predicate IsSpace(c: char) {
    c == ' ' || '\t' <= c <= '\r' || c == '\U{85}' || c == '\U{A0}'
    || c == '\U{1680}' || '\U{2000}' <= c <= '\U{200A}' || c == '\U{2028}' || c == '\U{2029}'
    || c == '\U{202F}' || c == '\U{205F}' || c == '\U{3000}'
  }

  predicate IsDigit(c: char) {
    '0' <= c <= '9'
  }

  predicate AllDigits(d: string) {
    forall k :: 0 <= k < |d| ==> IsDigit(d[k])
  }

  function DigitChar(d: int): (c: char)
    requires 0 <= d < 10
    ensures IsDigit(c)
  {
    ('0' as int + d) as char
  }

  /** The value of a string of decimal digits, most significant first; `None` if a character is not a digit. */
  function DigitsValue(d: string): (v: Option<nat>)
    ensures v.Some? <==> AllDigits(d)
    decreases |d|
  {
    if |d| == 0 then Some(0)
    else if !IsDigit(d[|d| - 1]) then None
    else
      match DigitsValue(d[..|d| - 1])
      case None => None
      case Some(high) => Some(10 * high + (d[|d| - 1] as int - '0' as int))
  }

  /**
   Python's `int(s)` on a decimal literal: surrounding whitespace, an
   optional sign and at least one digit; anything else raises ValueError.
   */
  function ParseInt(s: string): Result<int> {
    ParseSigned(Trim(s))
  }

  /** Drop the whitespace `int()` skips from both ends of its argument. */
  function Trim(s: string): (t: string)
    ensures |t| <= |s|
    ensures |t| > 0 ==> !IsSpace(t[0]) && !IsSpace(t[|t| - 1])
    decreases |s|
  {
    if |s| > 0 && IsSpace(s[0]) then Trim(s[1..])
    else if |s| > 0 && IsSpace(s[|s| - 1]) then Trim(s[..|s| - 1])
    else s
  }

  /** `t` is the slice of `s` at `i`, and everything of `s` around it is whitespace. */
  predicate SpaceAround(s: string, i: int, t: string) {
    0 <= i && i + |t| <= |s| && t == s[i..i + |t|]
    && (forall k :: 0 <= k < i ==> IsSpace(s[k]))
    && (forall k :: i + |t| <= k < |s| ==> IsSpace(s[k]))
  }

  lemma SpaceAroundCons(s: string, i: int, t: string)
    requires |s| > 0 && IsSpace(s[0]) && SpaceAround(s[1..], i, t)
    ensures SpaceAround(s, i + 1, t)
  {
    assert t == s[i + 1..i + 1 + |t|];
    forall k | 0 < k < |s| ensures s[k] == s[1..][k - 1] { }
  }

  lemma SpaceAroundSnoc(s: string, i: int, t: string)
    requires |s| > 0 && IsSpace(s[|s| - 1]) && SpaceAround(s[..|s| - 1], i, t)
    ensures SpaceAround(s, i, t)
  {
    assert t == s[i..i + |t|];
    forall k | 0 <= k < |s| - 1 ensures s[k] == s[..|s| - 1][k] { }
  }

  /** What `int()` skips is whitespace only, at the two ends: the parsed text is a middle slice. */
  lemma {:induction false} TrimRemovesOnlySpace(s: string)
    ensures exists i :: SpaceAround(s, i, Trim(s))
    decreases |s|
  {
    if |s| > 0 && IsSpace(s[0]) {
      TrimRemovesOnlySpace(s[1..]);
      var i :| SpaceAround(s[1..], i, Trim(s[1..]));
      SpaceAroundCons(s, i, Trim(s));
    } else if |s| > 0 && IsSpace(s[|s| - 1]) {
      TrimRemovesOnlySpace(s[..|s| - 1]);
      var i :| SpaceAround(s[..|s| - 1], i, Trim(s[..|s| - 1]));
      SpaceAroundSnoc(s, i, Trim(s));
    } else {
      assert SpaceAround(s, 0, Trim(s));
    }
  }

  /** A no-break space around the digits is skipped. */
  lemma ParseIntSkipsNoBreakSpace()
    ensures ParseInt("\U{A0}10") == Success(10)
  {
    assert Trim("\U{A0}10") == "10" by { assert "\U{A0}10"[1..] == "10"; }
    DigitsValueOfPair('1', '0');
  }

  /** An ASCII information separator is not whitespace to `int()`: ValueError. */
  lemma ParseIntRejectsSeparator()
    ensures ParseInt("\U{1C}10") == Failure(ValueError)
  {
    assert Trim("\U{1C}10") == "\U{1C}10";
  }

  /** An optional sign followed by at least one digit and nothing else. */
  function ParseSigned(t: string): Result<int> {
    var signed := |t| > 0 && (t[0] == '-' || t[0] == '+');
    var digits := if signed then t[1..] else t;
    if |digits| == 0 then Failure(ValueError)
    else
      match DigitsValue(digits)
      case None => Failure(ValueError)
      case Some(magnitude) =>
        var value: int := if signed && t[0] == '-' then -(magnitude as int) else magnitude;
        Success(value)
  }

  /** Python's `f"{n:02}"` for `0 <= n < 100`. */
  function TwoDigits(n: int): (s: string)
    requires 0 <= n < 100
    ensures |s| == 2 && AllDigits(s)
  {
    [DigitChar(n / 10), DigitChar(n % 10)]
  }

  lemma DigitsValueOfPair(a: char, b: char)
    requires IsDigit(a) && IsDigit(b)
    ensures DigitsValue([a, b]) == Some(10 * (a as int - '0' as int) + (b as int - '0' as int))
  {
    assert [a][..0] == [];
    assert DigitsValue([a]) == Some(a as int - '0' as int);
    assert [a, b][..1] == [a];
  }

  lemma TrimDigits(d: string)
    requires |d| > 0 && IsDigit(d[0]) && IsDigit(d[|d| - 1])
    ensures Trim(d) == d
  {
  }

  /** Without a sign, `int()` of a digit string is its decimal value. */
  lemma ParseUnsigned(t: string, v: nat)
    requires |t| > 0 && IsDigit(t[0]) && DigitsValue(t) == Some(v)
    ensures ParseSigned(t) == Success(v)
  {
  }

  /** Formatting with two digits and parsing back with `int()` is the identity. */
  lemma ParseTwoDigits(n: int)
    requires 0 <= n < 100
    ensures ParseInt(TwoDigits(n)) == Success(n)
  {
    var t := TwoDigits(n);
    assert t[0] as int - '0' as int == n / 10;
    assert t[1] as int - '0' as int == n % 10;
    TrimDigits(t);
    assert t == [t[0], t[1]];
    DigitsValueOfPair(t[0], t[1]);
    ParseUnsigned(t, n);
  }
}
