/** Ordinal string operations of the .NET base library that both script runners rely on:
    substring search, whitespace tests, decimal formatting and parsing of integers,
    and single-character replacement. Strings are sequences of UTF-16 code units,
    which Dafny's `char` stands in for. */
module Strings {

  datatype Option<T> = None | Some(value: T)

  // ---------------------------------------------------------------------------
  // Substring search (StringComparison.Ordinal)
  // ---------------------------------------------------------------------------

  /** `sub` occurs in `s` starting at position `k`. */
  predicate OccursAt(s: string, sub: string, k: int)
  {
    0 <= k && k + |sub| <= |s| && s[k..k + |sub|] == sub
  }

  /** `s.Contains(sub, StringComparison.Ordinal)`; the empty string occurs everywhere. */
  predicate Contains(s: string, sub: string)
  {
    exists k | 0 <= k <= |s| :: OccursAt(s, sub, k)
  }

  lemma ContainsEmpty(s: string)
    ensures Contains(s, "")
  {
    assert OccursAt(s, "", 0);
  }

  lemma ContainsSelf(s: string)
    ensures Contains(s, s)
  {
    assert s[0..|s|] == s;
    assert OccursAt(s, s, 0);
  }

  /** A string contains every piece it is glued from. */
  lemma ContainsMiddle(a: string, b: string, c: string)
    ensures Contains(a + b + c, b)
  {
    var s := a + b + c;
    assert s[|a|..|a| + |b|] == b;
    assert OccursAt(s, b, |a|);
  }

  lemma ContainsPrefix(b: string, c: string)
    ensures Contains(b + c, b)
  {
    ContainsMiddle("", b, c);
    assert "" + b + c == b + c;
  }

  /** A string contains what stands before a separator in it. */
  lemma ContainsBeforeSeparator(a: string, sep: string, c: string)
    ensures Contains(a + sep + c, a)
  {
    ContainsPrefix(a, sep + c);
    assert a + (sep + c) == a + sep + c;
  }

  lemma ContainsSuffix(a: string, b: string)
    ensures Contains(a + b, b)
  {
    ContainsMiddle(a, b, "");
    assert a + b + "" == a + b;
  }

  /** Containment is transitive: an occurrence of `m` carries every occurrence inside `m`. */
  lemma ContainsTransitive(s: string, m: string, x: string)
    requires Contains(s, m) && Contains(m, x)
    ensures Contains(s, x)
  {
    var i :| 0 <= i <= |s| && OccursAt(s, m, i);
    var j :| 0 <= j <= |m| && OccursAt(m, x, j);
    forall t | 0 <= t < |x|
      ensures s[i + j + t] == x[t]
    {
      assert s[i..i + |m|][j + t] == m[j + t];
      assert m[j..j + |x|][t] == x[t];
    }
    assert s[i + j..i + j + |x|] == x;
    assert OccursAt(s, x, i + j);
  }

  /** Containment is preserved by gluing text on either side. */
  lemma ContainsExtend(a: string, s: string, c: string, x: string)
    requires Contains(s, x)
    ensures Contains(a + s + c, x)
  {
    ContainsMiddle(a, s, c);
    ContainsTransitive(a + s + c, s, x);
  }

  /** The last position at or before `from` where `sub` occurs, or None. */
  function LastOccurrence(s: string, sub: string, from: nat): (r: Option<nat>)
    ensures r.Some? ==> r.value <= from && OccursAt(s, sub, r.value)
    ensures r.Some? ==> forall k :: r.value < k <= from ==> !OccursAt(s, sub, k)
    ensures r.None? ==> forall k :: 0 <= k <= from ==> !OccursAt(s, sub, k)
  {
    if OccursAt(s, sub, from) then Some(from)
    else if from == 0 then None
    else LastOccurrence(s, sub, from - 1)
  }

  /** The backward search stops at the last occurrence. */
  lemma LastOccurrenceFinds(s: string, sub: string, from: nat, p: nat)
    requires p <= from && OccursAt(s, sub, p)
    requires forall k :: p < k <= from ==> !OccursAt(s, sub, k)
    ensures LastOccurrence(s, sub, from) == Some(p)
  {
  }

  // ---------------------------------------------------------------------------
  // Case-insensitive search (StringComparison.OrdinalIgnoreCase, ASCII letters)
  // ---------------------------------------------------------------------------

  /** Upper-cases an ASCII letter and leaves every other code unit alone. */
  function FoldCase(c: char): (r: char)
  {
    if 'a' <= c <= 'z' then (c as int - 32) as char else c
  }

  predicate MatchesIgnoreCaseAt(s: string, sub: string, k: int)
  {
    0 <= k && k + |sub| <= |s| &&
    forall j :: 0 <= j < |sub| ==> FoldCase(s[k + j]) == FoldCase(sub[j])
  }

  /** `sub` matches at `at`, at or after `from`, and nowhere between the two. */
  predicate FirstMatchIgnoreCase(s: string, sub: string, from: nat, at: nat)
  {
    from <= at && MatchesIgnoreCaseAt(s, sub, at) &&
    forall k :: from <= k < at ==> !MatchesIgnoreCaseAt(s, sub, k)
  }

  /** `s.IndexOf(sub, from, StringComparison.OrdinalIgnoreCase)`: the first position at or after
      `from` where `sub` matches up to case, or None (the source's -1). */
  function IndexOfIgnoreCase(s: string, sub: string, from: nat): (r: Option<nat>)
    decreases |s| - from
    ensures r.Some? ==> from <= r.value && MatchesIgnoreCaseAt(s, sub, r.value)
    ensures r.Some? ==> forall k :: from <= k < r.value ==> !MatchesIgnoreCaseAt(s, sub, k)
    ensures r.None? ==> forall k :: from <= k ==> !MatchesIgnoreCaseAt(s, sub, k)
  {
    if from + |sub| > |s| then None
    else if MatchesIgnoreCaseAt(s, sub, from) then Some(from)
    else IndexOfIgnoreCase(s, sub, from + 1)
  }

  /** A slice equal to `sub` matches it. */
  lemma MatchesIgnoreCaseAtSlice(s: string, sub: string, k: nat)
    requires k + |sub| <= |s| && s[k..k + |sub|] == sub
    ensures MatchesIgnoreCaseAt(s, sub, k)
  {
    forall j | 0 <= j < |sub|
      ensures FoldCase(s[k + j]) == FoldCase(sub[j])
    {
      assert s[k..k + |sub|][j] == s[k + j];
    }
  }

  /** Every piece a string is glued from matches where it stands. */
  lemma MatchesIgnoreCaseAtPiece(a: string, b: string, c: string)
    ensures MatchesIgnoreCaseAt(a + b + c, b, |a|)
  {
    var s := a + b + c;
    assert forall j :: 0 <= j < |b| ==> s[|a| + j] == b[j];
  }

  /** Within the first `c` characters, a match is one that ends by `c`. */
  lemma MatchesIgnoreCaseAtPrefix(s: string, sub: string, c: nat, k: int)
    requires c <= |s|
    ensures MatchesIgnoreCaseAt(s[..c], sub, k) <==> k + |sub| <= c && MatchesIgnoreCaseAt(s, sub, k)
  {
    if 0 <= k && k + |sub| <= c {
      forall i | k <= i < k + |sub|
        ensures s[..c][i] == s[i]
      {
      }
    }
  }

  /** Behind a prefix, a text matches where it matched on its own. */
  lemma MatchesIgnoreCaseAtShift(prefix: string, s: string, sub: string, k: nat)
    ensures MatchesIgnoreCaseAt(prefix + s, sub, |prefix| + k) <==> MatchesIgnoreCaseAt(s, sub, k)
  {
    if k + |sub| <= |s| {
      forall i | k <= i < k + |sub|
        ensures (prefix + s)[|prefix| + i] == s[i]
      {
      }
    }
  }

  /** The search stops at the first match. */
  lemma IndexOfIgnoreCaseFinds(s: string, sub: string, from: nat, p: nat)
    requires from <= p && MatchesIgnoreCaseAt(s, sub, p)
    requires forall k :: from <= k < p ==> !MatchesIgnoreCaseAt(s, sub, k)
    ensures IndexOfIgnoreCase(s, sub, from) == Some(p)
  {
  }

  /** The same, with the first match stated as one fact. */
  lemma IndexOfIgnoreCaseFindsFirst(s: string, sub: string, from: nat, p: nat)
    requires FirstMatchIgnoreCase(s, sub, from, p)
    ensures IndexOfIgnoreCase(s, sub, from) == Some(p)
  {
    IndexOfIgnoreCaseFinds(s, sub, from, p);
  }

  /** `s.IndexOf(c, from)`: the first position at or after `from` holding `c`, or None. */
  function IndexOfChar(s: string, c: char, from: nat): (r: Option<nat>)
    decreases |s| - from
    ensures r.Some? ==> from <= r.value < |s| && s[r.value] == c
    ensures r.Some? ==> forall k :: from <= k < r.value ==> s[k] != c
    ensures r.None? ==> forall k :: from <= k < |s| ==> s[k] != c
  {
    if from >= |s| then None
    else if s[from] == c then Some(from)
    else IndexOfChar(s, c, from + 1)
  }

  /** The search stops at the first occurrence. */
  lemma IndexOfCharFinds(s: string, c: char, from: nat, p: nat)
    requires from <= p < |s| && s[p] == c
    requires forall k :: from <= k < p ==> s[k] != c
    ensures IndexOfChar(s, c, from) == Some(p)
  {
  }

  // ---------------------------------------------------------------------------
  // Null, empty and whitespace tests
  // ---------------------------------------------------------------------------

  /** `char.IsWhiteSpace`: the Unicode space separators, the line and paragraph separators,
      the controls U+0009 to U+000D and U+0085. */
  predicate IsWhiteSpace(c: char)
  {
    var n := c as int;
    (0x09 <= n <= 0x0D) || n == 0x20 || n == 0x85 || n == 0xA0 || n == 0x1680 ||
    (0x2000 <= n <= 0x200A) || n == 0x2028 || n == 0x2029 || n == 0x202F ||
    n == 0x205F || n == 0x3000
  }

  /** `string.IsNullOrWhiteSpace`; a missing string is `None`. */
  predicate IsNullOrWhiteSpace(s: Option<string>)
  {
    s.None? || forall k :: 0 <= k < |s.value| ==> IsWhiteSpace(s.value[k])
  }

  /** `string.IsNullOrEmpty`. */
  predicate IsNullOrEmpty(s: Option<string>)
  {
    s.None? || s.value == ""
  }

  // ---------------------------------------------------------------------------
  // Decimal text of integers (int.ToString and int.TryParse, invariant culture)
  // ---------------------------------------------------------------------------

  predicate IsDigit(c: char)
  {
    '0' <= c <= '9'
  }

  predicate AllDigits(s: string)
  {
    forall k :: 0 <= k < |s| ==> IsDigit(s[k])
  }

  function DigitChar(d: nat): (c: char)
    requires d < 10
  {
    ('0' as int + d) as char
  }

  function NatToString(n: nat): (r: string)
    ensures |r| >= 1 && AllDigits(r)
  {
    if n < 10 then [DigitChar(n)] else NatToString(n / 10) + [DigitChar(n % 10)]
  }

  /** `n.ToString()`: a minus sign for negative values, then the decimal digits. */
  function IntToString(n: int): (r: string)
    ensures |r| >= 1 && forall k :: 0 <= k < |r| ==> IsDigit(r[k]) || r[k] == '-'
  {
    if n < 0 then "-" + NatToString(-n) else NatToString(n)
  }

  function DigitsValue(s: string): (n: nat)
    requires AllDigits(s)
  {
    if s == [] then 0 else DigitsValue(s[..|s| - 1]) * 10 + (s[|s| - 1] as int - '0' as int)
  }

  /** `int.TryParse` restricted to an optional minus sign followed by one or more ASCII digits. */
  function TryParseInt(s: string): (r: Option<int>)
  {
    if |s| > 1 && s[0] == '-' && AllDigits(s[1..]) then Some(0 - DigitsValue(s[1..]))
    else if |s| > 0 && AllDigits(s) then Some(DigitsValue(s))
    else None
  }

  lemma {:induction false} NatToStringRoundTrip(n: nat)
    ensures DigitsValue(NatToString(n)) == n
  {
    var s := NatToString(n);
    if n < 10 {
      assert s[..0] == [];
    } else {
      NatToStringRoundTrip(n / 10);
      assert s[..|s| - 1] == NatToString(n / 10);
    }
  }

  /** Parsing the decimal text of any integer gives the integer back. */
  lemma IntToStringRoundTrip(n: int)
    ensures TryParseInt(IntToString(n)) == Some(n)
  {
    if n < 0 {
      var d := NatToString(-n);
      var s := "-" + d;
      assert s[0] == '-' && s[1..] == d;
      NatToStringRoundTrip(-n);
      assert TryParseInt(s) == Some(0 - DigitsValue(d));
    } else {
      var d := NatToString(n);
      assert IsDigit(d[0]);
      NatToStringRoundTrip(n);
      assert TryParseInt(d) == Some(DigitsValue(d));
    }
  }

  /** Different integers print differently. */
  lemma IntToStringInjective(a: int, b: int)
    requires IntToString(a) == IntToString(b)
    ensures a == b
  {
    IntToStringRoundTrip(a);
    IntToStringRoundTrip(b);
  }

  // ---------------------------------------------------------------------------
  // Replacement of one character by a string (string.Replace with a one-character pattern)
  // ---------------------------------------------------------------------------

  /** `s.Replace(c.ToString(), rep)`: every occurrence of `c`, left to right, becomes `rep`. */
  function ReplaceChar(s: string, c: char, rep: string): (r: string)
  {
    if s == [] then ""
    else (if s[0] == c then rep else [s[0]]) + ReplaceChar(s[1..], c, rep)
  }

  /** Number of occurrences of `c` in `s`. */
  function CountChar(s: string, c: char): (n: nat)
  {
    if s == [] then 0 else (if s[0] == c then 1 else 0) + CountChar(s[1..], c)
  }
}
