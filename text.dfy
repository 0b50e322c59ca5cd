/** The java.lang.String operations the registry relies on, over `seq<char>`:
    the `\d` character class, `trim()`, `split("-")`, `toLowerCase()`,
    `contains` and the `compareTo` order used to sort patrons by id. */
module Text {

  // ---------------------------------------------------------------------
  // Digits and the regular expression \d{n}
  // ---------------------------------------------------------------------

  /** Java's default `\d` is the ASCII class [0-9]. */
  predicate IsDigit(c: char) {
    '0' <= c <= '9'
  }

  predicate AllDigits(s: string) {
    forall i :: 0 <= i < |s| ==> IsDigit(s[i])
  }

  /** `s.matches("\\d{n}")`: the whole of `s` is consumed by n repetitions of `\d`,
      written as the regular-expression engine reads it, one repetition at a time. */
  predicate MatchesDigitRun(s: string, n: nat)
    ensures MatchesDigitRun(s, n) ==> |s| == n
    decreases n
  {
    if n == 0 then s == []
    else s != [] && IsDigit(s[0]) && MatchesDigitRun(s[1..], n - 1)
  }

  /** The regular expression `\d{n}` accepts exactly the strings of n ASCII digits. */
  lemma {:induction false} DigitRunIsFixedLengthDigits(s: string, n: nat)
    ensures MatchesDigitRun(s, n) <==> |s| == n && AllDigits(s)
    decreases n
  {
    if n > 0 && s != [] {
      DigitRunIsFixedLengthDigits(s[1..], n - 1);
      if |s| == n && AllDigits(s) {
        assert forall i :: 0 <= i < |s[1..]| ==> s[1..][i] == s[i + 1];
      }
      if MatchesDigitRun(s, n) {
        assert forall i :: 1 <= i < |s| ==> s[i] == s[1..][i - 1];
      }
    }
  }

  // ---------------------------------------------------------------------
  // String.trim()
  // ---------------------------------------------------------------------

  /** `trim()` removes every character whose code is at most U+0020. */
  predicate IsTrimmed(c: char) {
    c <= ' '
  }

  function StripLeading(s: string): (r: string)
    ensures |r| <= |s| && r == s[|s| - |r|..]
    ensures forall i :: 0 <= i < |s| - |r| ==> IsTrimmed(s[i])
    ensures r == [] || !IsTrimmed(r[0])
  {
    if s != [] && IsTrimmed(s[0]) then StripLeading(s[1..]) else s
  }

  function StripTrailing(s: string): (r: string)
    ensures |r| <= |s| && r == s[..|r|]
    ensures forall i :: |r| <= i < |s| ==> IsTrimmed(s[i])
    ensures r == [] || !IsTrimmed(r[|r| - 1])
  {
    if s != [] && IsTrimmed(s[|s| - 1]) then StripTrailing(s[..|s| - 1]) else s
  }

  /** `r` is `s` with `lo` characters cut off in front and the rest of the
      tail cut off behind, and every character cut off is at most U+0020. */
  predicate CutAt(s: string, r: string, lo: int) {
    && 0 <= lo <= |s| - |r|
    && r == s[lo..lo + |r|]
    && (forall i :: 0 <= i < lo ==> IsTrimmed(s[i]))
    && (forall i :: lo + |r| <= i < |s| ==> IsTrimmed(s[i]))
  }

  /** `s.trim()`: the longest infix of `s` that neither starts nor ends with a
      character at or below U+0020; everything cut off on either side is such a character. */
  function Trim(s: string): (r: string)
    ensures |r| <= |s|
    ensures exists lo :: CutAt(s, r, lo)
    ensures r == [] || (!IsTrimmed(r[0]) && !IsTrimmed(r[|r| - 1]))
  {
    var t := StripLeading(s);
    var r := StripTrailing(t);
    StripsCut(s, t, r);
    r
  }

  /** Cutting a trimmed prefix and then a trimmed suffix is one cut. */
  lemma StripsCut(s: string, t: string, r: string)
    requires |t| <= |s| && t == s[|s| - |t|..]
    requires forall i :: 0 <= i < |s| - |t| ==> IsTrimmed(s[i])
    requires |r| <= |t| && r == t[..|r|]
    requires forall i :: |r| <= i < |t| ==> IsTrimmed(t[i])
    ensures CutAt(s, r, |s| - |t|)
  {
    var lo := |s| - |t|;
    forall i | lo + |r| <= i < |s| ensures IsTrimmed(s[i]) {
      assert s[i] == t[i - lo];
    }
  }

  // ---------------------------------------------------------------------
  // String.split("-")
  // ---------------------------------------------------------------------

  const Separator: char := '-'

  /** The inverse of splitting: the parts glued back together with single separators. */
  function Join(parts: seq<string>): string
    requires |parts| >= 1
  {
    if |parts| == 1 then parts[0] else parts[0] + [Separator] + Join(parts[1..])
  }

  /** Cutting `s` at every separator, keeping every empty piece. The pieces carry
      no separator and glue back to `s`, which pins them down (SplitJoin). */
  function SplitAll(s: string): (parts: seq<string>)
    ensures |parts| >= 1
    ensures forall i :: 0 <= i < |parts| ==> Separator !in parts[i]
    ensures Join(parts) == s
  {
    if s == [] then [[]]
    else
      var rest := SplitAll(s[1..]);
      if s[0] == Separator then
        [[]] + rest
      else
        assert s == [s[0]] + Join(rest);
        assert |rest| == 1 || s == ([s[0]] + rest[0]) + [Separator] + Join(rest[1..]);
        [[s[0]] + rest[0]] + rest[1..]
  }

  /** Splitting is the inverse of joining separator-free parts. */
  lemma {:induction false} SplitJoin(parts: seq<string>)
    requires |parts| >= 1
    requires forall i :: 0 <= i < |parts| ==> Separator !in parts[i]
    ensures SplitAll(Join(parts)) == parts
    decreases |Join(parts)|, |parts[0]|
  {
    var p := parts[0];
    if p == [] {
      if |parts| > 1 {
        var tail := parts[1..];
        assert Join(parts) == [Separator] + Join(tail);
        assert Join(parts)[1..] == Join(tail);
        SplitJoin(tail);
      }
    } else {
      var shorter := [p[1..]] + parts[1..];
      assert shorter[1..] == parts[1..];
      assert Join(parts) == [p[0]] + Join(shorter);
      assert Join(parts)[1..] == Join(shorter);
      assert Separator !in shorter[0];
      SplitJoin(shorter);
      assert [p[0]] + p[1..] == p;
    }
  }

  /** What `split` keeps when its limit is zero: all trailing empty strings are removed. */
  function DropTrailingEmpty(parts: seq<string>): (r: seq<string>)
    ensures |r| <= |parts| && r == parts[..|r|]
    ensures forall i :: |r| <= i < |parts| ==> parts[i] == []
    ensures r == [] || r[|r| - 1] != []
  {
    if parts != [] && parts[|parts| - 1] == [] then DropTrailingEmpty(parts[..|parts| - 1]) else parts
  }

  /** `s.split("-")`: when the separator does not occur the result is `s` alone
      (so `""` gives one empty part); otherwise the pieces between separators,
      leading empty pieces kept and trailing empty pieces dropped. */
  function JavaSplit(s: string): (parts: seq<string>)
    ensures Separator !in s ==> parts == [s]
    ensures Separator in s ==> parts == DropTrailingEmpty(SplitAll(s))
    ensures forall i :: 0 <= i < |parts| ==> Separator !in parts[i]
  {
    if Separator !in s then [s] else DropTrailingEmpty(SplitAll(s))
  }

  // ---------------------------------------------------------------------
  // toLowerCase() and contains()
  // ---------------------------------------------------------------------

  /** ASCII case folding (the Unicode mappings of `toLowerCase` are not modelled). */
  function LowerChar(c: char): (d: char)
    ensures !('A' <= d <= 'Z')
    ensures 'A' <= c <= 'Z' ==> d as int == c as int + 32
    ensures !('A' <= c <= 'Z') ==> d == c
  {
    if 'A' <= c <= 'Z' then (c as int + 32) as char else c
  }

  function Lower(s: string): (r: string)
    ensures |r| == |s|
    ensures forall i :: 0 <= i < |s| ==> r[i] == LowerChar(s[i])
  {
    if s == [] then [] else [LowerChar(s[0])] + Lower(s[1..])
  }

  predicate StartsWith(s: string, prefix: string) {
    |prefix| <= |s| && s[..|prefix|] == prefix
  }

  predicate OccursAt(s: string, sub: string, i: int) {
    0 <= i <= |s| - |sub| && s[i..i + |sub|] == sub
  }

  /** `s.contains(sub)`, scanning start positions left to right as `indexOf` does. */
  predicate Contains(s: string, sub: string)
    ensures Contains(s, sub) ==> |sub| <= |s|
    ensures |sub| == |s| ==> (Contains(s, sub) <==> s == sub)
    decreases |s|
  {
    StartsWith(s, sub) || (s != [] && Contains(s[1..], sub))
  }

  /** The scan finds `sub` exactly when it occurs in `s` at some position. */
  lemma {:induction false} ContainsOccurs(s: string, sub: string)
    ensures Contains(s, sub) <==> exists i :: OccursAt(s, sub, i)
    decreases |s|
  {
    if StartsWith(s, sub) {
      assert OccursAt(s, sub, 0);
    } else if s == [] {
    } else {
      ContainsOccurs(s[1..], sub);
      if exists i :: OccursAt(s, sub, i) {
        var i :| OccursAt(s, sub, i);
        assert i != 0;
        assert OccursAt(s[1..], sub, i - 1);
      }
      if Contains(s[1..], sub) {
        var j :| OccursAt(s[1..], sub, j);
        assert OccursAt(s, sub, j + 1);
      }
    }
  }

  /** A case-insensitive prefix is found by the case-insensitive scan. */
  lemma PrefixIgnoringCase(s: string, t: string)
    requires |t| <= |s| && forall i :: 0 <= i < |t| ==> LowerChar(s[i]) == LowerChar(t[i])
    ensures Contains(Lower(s), Lower(t))
  {
    assert Lower(s)[..|t|] == Lower(t);
  }

  /** A query with a character that `s` lacks, case aside, is not found in `s`. */
  lemma MissingCharNotContained(s: string, t: string, k: int)
    requires 0 <= k < |t|
    requires forall i :: 0 <= i < |s| ==> LowerChar(s[i]) != LowerChar(t[k])
    ensures !Contains(Lower(s), Lower(t))
  {
    forall i | 0 <= i <= |s| - |t| ensures !OccursAt(Lower(s), Lower(t), i) {
      assert Lower(s)[i..i + |t|][k] != Lower(t)[k];
    }
    ContainsOccurs(Lower(s), Lower(t));
  }

  /** Every string contains the empty string. */
  lemma ContainsEmpty(s: string)
    ensures Contains(s, [])
  {
    assert StartsWith(s, []);
  }

  // ---------------------------------------------------------------------
  // String.compareTo
  // ---------------------------------------------------------------------

  /** `a.compareTo(b) < 0`: the first differing character decides; a proper prefix comes first. */
  predicate Less(a: string, b: string)
    ensures Less(a, b) ==> a != b
    ensures StartsWith(b, a) ==> (Less(a, b) <==> |a| < |b|)
    decreases |a|
  {
    if a == [] then b != []
    else if b == [] then false
    else if a[0] != b[0] then a[0] < b[0]
    else Less(a[1..], b[1..])
  }

  lemma {:induction false} LessIrreflexive(a: string)
    ensures !Less(a, a)
    decreases |a|
  {
    if a != [] { LessIrreflexive(a[1..]); }
  }

  lemma {:induction false} LessTransitive(a: string, b: string, c: string)
    requires Less(a, b) && Less(b, c)
    ensures Less(a, c)
    decreases |a|
  {
    if a != [] && a[0] == b[0] && b[0] == c[0] {
      LessTransitive(a[1..], b[1..], c[1..]);
    }
  }

  /** Two different strings are always ordered one way or the other, never both. */
  lemma {:induction false} LessTotal(a: string, b: string)
    requires a != b
    ensures Less(a, b) != Less(b, a)
    decreases |a|
  {
    if a != [] && b != [] && a[0] == b[0] {
      assert a == [a[0]] + a[1..] && b == [b[0]] + b[1..];
      LessTotal(a[1..], b[1..]);
    }
  }
}
