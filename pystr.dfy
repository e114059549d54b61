/**
 * The handful of Python `str` operations the launcher relies on, restricted
 * to ASCII: `find` (with its -1 "not found" result), `in`, `endswith`,
 * slicing with Python's negative indices, `split(c)[0]`, `lower`, `strip`
 * and the `<` ordering of strings. Full Unicode case mapping and the
 * non-ASCII whitespace that Python's `strip` also removes are not modelled.
 */
module PyStr {

  /** `sub` sits in `s` at position `i`. */
  predicate OccursAt(s: string, sub: string, i: int)
  {
    0 <= i && i + |sub| <= |s| && s[i..i + |sub|] == sub
  }

  /** Python's `sub in s`. */
  predicate Contains(s: string, sub: string)
  {
    exists i | 0 <= i <= |s| - |sub| :: OccursAt(s, sub, i)
  }

  /**
   * Python's `s.find(sub, from)` for a non-negative `from`: the first
   * position at or after `from` where `sub` occurs, or -1.
   */
  function Find(s: string, sub: string, from: nat): (r: int)
    ensures r == -1 || (from <= r && OccursAt(s, sub, r))
    ensures r == -1 ==> forall i :: from <= i ==> !OccursAt(s, sub, i)
    ensures r != -1 ==> forall i :: from <= i < r ==> !OccursAt(s, sub, i)
    decreases |s| - from
  {
    if from + |sub| > |s| then -1
    else if s[from..from + |sub|] == sub then from
    else Find(s, sub, from + 1)
  }

  /** Find from `from` lands on the first occurrence at or after `from`. */
  lemma FindFirst(s: string, sub: string, from: nat, i: nat)
    requires from <= i && OccursAt(s, sub, i)
    requires forall j :: from <= j < i ==> !OccursAt(s, sub, j)
    ensures Find(s, sub, from) == i
  {
  }

  /** `in` and `find(...) != -1` agree. */
  lemma ContainsIffFound(s: string, sub: string)
    ensures Contains(s, sub) <==> Find(s, sub, 0) != -1
  {
    var r := Find(s, sub, 0);
    if r != -1 {
      assert OccursAt(s, sub, r);
    }
  }

  /** The empty string occurs in every string. */
  lemma ContainsEmpty(s: string)
    ensures Contains(s, "")
  {
    assert OccursAt(s, "", 0);
  }

  /** An occurrence of an occurrence is an occurrence. */
  lemma ContainsTransitive(c: string, b: string, a: string)
    requires Contains(c, b) && Contains(b, a)
    ensures Contains(c, a)
  {
    var j :| 0 <= j <= |c| - |b| && OccursAt(c, b, j);
    var i :| 0 <= i <= |b| - |a| && OccursAt(b, a, i);
    forall k | 0 <= k < |a|
      ensures c[j + i..j + i + |a|][k] == a[k]
    {
      assert c[j..j + |b|][i + k] == b[i + k];
      assert b[i..i + |a|][k] == a[k];
    }
    assert c[j + i..j + i + |a|] == a;
    assert OccursAt(c, a, j + i);
  }

  /** Python's `s.endswith(suffix)`. */
  predicate EndsWith(s: string, suffix: string)
  {
    |suffix| <= |s| && s[|s| - |suffix|..] == suffix
  }

  /** How Python turns a slice bound into a position: negative bounds count from the end, then clamp. */
  function SliceBound(n: nat, x: int): (b: nat)
    ensures b <= n
    ensures 0 <= x <= n ==> b == x
    ensures x < 0 && 0 <= x + n ==> b == x + n
    ensures x > n ==> b == n
    ensures x < 0 && x + n < 0 ==> b == 0
  {
    if x < 0 then (if x + n < 0 then 0 else x + n)
    else if x > n then n
    else x
  }

  /** Python's `s[start:stop]`. */
  function Slice(s: string, start: int, stop: int): (r: string)
    ensures |r| <= |s|
  {
    var a, b := SliceBound(|s|, start), SliceBound(|s|, stop);
    if a < b then s[a..b] else ""
  }

  /** Python's `s.split(c)[0]`: everything before the first `c`, or all of `s`. */
  function BeforeFirst(s: string, c: char): (r: string)
    ensures |r| <= |s| && r == s[..|r|]
    ensures c !in r
    ensures |r| < |s| ==> s[|r|] == c
    ensures c !in s ==> r == s
  {
    if s == [] then []
    else if s[0] == c then []
    else [s[0]] + BeforeFirst(s[1..], c)
  }

  /** Python's `str.lower` on one ASCII character. */
  function LowerChar(c: char): (d: char)
    ensures 'A' <= c <= 'Z' ==> 'a' <= d <= 'z' && d as int == c as int + 32
    ensures !('A' <= c <= 'Z') ==> d == c
  {
    if 'A' <= c <= 'Z' then (c as int - 'A' as int + 'a' as int) as char else c
  }

  /** Python's `str.lower` over ASCII: maps every character on its own. */
  function Lower(s: string): (r: string)
    ensures |r| == |s|
  {
    if s == [] then [] else [LowerChar(s[0])] + Lower(s[1..])
  }

  /** Lower maps every character on its own. */
  lemma {:induction false} LowerPointwise(s: string)
    ensures forall i :: 0 <= i < |s| ==> Lower(s)[i] == LowerChar(s[i])
  {
    if s != [] {
      LowerPointwise(s[1..]);
      assert forall i :: 1 <= i < |s| ==> Lower(s)[i] == Lower(s[1..])[i - 1];
    }
  }

  /** Lowering keeps occurrences: if `a` is in `b`, then `Lower(a)` is in `Lower(b)`. */
  lemma LowerKeepsContains(b: string, a: string)
    requires Contains(b, a)
    ensures Contains(Lower(b), Lower(a))
  {
    var i :| 0 <= i <= |b| - |a| && OccursAt(b, a, i);
    var lb, la := Lower(b), Lower(a);
    LowerPointwise(b);
    LowerPointwise(a);
    forall k | 0 <= k < |a|
      ensures lb[i..i + |a|][k] == la[k]
    {
      assert b[i + k] == a[k];
    }
    assert lb[i..i + |a|] == la;
    assert OccursAt(Lower(b), Lower(a), i);
  }

  /** Lowering twice is lowering once. */
  lemma LowerIdempotent(s: string)
    ensures Lower(Lower(s)) == Lower(s)
  {
    LowerPointwise(s);
    LowerPointwise(Lower(s));
    assert forall i :: 0 <= i < |s| ==> Lower(Lower(s))[i] == LowerChar(LowerChar(s[i])) == LowerChar(s[i]);
  }

  /** The ASCII characters for which Python's `str.isspace` holds. */
  predicate IsSpace(c: char)
  {
    // ' ', then tab, line feed, vertical tab, form feed and carriage return (codes 9 to 13),
    // then the four separators of codes 28 to 31
    c == ' ' || ('\t' <= c <= '\r') || (28 <= c as int <= 31)
  }

  /** No whitespace at either end: what `strip` leaves. */
  predicate Stripped(s: string)
  {
    s == [] || (!IsSpace(s[0]) && !IsSpace(s[|s| - 1]))
  }

  /** Where `lstrip` stops: the first non-whitespace position at or after `i`, or `|s|`. */
  function SpaceEnd(s: string, i: nat): (n: nat)
    requires i <= |s|
    ensures i <= n <= |s|
    ensures forall k :: i <= k < n ==> IsSpace(s[k])
    ensures n < |s| ==> !IsSpace(s[n])
    decreases |s| - i
  {
    if i < |s| && IsSpace(s[i]) then SpaceEnd(s, i + 1) else i
  }

  /** Where `rstrip` stops: the last position `n`, not below `lo`, whose whole tail `s[n..j]` is whitespace. */
  function SpaceStart(s: string, lo: nat, j: nat): (n: nat)
    requires lo <= j <= |s|
    ensures lo <= n <= j
    ensures forall k :: n <= k < j ==> IsSpace(s[k])
    ensures lo < n ==> !IsSpace(s[n - 1])
    decreases j
  {
    if lo < j && IsSpace(s[j - 1]) then SpaceStart(s, lo, j - 1) else j
  }

  /**
   * Python's `s.strip()`: `s[i..j]` for the longest whitespace prefix
   * `s[..i]` and, after it, the longest whitespace suffix `s[j..]`.
   */
  function Strip(s: string): (r: string)
    ensures Stripped(r)
  {
    var i := SpaceEnd(s, 0);
    s[i..SpaceStart(s, i, |s|)]
  }

  /** What Strip keeps is a slice of its input between two whitespace runs. */
  lemma StripIsSlice(s: string) returns (i: nat, j: nat)
    ensures i <= j <= |s| && Strip(s) == s[i..j]
    ensures forall k :: 0 <= k < i ==> IsSpace(s[k])
    ensures forall k :: j <= k < |s| ==> IsSpace(s[k])
  {
    i := SpaceEnd(s, 0);
    j := SpaceStart(s, i, |s|);
  }

  /** Characters absent from the input are absent from what Strip keeps. */
  lemma StripKeepsAbsent(s: string, c: char)
    requires c !in s
    ensures c !in Strip(s)
  {
    var i, j := StripIsSlice(s);
    assert forall k :: 0 <= k < j - i ==> Strip(s)[k] == s[i + k];
  }

  /** A string already without surrounding whitespace is left alone. */
  lemma StripStripped(s: string)
    requires Stripped(s)
    ensures Strip(s) == s
  {
  }

  /** Python's `a < b` on strings: lexicographic by character, a proper prefix first. */
  predicate Less(a: string, b: string)
  {
    if a == [] then b != []
    else if b == [] then false
    else if a[0] != b[0] then a[0] < b[0]
    else Less(a[1..], b[1..])
  }

  /** Python's `a <= b` on strings. */
  predicate LessEq(a: string, b: string)
  {
    !Less(b, a)
  }

  lemma {:induction false} LessIrreflexive(a: string)
    ensures !Less(a, a)
  {
    if a != [] { LessIrreflexive(a[1..]); }
  }

  lemma {:induction false} LessTrichotomy(a: string, b: string)
    ensures Less(a, b) || a == b || Less(b, a)
  {
    if a != [] && b != [] && a[0] == b[0] {
      LessTrichotomy(a[1..], b[1..]);
      if a[1..] == b[1..] {
        assert a == [a[0]] + a[1..] && b == [b[0]] + b[1..];
      }
    }
  }

  lemma {:induction false} LessTransitive(a: string, b: string, c: string)
    requires Less(a, b) && Less(b, c)
    ensures Less(a, c)
  {
    if a != [] && a[0] == b[0] && b[0] == c[0] {
      LessTransitive(a[1..], b[1..], c[1..]);
    }
  }

  /** `<=` between strings is total. */
  lemma LessEqTotal(a: string, b: string)
    ensures LessEq(a, b) || LessEq(b, a)
  {
    LessTrichotomy(a, b);
    LessIrreflexive(a);
    if Less(a, b) && Less(b, a) { LessTransitive(a, b, a); }
  }

  /** `<=` between strings is transitive. */
  lemma LessEqTransitive(a: string, b: string, c: string)
    requires LessEq(a, b) && LessEq(b, c)
    ensures LessEq(a, c)
  {
    if Less(c, a) {
      LessTrichotomy(a, b);
      if Less(a, b) { LessTransitive(c, a, b); }
    }
  }
}
