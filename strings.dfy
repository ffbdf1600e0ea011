/**
 * The handful of Python `str` operations the translation engine relies on,
 * on strings as sequences of characters: `find`, `count`, `replace(p, "")`,
 * `strip`, `endswith` and the `in` substring test.
 */
module Strings {

  /** `p` occurs in `s` starting at position `i`. */
  predicate OccursAt(s: string, p: string, i: int)
  {
    0 <= i && i + |p| <= |s| && s[i..i + |p|] == p
  }

  /** Python's `p in s`. */
  predicate Contains(s: string, p: string)
  {
    exists i :: 0 <= i <= |s| - |p| && OccursAt(s, p, i)
  }

  /** `i` is the leftmost position at which `p` occurs in `s`. */
  predicate FirstOccurrence(s: string, p: string, i: int)
  {
    OccursAt(s, p, i) && forall j :: 0 <= j < i ==> !OccursAt(s, p, j)
  }

  function FindFrom(s: string, p: string, i: nat): (r: int)
    requires i <= |s|
    ensures r == -1 || (i <= r && OccursAt(s, p, r))
    ensures r == -1 ==> forall j :: i <= j ==> !OccursAt(s, p, j)
    ensures r != -1 ==> forall j :: i <= j < r ==> !OccursAt(s, p, j)
    decreases |s| - i
  {
    if OccursAt(s, p, i) then i
    else if i == |s| then -1
    else FindFrom(s, p, i + 1)
  }

  /**
   * Python's `s.find(p)`: the index of the first occurrence of `p`, or -1
   * when there is none. An empty `p` is found at index 0.
   */
  function Find(s: string, p: string): (r: int)
    ensures r == -1 <==> !Contains(s, p)
    ensures r != -1 ==> FirstOccurrence(s, p, r)
    ensures p == [] ==> r == 0
  {
    var r := FindFrom(s, p, 0);
    assert p == [] ==> OccursAt(s, p, 0);
    r
  }

  /** `Find` returns the first occurrence whenever there is one. */
  lemma FindIsFirstOccurrence(s: string, p: string, i: int)
    requires FirstOccurrence(s, p, i)
    ensures Find(s, p) == i
  {
    assert 0 <= i <= |s| - |p| && OccursAt(s, p, i);
  }

  /** Python's `s.count(p)` for a non-empty `p`: occurrences counted left to right without overlap. */
  function Count(s: string, p: string): (r: nat)
    requires |p| > 0
    ensures r <= |s|
    decreases |s|
  {
    if |s| < |p| then 0
    else if s[..|p|] == p then 1 + Count(s[|p|..], p)
    else Count(s[1..], p)
  }

  /**
   * Python's `s.replace(p, "")` for a non-empty `p`: one left-to-right pass
   * that deletes every non-overlapping occurrence of `p` it meets.
   */
  function RemoveAll(s: string, p: string): (r: string)
    requires |p| > 0
    ensures |r| <= |s|
    decreases |s|
  {
    if |s| < |p| then s
    else if s[..|p|] == p then RemoveAll(s[|p|..], p)
    else [s[0]] + RemoveAll(s[1..], p)
  }

  /** An occurrence one position further into `s` is an occurrence in `s` without its first character. */
  lemma OccursShift(s: string, p: string, i: nat)
    requires |s| > 0
    ensures OccursAt(s, p, i + 1) <==> OccursAt(s[1..], p, i)
  {
    if i + 1 + |p| <= |s| {
      assert s[1..][i..i + |p|] == s[i + 1..i + 1 + |p|];
    }
  }

  /** `p` occurs in `s` iff it occurs at the front or in `s` without its first character. */
  lemma ContainsStep(s: string, p: string)
    requires |s| > 0 && |p| > 0
    ensures Contains(s, p) <==> OccursAt(s, p, 0) || Contains(s[1..], p)
  {
    if Contains(s, p) && !OccursAt(s, p, 0) {
      var i :| 0 <= i <= |s| - |p| && OccursAt(s, p, i);
      OccursShift(s, p, i - 1);
      assert OccursAt(s[1..], p, i - 1);
    }
    if Contains(s[1..], p) {
      var i :| 0 <= i <= |s[1..]| - |p| && OccursAt(s[1..], p, i);
      OccursShift(s, p, i);
      assert OccursAt(s, p, i + 1);
    }
  }

  /** A removal pass leaves the string as it was exactly when `p` does not occur in it. */
  lemma {:induction false} RemoveAllShrinks(s: string, p: string)
    requires |p| > 0
    ensures Contains(s, p) ==> |RemoveAll(s, p)| < |s|
    ensures !Contains(s, p) ==> RemoveAll(s, p) == s
    decreases |s|
  {
    if |s| < |p| {
      assert !Contains(s, p);
    } else if s[..|p|] == p {
      assert OccursAt(s, p, 0);
    } else {
      ContainsStep(s, p);
      RemoveAllShrinks(s[1..], p);
      assert s == [s[0]] + s[1..];
    }
  }

  /** A first occurrence past position 0 is, one position earlier, the first occurrence in `s[1..]`. */
  lemma FirstOccurrenceShift(s: string, p: string, i: int)
    requires i > 0 && FirstOccurrence(s, p, i)
    ensures |s| > 0 && FirstOccurrence(s[1..], p, i - 1) && !OccursAt(s, p, 0)
  {
    OccursShift(s, p, i - 1);
    forall j | 0 <= j < i - 1 ensures !OccursAt(s[1..], p, j) {
      OccursShift(s, p, j);
    }
  }

  /** Without any occurrence there is nothing to count. */
  lemma {:induction false} CountAbsent(s: string, p: string)
    requires |p| > 0 && !Contains(s, p)
    ensures Count(s, p) == 0
    decreases |s|
  {
    if |s| >= |p| {
      ContainsStep(s, p);
      assert s[0..|p|] == s[..|p|];
      CountAbsent(s[1..], p);
    }
  }

  /** Counting from the first occurrence `i`: that one, plus the count after it. */
  lemma {:induction false} CountAt(s: string, p: string, i: int)
    requires |p| > 0 && FirstOccurrence(s, p, i)
    ensures Count(s, p) == 1 + Count(s[i + |p|..], p)
    decreases i
  {
    if i == 0 {
      assert s[..|p|] == s[0..|p|];
    } else {
      FirstOccurrenceShift(s, p, i);
      assert s[0..|p|] == s[..|p|];
      CountAt(s[1..], p, i - 1);
      SuffixOfTail(s, i + |p|);
    }
  }

  /**
   * `count` counts left to right without overlap: none when `p` does not
   * occur, otherwise one for the first occurrence plus the count in what
   * follows it.
   */
  lemma CountStep(s: string, p: string)
    requires |p| > 0
    ensures var i := Find(s, p);
      Count(s, p) == if i == -1 then 0 else 1 + Count(s[i + |p|..], p)
  {
    var i := Find(s, p);
    if i == -1 { CountAbsent(s, p); } else { CountAt(s, p, i); }
  }

  /** Removing from the first occurrence `i`: keep what precedes it, drop it, go on after it. */
  lemma {:induction false} RemoveAllAt(s: string, p: string, i: int)
    requires |p| > 0 && FirstOccurrence(s, p, i)
    ensures RemoveAll(s, p) == s[..i] + RemoveAll(s[i + |p|..], p)
    decreases i
  {
    if i == 0 {
      assert s[..|p|] == s[0..|p|];
      assert s[..0] == [];
    } else {
      FirstOccurrenceShift(s, p, i);
      assert s[0..|p|] == s[..|p|];
      RemoveAllAt(s[1..], p, i - 1);
      SuffixOfTail(s, i + |p|);
      RemoveAllShiftedAt(s, p, i - 1, RemoveAll(s[i + |p|..], p));
    }
  }

  /**
   * A removal pass keeps everything before the first occurrence of `p`,
   * drops that occurrence, and goes on after it; without one it keeps `s`.
   */
  lemma RemoveAllStep(s: string, p: string)
    requires |p| > 0
    ensures var i := Find(s, p);
      RemoveAll(s, p) == if i == -1 then s else s[..i] + RemoveAll(s[i + |p|..], p)
  {
    var i := Find(s, p);
    if i == -1 { RemoveAllShrinks(s, p); } else { RemoveAllAt(s, p, i); }
  }

  /** Past a first character that does not start `p`, the pass keeps that character in front. */
  lemma RemoveAllShiftedAt(s: string, p: string, i: nat, tail: string)
    requires |p| > 0 && |s| >= |p| && s[..|p|] != p && i + |p| < |s|
    requires RemoveAll(s[1..], p) == s[1..][..i] + tail
    ensures RemoveAll(s, p) == s[..i + 1] + tail
  {
    assert RemoveAll(s, p) == [s[0]] + RemoveAll(s[1..], p);
    PrefixOfTail(s, i);
    ConsConcat(s[0], s[1..][..i], tail);
  }

  lemma SuffixOfTail(s: string, j: nat)
    requires 1 <= j <= |s|
    ensures s[1..][j - 1..] == s[j..]
  {
  }

  lemma PrefixOfTail(s: string, i: nat)
    requires i < |s|
    ensures s[..i + 1] == [s[0]] + s[1..][..i]
  {
  }

  lemma ConsConcat(c: char, a: string, b: string)
    ensures [c] + (a + b) == ([c] + a) + b
  {
  }

  /** A removal pass deletes exactly the occurrences `count` counts: `|p|` characters each. */
  lemma {:induction false} RemovedLengthIsCount(s: string, p: string)
    requires |p| > 0
    ensures |RemoveAll(s, p)| == |s| - |p| * Count(s, p)
    decreases |s|
  {
    if |s| < |p| {
    } else if s[..|p|] == p {
      RemovedLengthIsCount(s[|p|..], p);
      assert |p| * (1 + Count(s[|p|..], p)) == |p| + |p| * Count(s[|p|..], p);
    } else {
      RemovedLengthIsCount(s[1..], p);
    }
  }

  /** Python's `str.isspace` on one character (the characters `str.strip()` removes). */
  predicate IsSpace(c: char)
  {
    var n := c as int;
    (9 <= n <= 13) || (0x1c <= n <= 0x20) || n == 0x85 || n == 0xa0 || n == 0x1680
    || (0x2000 <= n <= 0x200a) || n == 0x2028 || n == 0x2029 || n == 0x202f
    || n == 0x205f || n == 0x3000
  }

  /** Removes leading whitespace: what is cut off is all whitespace, what is left does not start with any. */
  function TrimStart(s: string): (r: string)
    ensures |r| <= |s| && r == s[|s| - |r|..]
    ensures forall i :: 0 <= i < |s| - |r| ==> IsSpace(s[i])
    ensures r != [] ==> !IsSpace(r[0])
    decreases |s|
  {
    if s != [] && IsSpace(s[0]) then TrimStart(s[1..]) else s
  }

  /** Removes trailing whitespace: what is cut off is all whitespace, what is left does not end with any. */
  function TrimEnd(s: string): (r: string)
    ensures |r| <= |s| && r == s[..|r|]
    ensures forall i :: |r| <= i < |s| ==> IsSpace(s[i])
    ensures r != [] ==> !IsSpace(r[|r| - 1])
    decreases |s|
  {
    if s != [] && IsSpace(s[|s| - 1]) then TrimEnd(s[..|s| - 1]) else s
  }

  /** Python's `s.strip()`: empty exactly when `s` is all whitespace. */
  function Strip(s: string): (r: string)
    ensures r == [] <==> forall i :: 0 <= i < |s| ==> IsSpace(s[i])
    ensures r != [] ==> !IsSpace(r[0]) && !IsSpace(r[|r| - 1])
  {
    var t := TrimStart(s);
    assert t == [] ==> forall i :: 0 <= i < |s| ==> IsSpace(s[i]);
    assert t != [] ==> TrimEnd(t) != [];
    TrimEnd(t)
  }

  /**
   * What `strip` returns is the slice of `s` left after cutting whitespace
   * from both ends.
   */
  lemma StripIsSlice(s: string)
    ensures exists a, b :: (0 <= a <= b <= |s| && Strip(s) == s[a..b]
      && (forall i :: 0 <= i < a ==> IsSpace(s[i])) && (forall i :: b <= i < |s| ==> IsSpace(s[i])))
  {
    var t := TrimStart(s);
    var r := TrimEnd(t);
    var a := |s| - |t|;
    var b := a + |r|;
    StripSuffixIsSpace(s, a, t, r);
    assert Strip(s) == s[a..b] by {
      assert t == s[a..];
      assert r == t[..|r|];
    }
  }

  /** What `TrimEnd` cuts from the suffix `t` of `s` is whitespace in `s`. */
  lemma StripSuffixIsSpace(s: string, a: nat, t: string, r: string)
    requires a <= |s| && t == s[a..] && r == TrimEnd(t)
    ensures forall i :: a + |r| <= i < |s| ==> IsSpace(s[i])
  {
    forall i | a + |r| <= i < |s| ensures IsSpace(s[i]) {
      assert s[i] == t[i - a];
    }
  }

  /** Python's `s.endswith(p)`. */
  predicate EndsWith(s: string, p: string)
  {
    |p| <= |s| && s[|s| - |p|..] == p
  }

  /**
   * `Strip(s).endswith(c)` for a non-whitespace character `c` asks whether
   * the last character of `s` that is not whitespace is `c`.
   */
  lemma StrippedEndsWith(s: string, c: char, k: nat)
    requires !IsSpace(c)
    requires k < |s| && !IsSpace(s[k]) && forall i :: k < i < |s| ==> IsSpace(s[i])
    ensures EndsWith(Strip(s), [c]) <==> s[k] == c
  {
    var t := TrimStart(s);
    var r := TrimEnd(t);
    var a := |s| - |t|;
    assert a <= k;
    assert t[k - a] == s[k];
    assert |r| == k - a + 1;
    assert r[|r| - 1] == s[k];
  }
}
