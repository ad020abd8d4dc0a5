/** The search family: `indexOf` and `lastIndexOf` for a single unit and for
    a unit sequence, as specification functions and as the scanning loops of
    the string, which read the units through `charAt`. */
module Search {
  import opened Units

  /** `s` occurs in `a` starting at `i`, entirely within `a`. */
  predicate MatchesAt(a: seq<Unit>, s: seq<Unit>, i: int)
  {
    0 <= i && i + |s| <= |a| && a[i..i + |s|] == s
  }

  /** The first occurrence of `s` in `a` at or after `i`, or -1. */
  function FindFrom(a: seq<Unit>, s: seq<Unit>, i: nat): (r: int)
    ensures r == -1 || i <= r <= |a| - |s|
    decreases |a| - i
  {
    if i + |s| > |a| then -1
    else if a[i..i + |s|] == s then i
    else FindFrom(a, s, i + 1)
  }

  /** `FindFrom` is the least match at or after `i`, and -1 means none. */
  lemma {:induction false} FindFromIsFirst(a: seq<Unit>, s: seq<Unit>, i: nat)
    ensures var r := FindFrom(a, s, i);
      (r == -1 && forall j :: i <= j ==> !MatchesAt(a, s, j)) ||
      (i <= r && MatchesAt(a, s, r) && forall j :: i <= j < r ==> !MatchesAt(a, s, j))
    decreases |a| - i
  {
    if i + |s| <= |a| && a[i..i + |s|] != s {
      FindFromIsFirst(a, s, i + 1);
    }
  }

  /** The last occurrence of `s` in `a` starting at or before `from`, or -1. */
  function FindLast(a: seq<Unit>, s: seq<Unit>, from: int): int
    decreases if from < 0 then 0 else from + 1
  {
    if from < 0 then -1
    else if MatchesAt(a, s, from) then from
    else FindLast(a, s, from - 1)
  }

  /** `FindLast` is the greatest match at or before `from`, and -1 means none. */
  lemma {:induction false} FindLastIsLast(a: seq<Unit>, s: seq<Unit>, from: int)
    ensures var r := FindLast(a, s, from);
      (r == -1 && forall j :: j <= from ==> !MatchesAt(a, s, j)) ||
      (0 <= r <= from && MatchesAt(a, s, r) && forall j :: r < j <= from ==> !MatchesAt(a, s, j))
    decreases if from < 0 then 0 else from + 1
  {
    if 0 <= from && !MatchesAt(a, s, from) {
      FindLastIsLast(a, s, from - 1);
    }
  }

  /** The first index at or after `i` holding the unit `c`, or -1. */
  function UnitFrom(a: seq<Unit>, c: int, i: nat): int
    decreases |a| - i
  {
    if i >= |a| then -1
    else if a[i] == c then i
    else UnitFrom(a, c, i + 1)
  }

  /** `UnitFrom` is the least index holding `c` at or after `i`; -1 means none. */
  lemma {:induction false} UnitFromIsFirst(a: seq<Unit>, c: int, i: nat)
    ensures var r := UnitFrom(a, c, i);
      (r == -1 && forall j :: i <= j < |a| ==> a[j] != c) ||
      (i <= r < |a| && a[r] == c && forall j :: i <= j < r ==> a[j] != c)
    decreases |a| - i
  {
    if i < |a| && a[i] != c {
      UnitFromIsFirst(a, c, i + 1);
    }
  }

  /** Searching for a unit is searching for the one-unit sequence. */
  lemma {:induction false} UnitFromIsFind(a: seq<Unit>, c: Unit, i: nat)
    ensures UnitFrom(a, c, i) == FindFrom(a, [c], i)
    decreases |a| - i
  {
    if i < |a| {
      assert a[i..i + 1] == [a[i]];
      if a[i] != c {
        UnitFromIsFind(a, c, i + 1);
      }
    }
  }

  /** The last index at or before `from` holding the unit `c`, or -1;
      `from` must not lie past the end. */
  function UnitBefore(a: seq<Unit>, c: int, from: int): int
    requires from < |a|
    decreases if from < 0 then 0 else from + 1
  {
    if from < 0 then -1
    else if a[from] == c then from
    else UnitBefore(a, c, from - 1)
  }

  /** `UnitBefore` is the greatest index holding `c` at or before `from`. */
  lemma {:induction false} UnitBeforeIsLast(a: seq<Unit>, c: int, from: int)
    requires from < |a|
    ensures var r := UnitBefore(a, c, from);
      (r == -1 && forall j :: 0 <= j <= from ==> a[j] != c) ||
      (0 <= r <= from && a[r] == c && forall j :: r < j <= from ==> a[j] != c)
    decreases if from < 0 then 0 else from + 1
  {
    if 0 <= from && a[from] != c {
      UnitBeforeIsLast(a, c, from - 1);
    }
  }

  /** The loop of `indexOf(int c, int start)` for `start >= 0`. */
  method IndexOfUnitScan(a: seq<Unit>, c: int, start: nat) returns (r: int)
    ensures r == UnitFrom(a, c, start)
  {
    var i := start;
    while i < |a|
      invariant start <= i
      invariant UnitFrom(a, c, start) == UnitFrom(a, c, i)
      decreases |a| - i
    {
      if a[i] == c {
        return i;
      }
      i := i + 1;
    }
    return -1;
  }

  /** The inner loop of the substring searches: the number of leading units
      of `s` that agree with `a` from `i` on, stopping at the first mismatch. */
  method MatchLength(a: seq<Unit>, s: seq<Unit>, i: nat) returns (j: nat)
    requires i + |s| <= |a|
    ensures j <= |s| && forall k :: 0 <= k < j ==> a[i + k] == s[k]
    ensures j < |s| ==> a[i + j] != s[j]
    ensures j == |s| <==> MatchesAt(a, s, i)
  {
    j := 0;
    while j < |s|
      invariant j <= |s|
      invariant forall k :: 0 <= k < j ==> a[i + k] == s[k]
    {
      if a[i + j] != s[j] {
        assert a[i..i + |s|][j] != s[j];
        return;
      }
      j := j + 1;
    }
    assert a[i..i + |s|] == s;
  }

  /** The loops of `indexOf(String s, int start)` for a non-empty `s` and
      `start >= 0`; no unit at or past the end of `a` is read. */
  method IndexOfScan(a: seq<Unit>, s: seq<Unit>, start: nat) returns (r: int)
    requires |s| > 0
    ensures r == FindFrom(a, s, start)
  {
    var i := start;
    while i < |a| - |s| + 1
      invariant start <= i
      invariant FindFrom(a, s, start) == FindFrom(a, s, i)
      decreases |a| - i
    {
      var j := MatchLength(a, s, i);
      if j == |s| {
        return i;
      }
      i := i + 1;
    }
    return -1;
  }

  /** The loops of `lastIndexOf(String s, int lastIndex)` for a non-empty
      `s`: the scan starts at `min(length - |s|, lastIndex)` and walks down to
      0 (the inner loop's extra test `i + j < length` never fails there). */
  method LastIndexOfScan(a: seq<Unit>, s: seq<Unit>, lastIndex: int) returns (r: int)
    requires |s| > 0
    ensures r == FindLast(a, s, if |a| - |s| < lastIndex then |a| - |s| else lastIndex)
  {
    var i := if |a| - |s| < lastIndex then |a| - |s| else lastIndex;
    ghost var from := i;
    while i >= 0
      invariant i <= from <= |a| - |s|
      invariant FindLast(a, s, from) == FindLast(a, s, i)
      decreases i + 1
    {
      var j := MatchLength(a, s, i);
      if j == |s| {
        return i;
      }
      i := i - 1;
    }
    return -1;
  }

  /** The loop of `lastIndexOf(int ch, int lastIndex)`: `lastIndex` is first
      clamped to `length - 1`; a negative bound finds nothing. */
  method LastIndexOfUnitScan(a: seq<Unit>, c: int, lastIndex: int) returns (r: int)
    ensures r == UnitBefore(a, c, if lastIndex >= |a| then |a| - 1 else lastIndex)
  {
    var i := if lastIndex >= |a| then |a| - 1 else lastIndex;
    ghost var from := i;
    while i >= 0
      invariant i <= from < |a|
      invariant UnitBefore(a, c, from) == UnitBefore(a, c, i)
      decreases i + 1
    {
      if a[i] == c {
        return i;
      }
      i := i - 1;
    }
    return -1;
  }
}
