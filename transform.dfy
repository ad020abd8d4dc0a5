/** The value-producing operations on unit sequences: the bounds `trim`
    keeps, single-unit replacement, literal replacement, `infuse`, and the
    units of the legacy high-byte constructor. */
module Transform {
  import opened Units
  import opened Search

  // ---------------------------------------------------------------- trim

  /** The first index at or after `i` whose unit is not whitespace, or -1. */
  function FirstNonSpace(a: seq<Unit>, ws: Unit -> bool, i: nat): int
    decreases |a| - i
  {
    if i >= |a| then -1
    else if !ws(a[i]) then i
    else FirstNonSpace(a, ws, i + 1)
  }

  /** One past the last index at or before `from` whose unit is not
      whitespace, or -1. */
  function LastNonSpaceEnd(a: seq<Unit>, ws: Unit -> bool, from: int): int
    requires from < |a|
    decreases if from < 0 then 0 else from + 1
  {
    if from < 0 then -1
    else if !ws(a[from]) then from + 1
    else LastNonSpaceEnd(a, ws, from - 1)
  }

  lemma {:induction false} FirstNonSpaceIsFirst(a: seq<Unit>, ws: Unit -> bool, i: nat)
    ensures var r := FirstNonSpace(a, ws, i);
      (r == -1 && forall j :: i <= j < |a| ==> ws(a[j])) ||
      (i <= r < |a| && !ws(a[r]) && forall j :: i <= j < r ==> ws(a[j]))
    decreases |a| - i
  {
    if i < |a| && ws(a[i]) {
      FirstNonSpaceIsFirst(a, ws, i + 1);
    }
  }

  lemma {:induction false} LastNonSpaceEndIsLast(a: seq<Unit>, ws: Unit -> bool, from: int)
    requires from < |a|
    ensures var r := LastNonSpaceEnd(a, ws, from);
      (r == -1 && forall j :: 0 <= j <= from ==> ws(a[j])) ||
      (0 < r <= from + 1 && !ws(a[r - 1]) && forall j :: r <= j <= from ==> ws(a[j]))
    decreases if from < 0 then 0 else from + 1
  {
    if 0 <= from && ws(a[from]) {
      LastNonSpaceEndIsLast(a, ws, from - 1);
    }
  }

  /** What `trim` keeps: with no non-whitespace unit both bounds are -1;
      otherwise `start < end`, the dropped prefix `a[..start]` and suffix
      `a[end..]` are all whitespace, and the kept range begins and ends with
      a non-whitespace unit. */
  lemma TrimBounds(a: seq<Unit>, ws: Unit -> bool)
    ensures var start, end := FirstNonSpace(a, ws, 0), LastNonSpaceEnd(a, ws, |a| - 1);
      (start == -1 && end == -1 && forall j :: 0 <= j < |a| ==> ws(a[j])) ||
      (0 <= start < end <= |a| && !ws(a[start]) && !ws(a[end - 1]) &&
       (forall j :: 0 <= j < start ==> ws(a[j])) &&
       (forall j :: end <= j < |a| ==> ws(a[j])))
  {
    FirstNonSpaceIsFirst(a, ws, 0);
    LastNonSpaceEndIsLast(a, ws, |a| - 1);
  }

  /** The two scanning loops of `trim`. */
  method TrimScan(a: seq<Unit>, ws: Unit -> bool) returns (start: int, end: int)
    ensures start == FirstNonSpace(a, ws, 0)
    ensures end == LastNonSpaceEnd(a, ws, |a| - 1)
  {
    start := -1;
    var i := 0;
    while i < |a|
      invariant 0 <= i <= |a|
      invariant start == -1
      invariant FirstNonSpace(a, ws, 0) == FirstNonSpace(a, ws, i)
    {
      if !ws(a[i]) {
        start := i;
        break;
      }
      i := i + 1;
    }
    end := -1;
    i := |a| - 1;
    while i >= 0
      invariant -1 <= i < |a|
      invariant end == -1
      invariant LastNonSpaceEnd(a, ws, |a| - 1) == LastNonSpaceEnd(a, ws, i)
    {
      if !ws(a[i]) {
        end := i + 1;
        break;
      }
      i := i - 1;
    }
  }

  // ------------------------------------------------- replace(char, char)

  /** `replace(oldChar, newChar)`: every element equal to `x` becomes `y`.
      The `char[]` branch runs it on units, the `byte[]` branch on bytes
      with `x` and `y` cast to `byte`. */
  function Replaced<T(==)>(a: seq<T>, x: T, y: T): (r: seq<T>)
    ensures |r| == |a|
  {
    seq(|a|, i requires 0 <= i < |a| => if a[i] == x then y else a[i])
  }

  /** After replacing, `oldChar` survives only where it was mapped to itself,
      every other unit is kept, and replacing twice changes nothing more. */
  lemma ReplaceUnitsEffect(a: seq<Unit>, oldChar: Unit, newChar: Unit)
    ensures oldChar != newChar ==> forall i :: 0 <= i < |a| ==> Replaced(a, oldChar, newChar)[i] != oldChar
    ensures forall i :: 0 <= i < |a| && a[i] != oldChar ==> Replaced(a, oldChar, newChar)[i] == a[i]
    ensures Replaced(Replaced(a, oldChar, newChar), oldChar, newChar) == Replaced(a, oldChar, newChar)
  {
  }

  /** For ASCII `oldChar` and `newChar` the compact branch agrees with the
      wide branch on the units it presents. */
  lemma CompactReplaceAscii(b: seq<Int8>, oldChar: Unit, newChar: Unit)
    requires oldChar < 0x80 && newChar < 0x80
    ensures Widen(Replaced(b, CharToByte(oldChar), CharToByte(newChar)))
         == Replaced(Widen(b), oldChar, newChar)
  {
    assert CharToByte(oldChar) == oldChar && CharToByte(newChar) == newChar;
    forall i | 0 <= i < |b|
      ensures Widen(Replaced(b, CharToByte(oldChar), CharToByte(newChar)))[i]
           == Replaced(Widen(b), oldChar, newChar)[i]
    {
      ByteCharRoundTrip(b[i]);
    }
  }

  /** The compact branch compares only the low 8 bits of `oldChar`:
      replacing U+0141 in the compact "A" rewrites the 'A', which the wide
      branch leaves alone. */
  lemma CompactReplaceLowBitsOnly()
    ensures Widen(Replaced([0x41], CharToByte(0x141), CharToByte(0x78))) == [0x78]
    ensures Replaced(Widen([0x41]), 0x141, 0x78) == [0x41]
  {
    assert CharToByte(0x141) == 0x41;
  }

  // ------------------------------------------- replace(target, replacement)

  /** Non-overlapping left-to-right replacement of a non-empty `target`:
      wherever `target` starts, it is replaced and skipped; elsewhere one unit
      is kept. */
  function ReplaceAll(a: seq<Unit>, target: seq<Unit>, repl: seq<Unit>): seq<Unit>
    requires |target| > 0
    decreases |a|
  {
    if |a| < |target| then a
    else if a[..|target|] == target then repl + ReplaceAll(a[|target|..], target, repl)
    else [a[0]] + ReplaceAll(a[1..], target, repl)
  }

  /** A prefix holding no start of `target` passes through unchanged. */
  lemma {:induction false} ReplaceAllSkip(a: seq<Unit>, target: seq<Unit>, repl: seq<Unit>, k: nat)
    requires |target| > 0 && k <= |a|
    requires forall j :: 0 <= j < k ==> !MatchesAt(a, target, j)
    ensures ReplaceAll(a, target, repl) == a[..k] + ReplaceAll(a[k..], target, repl)
  {
    if k == 0 {
      assert a[k..] == a;
    } else if |a| < |target| {
      assert ReplaceAll(a[k..], target, repl) == a[k..];
      assert a == a[..k] + a[k..];
    } else {
      assert !MatchesAt(a, target, 0);
      NoMatchShift(a, target, k);
      ReplaceAllSkip(a[1..], target, repl, k - 1);
      assert a[1..][k - 1..] == a[k..];
      assert a[..k] == [a[0]] + a[1..][..k - 1];
    }
  }

  lemma NoMatchShift(a: seq<Unit>, target: seq<Unit>, k: nat)
    requires 0 < k <= |a|
    requires forall j :: 0 <= j < k ==> !MatchesAt(a, target, j)
    ensures forall j :: 0 <= j < k - 1 ==> !MatchesAt(a[1..], target, j)
  {
    forall j | 0 <= j < k - 1
      ensures !MatchesAt(a[1..], target, j)
    {
      assert !MatchesAt(a, target, j + 1);
      if j + 1 + |target| <= |a| {
        assert a[1..][j..j + |target|] == a[j + 1..j + 1 + |target|];
      }
    }
  }

  /** The value `replace` assembles round by round: with no occurrence of
      `target` the units are returned unchanged; otherwise the units before
      the first occurrence, then `repl`, then the replacement of what follows
      that occurrence. */
  lemma ReplaceAllFirst(a: seq<Unit>, target: seq<Unit>, repl: seq<Unit>)
    requires |target| > 0
    ensures var i := FindFrom(a, target, 0);
      if i == -1 then ReplaceAll(a, target, repl) == a
      else ReplaceAll(a, target, repl) == a[..i] + repl + ReplaceAll(a[i + |target|..], target, repl)
  {
    FindFromIsFirst(a, target, 0);
    var i := FindFrom(a, target, 0);
    if i == -1 {
      ReplaceAllSkip(a, target, repl, |a|);
      assert a[|a|..] == [];
    } else {
      ReplaceAllSkip(a, target, repl, i);
      var rest := a[i..];
      assert rest[..|target|] == target;
      assert rest[|target|..] == a[i + |target|..];
    }
  }

  /** Replacing a target by itself gives back the original units. */
  lemma {:induction false} ReplaceAllSelf(a: seq<Unit>, target: seq<Unit>)
    requires |target| > 0
    ensures ReplaceAll(a, target, target) == a
    decreases |a|
  {
    if |a| >= |target| {
      if a[..|target|] == target {
        ReplaceAllSelf(a[|target|..], target);
        assert a == a[..|target|] + a[|target|..];
      } else {
        ReplaceAllSelf(a[1..], target);
        assert a == [a[0]] + a[1..];
      }
    }
  }

  /** What the `replace` loop keeps: the units accumulated so far followed by
      the replacement of the unhandled rest make up the full replacement. */
  ghost predicate ReplaceProgress(a: seq<Unit>, acc: seq<Unit>, unhandled: seq<Unit>,
                                  target: seq<Unit>, repl: seq<Unit>)
    requires |target| > 0
  {
    acc + ReplaceAll(unhandled, target, repl) == ReplaceAll(a, target, repl)
  }

  /** One round of the `replace` loop keeps `ReplaceProgress` once the
      first occurrence, at `index`, is known to split the replacement. */
  lemma ReplaceRound(a: seq<Unit>, acc: seq<Unit>, unhandled: seq<Unit>,
                     target: seq<Unit>, repl: seq<Unit>, index: nat)
    requires |target| > 0 && index + |target| <= |unhandled|
    requires ReplaceProgress(a, acc, unhandled, target, repl)
    requires ReplaceAll(unhandled, target, repl)
             == unhandled[..index] + repl + ReplaceAll(unhandled[index + |target|..], target, repl)
    ensures ReplaceProgress(a, acc + (unhandled[..index] + repl), unhandled[index + |target|..], target, repl)
  {
    var done := unhandled[..index] + repl;
    var tail := ReplaceAll(unhandled[index + |target|..], target, repl);
    assert (acc + done) + tail == acc + (done + tail);
  }

  /** A round of the `replace` loop that finds `target` keeps `ReplaceProgress`. */
  lemma ReplaceFoundRound(a: seq<Unit>, acc: seq<Unit>, unhandled: seq<Unit>,
                          target: seq<Unit>, repl: seq<Unit>)
    requires |target| > 0 && ReplaceProgress(a, acc, unhandled, target, repl)
    ensures var i := FindFrom(unhandled, target, 0);
      i != -1 ==> ReplaceProgress(a, acc + (unhandled[..i] + repl), unhandled[i + |target|..], target, repl)
  {
    var i := FindFrom(unhandled, target, 0);
    if i != -1 {
      ReplaceAllFirst(unhandled, target, repl);
      ReplaceRound(a, acc, unhandled, target, repl, i);
    }
  }

  /** The `while` loop of `replace(target, replacement)`: `unhandled` loses
      at least `|target|` units per round. */
  method ReplaceScan(a: seq<Unit>, target: seq<Unit>, repl: seq<Unit>) returns (r: seq<Unit>)
    requires |target| > 0
    ensures r == ReplaceAll(a, target, repl)
  {
    var acc: seq<Unit> := [];
    var unhandled := a;
    var index := IndexOfScan(unhandled, target, 0);
    assert ReplaceProgress(a, acc, unhandled, target, repl);
    while index != -1
      invariant ReplaceProgress(a, acc, unhandled, target, repl)
      invariant index == FindFrom(unhandled, target, 0)
      decreases |unhandled|
    {
      ReplaceFoundRound(a, acc, unhandled, target, repl);
      acc := acc + (unhandled[..index] + repl);
      unhandled := unhandled[index + |target|..];
      index := IndexOfScan(unhandled, target, 0);
    }
    ReplaceAllFirst(unhandled, target, repl);
    r := acc + unhandled;
  }

  // ---------------------------------------------------------------- infuse

  /** `with, a[0], with, a[1], ..., with, a[n-1]`: what the loop of `infuse`
      has appended after `n` rounds. */
  function Interleave(a: seq<Unit>, with: seq<Unit>): seq<Unit>
  {
    if a == [] then [] else Interleave(a[..|a| - 1], with) + with + [a[|a| - 1]]
  }

  /** `infuse(with)`: `with` before every unit and once more at the end. */
  function Infuse(a: seq<Unit>, with: seq<Unit>): seq<Unit>
  {
    Interleave(a, with) + with
  }

  lemma {:induction false} InterleaveLength(a: seq<Unit>, with: seq<Unit>)
    ensures |Interleave(a, with)| == |a| * (|with| + 1)
  {
    if a != [] {
      var n, w := |a|, |with| + 1;
      InterleaveLength(a[..n - 1], with);
      assert (n - 1) * w + w == n * w;
    }
  }

  /** Round `k` of the loop appended `with` followed by `a[k]`. */
  lemma {:induction false} InterleaveBlock(a: seq<Unit>, with: seq<Unit>, k: nat)
    requires k < |a|
    ensures (k + 1) * (|with| + 1) <= |Interleave(a, with)|
    ensures Interleave(a, with)[k * (|with| + 1)..(k + 1) * (|with| + 1)] == with + [a[k]]
  {
    var w := |with| + 1;
    var init := a[..|a| - 1];
    var p := Interleave(init, with);
    InterleaveLength(init, with);
    InterleaveLength(a, with);
    assert Interleave(a, with) == p + (with + [a[|a| - 1]]);
    if k == |a| - 1 {
      assert k * w == |p|;
    } else {
      InterleaveBlock(init, with, k);
      assert (k + 1) * w <= (|a| - 1) * w;
      assert init[k] == a[k];
      assert Interleave(a, with)[k * w..(k + 1) * w] == p[k * w..(k + 1) * w];
    }
  }

  /** `infuse` has `(n+1)*|with| + n` units and ends with `with`. */
  lemma InfuseLength(a: seq<Unit>, with: seq<Unit>)
    ensures |Infuse(a, with)| == (|a| + 1) * |with| + |a|
    ensures Infuse(a, with)[|a| * (|with| + 1)..] == with
  {
    var n, m := |a|, |with|;
    InterleaveLength(a, with);
    assert n * (m + 1) == n * m + n;
    assert (n + 1) * m == n * m + m;
  }

  /** Block `k` of `infuse`, of `|with|+1` units, is `with` followed by
      `a[k]`: the replacement sits in front of every unit. */
  lemma InfuseBlock(a: seq<Unit>, with: seq<Unit>, k: nat)
    requires k < |a|
    ensures (k + 1) * (|with| + 1) <= |Infuse(a, with)|
    ensures Infuse(a, with)[k * (|with| + 1)..(k + 1) * (|with| + 1)] == with + [a[k]]
  {
    var w := |with| + 1;
    InterleaveBlock(a, with, k);
    assert Infuse(a, with)[k * w..(k + 1) * w] == Interleave(a, with)[k * w..(k + 1) * w];
  }

  /** `"a".replace("", "-")` is `"-a-"`. */
  lemma InfuseExample()
    ensures Infuse([0x61], [0x2D]) == [0x2D, 0x61, 0x2D]
  {
    assert [0x61][..0] == [];
  }

  /** The `for` loop of `infuse`. */
  method InfuseScan(a: seq<Unit>, with: seq<Unit>) returns (r: seq<Unit>)
    ensures r == Infuse(a, with)
  {
    r := [];
    var i := 0;
    while i < |a|
      invariant 0 <= i <= |a|
      invariant r == Interleave(a[..i], with)
    {
      assert a[..i + 1][..i] == a[..i];
      r := r + with + [a[i]];
      i := i + 1;
    }
    assert a[..i] == a;
    r := r + with;
  }

  // ------------------------------------------------- high-byte constructor

  /** `(char) ((b & 0xFF) | (highByte << 8))`: the low 8 bits of the shifted
      mask are zero, so the `|` is an addition, and the cast to `char` keeps
      the sum modulo 2^16. */
  function HighByteUnit(b: Int8, highByte: Int32): Unit
  {
    (LowByte(b) + highByte * 0x100) % 0x1_0000
  }

  /** The unit's low byte is the byte read as unsigned, and its high byte is
      the low 8 bits of `highByte`. */
  lemma HighByteUnitSplit(b: Int8, highByte: Int32)
    ensures HighByteUnit(b, highByte) % 0x100 == LowByte(b)
    ensures HighByteUnit(b, highByte) / 0x100 == highByte % 0x100
  {
    var q, m := highByte / 0x100, highByte % 0x100;
    assert highByte == q * 0x100 + m;
    assert LowByte(b) + highByte * 0x100 == (LowByte(b) + m * 0x100) + q * 0x1_0000;
    assert HighByteUnit(b, highByte) == LowByte(b) + m * 0x100;
  }

}
