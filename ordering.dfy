/** The specifications of `hashCode` and of ordinal and case-insensitive
    comparison, over the unit sequence a string presents. */
module Ordering {
  import opened Units

  /** `h := h * 31 + unit(i)` folded left over all units, in 32-bit arithmetic. */
  function Hash(s: seq<Unit>): Int32
  {
    if s == [] then 0 else Wrap32(Hash(s[..|s| - 1]) * 31 + s[|s| - 1])
  }

  /** The same fold in unbounded arithmetic: the polynomial
      `s[0]*31^(n-1) + ... + s[n-1]`. */
  function Poly(s: seq<Unit>): int
  {
    if s == [] then 0 else Poly(s[..|s| - 1]) * 31 + s[|s| - 1]
  }

  /** `31^k`. */
  function Pow31(k: nat): (r: nat)
    ensures r >= 1
  {
    if k == 0 then 1 else 31 * Pow31(k - 1)
  }

  /** The polynomial `s[0]*31^(n-1) + s[1]*31^(n-2) + ... + s[n-1]`. */
  function PowerSum(s: seq<Unit>): int
  {
    if s == [] then 0 else s[0] * Pow31(|s| - 1) + PowerSum(s[1..])
  }

  /** Appending a unit multiplies the power sum by 31 and adds the unit. */
  lemma {:induction false} PowerSumSnoc(s: seq<Unit>, c: Unit)
    ensures PowerSum(s + [c]) == PowerSum(s) * 31 + c
  {
    if s == [] {
      assert [c][1..] == [];
    } else {
      var n := |s|;
      assert (s + [c])[1..] == s[1..] + [c];
      PowerSumSnoc(s[1..], c);
      calc {
        PowerSum(s + [c]);
        s[0] * Pow31(n) + PowerSum(s[1..] + [c]);
        s[0] * (31 * Pow31(n - 1)) + (PowerSum(s[1..]) * 31 + c);
        { assert s[0] * (31 * Pow31(n - 1)) == (s[0] * Pow31(n - 1)) * 31; }
        (s[0] * Pow31(n - 1) + PowerSum(s[1..])) * 31 + c;
      }
    }
  }

  /** The Horner fold computes the power sum. */
  lemma {:induction false} PolyIsPowerSum(s: seq<Unit>)
    ensures Poly(s) == PowerSum(s)
  {
    if s != [] {
      var init := s[..|s| - 1];
      PolyIsPowerSum(init);
      PowerSumSnoc(init, s[|s| - 1]);
      assert init + [s[|s| - 1]] == s;
    }
  }

  lemma WrapAbsorbs(x: int, c: int)
    ensures Wrap32(Wrap32(x) * 31 + c) == Wrap32(x * 31 + c)
  {
    var M := 0x1_0000_0000;
    var q := (x + 0x8000_0000) / M;
    assert Wrap32(x) == x - q * M;
    assert Wrap32(x) * 31 + c == x * 31 + c - (31 * q) * M;
    ModShift(x * 31 + c + 0x8000_0000, -31 * q);
  }

  lemma ModShift(y: int, k: int)
    ensures (y + k * 0x1_0000_0000) % 0x1_0000_0000 == y % 0x1_0000_0000
  {
  }

  /** The wrapped fold is the true polynomial hash reduced modulo 2^32. */
  lemma {:induction false} HashIsWrappedPoly(s: seq<Unit>)
    ensures Hash(s) == Wrap32(Poly(s))
    ensures Hash(s) == Wrap32(PowerSum(s))
  {
    PolyIsPowerSum(s);
    if s != [] {
      HashIsWrappedPoly(s[..|s| - 1]);
      WrapAbsorbs(Poly(s[..|s| - 1]), s[|s| - 1]);
    }
  }

  /** One more step of the hash loop extends the fold by one unit. */
  lemma HashStep(s: seq<Unit>, i: nat)
    requires i < |s|
    ensures Hash(s[..i + 1]) == Wrap32(Hash(s[..i]) * 31 + s[i])
  {
    assert s[..i + 1][..i] == s[..i];
  }

  /** Ordinal comparison as `compareTo` computes it: the difference of the
      first unequal units, or else the difference of the lengths. */
  function Compare(a: seq<Unit>, b: seq<Unit>): int
  {
    if a == [] || b == [] then |a| - |b|
    else if a[0] != b[0] then a[0] as int - b[0] as int
    else Compare(a[1..], b[1..])
  }

  /** A common prefix of length `k` can be skipped. */
  lemma {:induction false} CompareSkip(a: seq<Unit>, b: seq<Unit>, k: nat)
    requires k <= |a| && k <= |b| && a[..k] == b[..k]
    ensures Compare(a, b) == Compare(a[k..], b[k..])
  {
    if k > 0 {
      assert a[0] == a[..k][0] == b[..k][0] == b[0];
      assert a[1..][..k - 1] == a[1..k] == b[1..k] == b[1..][..k - 1];
      CompareSkip(a[1..], b[1..], k - 1);
      assert a[1..][k - 1..] == a[k..];
      assert b[1..][k - 1..] == b[k..];
    }
  }

  /** The result named by units: the first difference within the shared
      length decides, otherwise the length difference does. */
  lemma CompareFirstDifference(a: seq<Unit>, b: seq<Unit>, k: nat)
    requires k <= |a| && k <= |b| && a[..k] == b[..k]
    ensures k < |a| && k < |b| && a[k] != b[k] ==> Compare(a, b) == a[k] as int - b[k] as int
    ensures k == |a| || k == |b| ==> Compare(a, b) == |a| - |b|
  {
    CompareSkip(a, b, k);
  }

  /** `compareTo` is zero exactly on equal unit sequences. */
  lemma {:induction false} CompareZeroIffEqual(a: seq<Unit>, b: seq<Unit>)
    ensures Compare(a, b) == 0 <==> a == b
  {
    if a != [] && b != [] && a[0] == b[0] {
      CompareZeroIffEqual(a[1..], b[1..]);
      assert a == [a[0]] + a[1..];
      assert b == [b[0]] + b[1..];
    }
  }

  /** Swapping the operands negates the result. */
  lemma {:induction false} CompareAntisymmetric(a: seq<Unit>, b: seq<Unit>)
    ensures Compare(b, a) == -Compare(a, b)
  {
    if a != [] && b != [] && a[0] == b[0] {
      CompareAntisymmetric(a[1..], b[1..]);
    }
  }

  /** The order `compareTo` induces is transitive. */
  lemma {:induction false} CompareTransitive(a: seq<Unit>, b: seq<Unit>, c: seq<Unit>)
    requires Compare(a, b) < 0 && Compare(b, c) < 0
    ensures Compare(a, c) < 0
  {
    if a != [] && b != [] && c != [] && a[0] == b[0] && b[0] == c[0] {
      CompareTransitive(a[1..], b[1..], c[1..]);
    }
  }

  /** The unit-by-unit image of `s` under a per-unit mapping. */
  function MapUnits(f: Unit -> Unit, s: seq<Unit>): (r: seq<Unit>)
    ensures |r| == |s|
    ensures forall i :: 0 <= i < |s| ==> r[i] == f(s[i])
  {
    seq(|s|, i requires 0 <= i < |s| => f(s[i]))
  }

  /** `compareToIgnoreCase`: the ordinal comparison of the lower-cased units. */
  function CompareIgnoreCase(lower: Unit -> Unit, a: seq<Unit>, b: seq<Unit>): int
  {
    Compare(MapUnits(lower, a), MapUnits(lower, b))
  }

  /** Case-insensitive comparison is zero exactly when the lower-cased
      sequences agree; in particular it is reflexive and symmetric. */
  lemma CompareIgnoreCaseZero(lower: Unit -> Unit, a: seq<Unit>, b: seq<Unit>)
    ensures CompareIgnoreCase(lower, a, b) == 0 <==> MapUnits(lower, a) == MapUnits(lower, b)
    ensures CompareIgnoreCase(lower, a, b) == -CompareIgnoreCase(lower, b, a)
  {
    CompareZeroIffEqual(MapUnits(lower, a), MapUnits(lower, b));
    CompareAntisymmetric(MapUnits(lower, a), MapUnits(lower, b));
  }
}
