/**
 * The integer state that QHummingbird.AddObservation builds from its ray
 * casts (Assets/Hummingbird/Scripts/QHummingbird.cs): every ray adds
 * base^index * (i+1) for each entry tags[i] equal to the tag it hit, and the
 * nectar obtained adds a truncated base^raySize * nectarObtained.
 *
 * Mathf.Pow of two integers and the following (int) cast are modelled as
 * exact integer powers; float rounding and 32-bit overflow are not modelled.
 */
module StateEncoding {
  import opened Wrappers

  function Pow(b: int, k: nat): (r: int)
    ensures b > 0 ==> r > 0
    decreases k
  {
    if k == 0 then 1 else b * Pow(b, k - 1)
  }

  /** C#'s (int) cast of a floating-point value: truncation toward zero. */
  function Trunc(x: real): (r: int)
    ensures 0.0 <= x ==> 0 <= r && r as real <= x < r as real + 1.0
    ensures x < 0.0 ==> r <= 0 && x <= r as real && r as real - 1.0 < x
  {
    if x >= 0.0 then x.Floor else -((-x).Floor)
  }

  /** What one RayCaster call adds per unit of base^index: the sum of i+1 over every tags[i] equal to the hit tag. */
  function MatchWeight(t: string, tags: seq<string>): nat
    decreases |tags|
  {
    if tags == [] then 0
    else MatchWeight(t, tags[..|tags| - 1]) + (if tags[|tags| - 1] == t then |tags| else 0)
  }

  /** The digit a ray outcome contributes: nothing for a miss. */
  function TagDigit(hit: Option<string>, tags: seq<string>): nat
  {
    match hit
    case None => 0
    case Some(t) => MatchWeight(t, tags)
  }

  /**
   * How many rays AddObservation casts, at indices 0 .. RayCount(raySize) - 1:
   * indices 0, 1, 2, then pairs i, i + 1 for odd i from 3 while i < raySize.
   */
  function RayCount(raySize: nat): (n: nat)
    ensures 3 <= n && n % 2 == 1
    ensures raySize <= n && (raySize >= 3 ==> n <= raySize + 1)
  {
    if raySize <= 3 then 3 else if raySize % 2 == 0 then raySize + 1 else raySize
  }

  /** The rays forward, up and down (indices 0, 1, 2) make up the ray part of the first three rays. */
  lemma FirstThreeRays(tags: seq<string>, base: int, outcome: nat -> Option<string>)
    ensures RaySum(tags, base, 3, outcome)
            == TagDigit(outcome(0), tags) + Pow(base, 1) * TagDigit(outcome(1), tags) + Pow(base, 2) * TagDigit(outcome(2), tags)
  {
    assert RaySum(tags, base, 0, outcome) == 0;
    RaySumStep(tags, base, 0, outcome);
    RaySumStep(tags, base, 1, outcome);
    RaySumStep(tags, base, 2, outcome);
  }

  /** A pair of side rays i, i + 1 adds both their digits at their weights. */
  lemma RayPairStep(tags: seq<string>, base: int, i: nat, outcome: nat -> Option<string>)
    ensures RaySum(tags, base, i + 2, outcome)
            == RaySum(tags, base, i, outcome) + Pow(base, i) * TagDigit(outcome(i), tags)
               + Pow(base, i + 1) * TagDigit(outcome(i + 1), tags)
  {
    RaySumStep(tags, base, i, outcome);
    RaySumStep(tags, base, i + 1, outcome);
  }

  /** AddObservation's side-ray loop, stepping odd i by 2 from 3, stops at exactly RayCount(raySize). */
  lemma RayLoopEnd(raySize: nat, i: nat)
    requires 3 <= i && i % 2 == 1 && raySize <= i
    requires i <= raySize + 1 || i == 3
    ensures i == RayCount(raySize)
  {
  }

  /** The digits of rays 0 .. count - 1, lowest index first. */
  function Digits(tags: seq<string>, outcome: nat -> Option<string>, count: nat): (ds: seq<nat>)
    ensures |ds| == count
    decreases count
  {
    if count == 0 then [] else Digits(tags, outcome, count - 1) + [TagDigit(outcome(count - 1), tags)]
  }

  /** The value of little-endian digits `ds` in base `b`. */
  function Numeral(ds: seq<int>, b: int): int
    decreases |ds|
  {
    if ds == [] then 0 else ds[0] + b * Numeral(ds[1..], b)
  }

  /** The ray part of the state after rays 0 .. count - 1 have been cast. */
  function RaySum(tags: seq<string>, base: int, count: nat, outcome: nat -> Option<string>): int
  {
    Numeral(Digits(tags, outcome, count), base)
  }

  /** The state AddObservation computes, given what each ray index hit and the nectar obtained. */
  function Encode(tags: seq<string>, base: int, raySize: nat, outcome: nat -> Option<string>, nectarObtained: real): int
  {
    RaySum(tags, base, RayCount(raySize), outcome) + Trunc(Pow(base, raySize) as real * nectarObtained)
  }

  /** Reads the lowest `count` base-`b` digits of `n`. */
  function Decode(n: int, b: int, count: nat): (ds: seq<int>)
    requires b > 0
    ensures |ds| == count
    decreases count
  {
    if count == 0 then [] else [n % b] + Decode(n / b, b, count - 1)
  }

  ghost predicate DistinctTags(tags: seq<string>)
  {
    forall i, j :: 0 <= i < j < |tags| ==> tags[i] != tags[j]
  }

  // ---------------------------------------------------------------- digits

  /** A tag that is not in the list matches no entry. */
  lemma {:induction false} UnknownTagWeighsNothing(t: string, tags: seq<string>)
    requires t !in tags
    ensures MatchWeight(t, tags) == 0
    decreases |tags|
  {
    if tags != [] {
      var init := tags[..|tags| - 1];
      assert forall x :: x in init ==> x in tags;
      UnknownTagWeighsNothing(t, init);
    }
  }

  /** A hit on a tag absent from the list encodes exactly like no hit. */
  lemma UnknownTagIsMiss(t: string, tags: seq<string>)
    requires t !in tags
    ensures TagDigit(Some(t), tags) == TagDigit(None, tags) == 0
  {
    UnknownTagWeighsNothing(t, tags);
  }

  /** With distinct tags, a hit on tags[i] contributes exactly i + 1. */
  lemma {:induction false} DistinctTagWeight(tags: seq<string>, i: nat)
    requires DistinctTags(tags) && i < |tags|
    ensures MatchWeight(tags[i], tags) == i + 1
    decreases |tags|
  {
    var init := tags[..|tags| - 1];
    if i < |init| {
      assert init[i] == tags[i];
      assert DistinctTags(init);
      DistinctTagWeight(init, i);
    } else {
      assert tags[i] !in init by {
        forall k | 0 <= k < |init| ensures init[k] != tags[i] {
          assert init[k] == tags[k];
        }
      }
      UnknownTagWeighsNothing(tags[i], init);
    }
  }

  /** With distinct tags, a digit is 0 exactly for a miss or an unknown tag, and i + 1 exactly for tags[i]. */
  lemma DigitMeaning(hit: Option<string>, tags: seq<string>)
    requires DistinctTags(tags)
    ensures TagDigit(hit, tags) <= |tags|
    ensures TagDigit(hit, tags) == 0 <==> hit.None? || hit.value !in tags
    ensures forall i :: 0 <= i < |tags| ==> (TagDigit(hit, tags) == i + 1 <==> hit == Some(tags[i]))
  {
    if hit.Some? {
      if hit.value in tags {
        var i :| 0 <= i < |tags| && tags[i] == hit.value;
        DistinctTagWeight(tags, i);
      } else {
        UnknownTagWeighsNothing(hit.value, tags);
      }
    }
  }

  // ---------------------------------------------------------------- numerals

  /** Appending a digit adds it at the next power of the base. */
  lemma {:induction false} NumeralAppend(ds: seq<int>, x: int, b: int)
    ensures Numeral(ds + [x], b) == Numeral(ds, b) + Pow(b, |ds|) * x
    decreases |ds|
  {
    if ds != [] {
      assert (ds + [x])[1..] == ds[1..] + [x];
      NumeralAppend(ds[1..], x, b);
      calc {
        Numeral(ds + [x], b);
        ds[0] + b * Numeral(ds[1..] + [x], b);
        ds[0] + b * (Numeral(ds[1..], b) + Pow(b, |ds| - 1) * x);
        { assert b * (Numeral(ds[1..], b) + Pow(b, |ds| - 1) * x) == b * Numeral(ds[1..], b) + (b * Pow(b, |ds| - 1)) * x; }
        Numeral(ds, b) + Pow(b, |ds|) * x;
      }
    }
  }

  /** Casting ray `count` adds its digit at weight base^count, as RayCaster does. */
  lemma RaySumStep(tags: seq<string>, base: int, count: nat, outcome: nat -> Option<string>)
    ensures RaySum(tags, base, count + 1, outcome)
            == RaySum(tags, base, count, outcome) + Pow(base, count) * TagDigit(outcome(count), tags)
  {
    NumeralAppend(Digits(tags, outcome, count), TagDigit(outcome(count), tags), base);
  }

  /** A positive multiple of a positive number is at least that number. */
  lemma {:induction false} MultipleAtLeast(a: int, m: int)
    requires a >= 1 && m > 0
    ensures a * m >= m
    decreases a
  {
    if a > 1 {
      MultipleAtLeast(a - 1, m);
      assert a * m == (a - 1) * m + m;
    }
  }

  /** Multiplying by a non-negative factor keeps the order. */
  lemma {:induction false} MultiplyMonotone(b: int, x: int, y: int)
    requires b >= 0 && x <= y
    ensures b * x <= b * y
    decreases b
  {
    if b > 0 {
      MultiplyMonotone(b - 1, x, y);
      assert b * x == (b - 1) * x + x;
      assert b * y == (b - 1) * y + y;
    }
  }

  /** Euclidean division is determined by quotient and remainder. */
  lemma DivModUnique(n: int, m: int, q: int, r: int)
    requires m > 0 && 0 <= r < m && n == q * m + r
    ensures n / m == q && n % m == r
  {
    var q', r' := n / m, n % m;
    assert n == q' * m + r';
    if q > q' {
      MultipleAtLeast(q - q', m);
      assert false;
    } else if q < q' {
      MultipleAtLeast(q' - q, m);
      assert false;
    }
  }

  /** The integer-to-real conversion commutes with multiplication. */
  lemma {:induction false} RealOfProduct(p: int, u: nat)
    ensures (p * u) as real == p as real * u as real
    decreases u
  {
    if u > 0 {
      RealOfProduct(p, u - 1);
      assert p * u == p * (u - 1) + p;
      assert p as real * u as real == p as real * (u - 1) as real + p as real;
    }
  }

  ghost predicate DigitsBelow(ds: seq<int>, b: int)
  {
    forall k :: 0 <= k < |ds| ==> 0 <= ds[k] < b
  }

  /** Reading back the digits of a numeral gives the digits. */
  lemma {:induction false} DecodeNumeral(ds: seq<int>, b: int)
    requires b > 0 && DigitsBelow(ds, b)
    ensures Decode(Numeral(ds, b), b, |ds|) == ds
    decreases |ds|
  {
    if ds != [] {
      var n := Numeral(ds, b);
      DivModUnique(n, b, Numeral(ds[1..], b), ds[0]);
      assert DigitsBelow(ds[1..], b) by {
        forall k | 0 <= k < |ds[1..]| ensures 0 <= ds[1..][k] < b {
          assert ds[1..][k] == ds[k + 1];
        }
      }
      DecodeNumeral(ds[1..], b);
      assert Decode(n, b, |ds|) == [ds[0]] + ds[1..];
    }
  }

  /** A numeral of `k` digits below the base lies in [0, b^k). */
  lemma {:induction false} NumeralBounds(ds: seq<int>, b: int)
    requires b > 0 && DigitsBelow(ds, b)
    ensures 0 <= Numeral(ds, b) < Pow(b, |ds|)
    decreases |ds|
  {
    if ds != [] {
      assert DigitsBelow(ds[1..], b) by {
        forall k | 0 <= k < |ds[1..]| ensures 0 <= ds[1..][k] < b {
          assert ds[1..][k] == ds[k + 1];
        }
      }
      NumeralBounds(ds[1..], b);
      var rest := Numeral(ds[1..], b);
      MultiplyMonotone(b, 0, rest);
      MultiplyMonotone(b, rest, Pow(b, |ds| - 1) - 1);
      assert b * (Pow(b, |ds| - 1) - 1) == Pow(b, |ds|) - b;
    }
  }

  // ---------------------------------------------------------------- decoding

  lemma {:induction false} DigitsBelowBase(tags: seq<string>, outcome: nat -> Option<string>, count: nat, base: int)
    requires DistinctTags(tags) && base > |tags|
    ensures DigitsBelow(Digits(tags, outcome, count), base)
    decreases count
  {
    if count > 0 {
      DigitsBelowBase(tags, outcome, count - 1, base);
      DigitMeaning(outcome(count - 1), tags);
      var ds := Digits(tags, outcome, count);
      forall k | 0 <= k < count ensures 0 <= ds[k] < base {
        if k < count - 1 {
          assert ds[k] == Digits(tags, outcome, count - 1)[k];
        }
      }
    }
  }

  lemma {:induction false} DigitsAt(tags: seq<string>, outcome: nat -> Option<string>, count: nat, k: nat)
    requires k < count
    ensures Digits(tags, outcome, count)[k] == TagDigit(outcome(k), tags)
    decreases count
  {
    if k < count - 1 {
      DigitsAt(tags, outcome, count - 1, k);
    }
  }

  /**
   * With base greater than the number of (distinct) tags, base-`base` digit k
   * of the ray part is the digit of ray k: 0 for a miss or an unknown tag,
   * i + 1 for tags[i].
   */
  lemma DecodeRays(tags: seq<string>, base: int, count: nat, outcome: nat -> Option<string>)
    requires DistinctTags(tags) && base > |tags|
    ensures 0 <= RaySum(tags, base, count, outcome) < Pow(base, count)
    ensures forall k :: 0 <= k < count ==>
              Decode(RaySum(tags, base, count, outcome), base, count)[k] == TagDigit(outcome(k), tags)
  {
    var ds := Digits(tags, outcome, count);
    DigitsBelowBase(tags, outcome, count, base);
    DecodeNumeral(ds, base);
    NumeralBounds(ds, base);
    forall k | 0 <= k < count ensures ds[k] == TagDigit(outcome(k), tags) {
      DigitsAt(tags, outcome, count, k);
    }
  }

  /** Two ray readings with the same ray part agree ray by ray, up to treating unknown tags as misses. */
  lemma RaySumDeterminesReadings(tags: seq<string>, base: int, count: nat, o1: nat -> Option<string>, o2: nat -> Option<string>)
    requires DistinctTags(tags) && base > |tags|
    requires RaySum(tags, base, count, o1) == RaySum(tags, base, count, o2)
    ensures forall k :: 0 <= k < count ==> TagDigit(o1(k), tags) == TagDigit(o2(k), tags)
    ensures forall k :: 0 <= k < count && o1(k).Some? && o1(k).value in tags ==> o2(k) == o1(k)
  {
    DecodeRays(tags, base, count, o1);
    DecodeRays(tags, base, count, o2);
    forall k | 0 <= k < count && o1(k).Some? && o1(k).value in tags ensures o2(k) == o1(k) {
      var i :| 0 <= i < |tags| && tags[i] == o1(k).value;
      DigitMeaning(o1(k), tags);
      DigitMeaning(o2(k), tags);
    }
  }

  // ---------------------------------------------------------------- quirks

  /**
   * With the source's base rayPoss = 0, only ray 0 is visible in the state;
   * the nectar term survives only when raySize is 0 (Mathf.Pow(0, 0) is 1).
   */
  lemma ZeroBaseSeesOnlyFirstRay(tags: seq<string>, raySize: nat, outcome: nat -> Option<string>, nectarObtained: real)
    ensures Encode(tags, 0, raySize, outcome, nectarObtained)
            == TagDigit(outcome(0), tags) + (if raySize == 0 then Trunc(nectarObtained) else 0)
  {
    var ds := Digits(tags, outcome, RayCount(raySize));
    DigitsAt(tags, outcome, RayCount(raySize), 0);
    assert Numeral(ds, 0) == ds[0];
    if raySize > 0 {
      assert Pow(0, raySize) == 0;
    }
  }

  /** So, with base 0, a reading that differs only beyond ray 0 encodes to the same state. */
  lemma ZeroBaseCollides(tags: seq<string>, raySize: nat, o1: nat -> Option<string>, o2: nat -> Option<string>, nectarObtained: real)
    requires raySize > 0 && o1(0) == o2(0)
    ensures Encode(tags, 0, raySize, o1, nectarObtained) == Encode(tags, 0, raySize, o2, nectarObtained)
  {
    ZeroBaseSeesOnlyFirstRay(tags, raySize, o1, nectarObtained);
    ZeroBaseSeesOnlyFirstRay(tags, raySize, o2, nectarObtained);
  }

  /**
   * For an even raySize of at least 4 the last ray has index raySize, the
   * weight the nectar term also uses: a hit on tags[0] there with no nectar
   * encodes like no hit there with one unit of nectar.
   */
  lemma EvenRaySizeOverlapsNectar(tags: seq<string>, base: int, raySize: nat, o1: nat -> Option<string>, o2: nat -> Option<string>)
    requires DistinctTags(tags) && |tags| > 0
    requires raySize >= 4 && raySize % 2 == 0
    requires forall k :: 0 <= k < raySize ==> o1(k) == o2(k)
    requires o1(raySize) == Some(tags[0]) && o2(raySize) == None
    ensures Encode(tags, base, raySize, o1, 0.0) == Encode(tags, base, raySize, o2, 1.0)
  {
    assert RayCount(raySize) == raySize + 1;
    RaySumStep(tags, base, raySize, o1);
    RaySumStep(tags, base, raySize, o2);
    DistinctTagWeight(tags, 0);
    assert Digits(tags, o1, raySize) == Digits(tags, o2, raySize) by {
      SameDigits(tags, o1, o2, raySize);
    }
  }

  lemma {:induction false} SameDigits(tags: seq<string>, o1: nat -> Option<string>, o2: nat -> Option<string>, count: nat)
    requires forall k :: 0 <= k < count ==> o1(k) == o2(k)
    ensures Digits(tags, o1, count) == Digits(tags, o2, count)
    decreases count
  {
    if count > 0 {
      SameDigits(tags, o1, o2, count - 1);
    }
  }

  /**
   * Nectar comes in fractions (0.01 per contact), and a fractional nectar term
   * falls among the ray digits: with base 3 and raySize 5, half a unit of
   * nectar and no hits give the same state, 121, as five hits on tags[0] and
   * no nectar.
   */
  lemma FractionalNectarCollides(tags: seq<string>, none: nat -> Option<string>, all: nat -> Option<string>)
    requires DistinctTags(tags) && |tags| == 1
    requires forall k :: none(k) == None
    requires forall k :: all(k) == Some(tags[0])
    ensures Encode(tags, 3, 5, none, 0.5) == 121
    ensures Encode(tags, 3, 5, all, 0.0) == 121
  {
    assert tags == [tags[0]] && tags[..0] == [];
    assert MatchWeight(tags[0], tags) == 1;
    FirstThreeRays(tags, 3, none);
    RayPairStep(tags, 3, 3, none);
    FirstThreeRays(tags, 3, all);
    RayPairStep(tags, 3, 3, all);
    assert Pow(3, 5) == 243;
    assert Trunc(243.0 * 0.5) == 121;
  }

  /**
   * For an odd raySize of at least 3 every ray index is below raySize, so a
   * whole number of nectar units sits above the ray digits and both decode.
   */
  lemma OddRaySizeSeparatesWholeNectar(tags: seq<string>, base: int, raySize: nat, outcome: nat -> Option<string>, units: nat)
    requires DistinctTags(tags) && base > |tags|
    requires raySize >= 3 && raySize % 2 == 1
    ensures var state := Encode(tags, base, raySize, outcome, units as real);
            && state / Pow(base, raySize) == units
            && state % Pow(base, raySize) == RaySum(tags, base, raySize, outcome)
  {
    assert RayCount(raySize) == raySize;
    DecodeRays(tags, base, raySize, outcome);
    var p := Pow(base, raySize);
    var rays := RaySum(tags, base, raySize, outcome);
    RealOfProduct(p, units);
    MultiplyMonotone(units, 0, p);
    var nectarTerm := Trunc(p as real * units as real);
    assert nectarTerm == p * units;
    assert Encode(tags, base, raySize, outcome, units as real) == rays + nectarTerm;
    DivModUnique(rays + p * units, p, units, rays);
  }
}
