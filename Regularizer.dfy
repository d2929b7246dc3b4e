/** The time-axis regularizer in `build_series` (`src-tauri/src/main.rs`):
    a sparse map from timestamp to power becomes a dense, zero-filled vector
    with one slot per 15 minutes, starting at the earliest timestamp, every
    value multiplied by the effective scaling factor.

    Timestamps are whole seconds since an epoch (chrono's `NaiveDateTime`
    read at second precision); power is a `real`. */
module Regularizer {
  import opened Wrappers

  /** Why `build_series` gives up: `unwrap` on the empty key set's minimum,
      or on an absent factor for a primary load. */
  datatype BuildError = EmptyMap | MissingFactor

  /** The dense series: the timestamp of slot 0 and the power of each slot. */
  datatype DenseSeries = DenseSeries(start: int, power: seq<real>)

  /** Minutes per slot. */
  const SlotMinutes: int := 15

  /** Integer division rounding toward zero, as Rust's `/` on `i64` and
      chrono's `Duration::num_minutes` do. */
  function TruncDiv(a: int, b: int): (r: int)
    requires b > 0
    ensures 0 <= a ==> 0 <= r && r * b <= a < r * b + b
    ensures a < 0 ==> r <= 0 && a <= r * b < a + b
  {
    if a >= 0 then a / b else -((-a) / b)
  }

  /** Whole minutes in a duration of `d` seconds (`Duration::num_minutes`):
      the seconds beyond the last whole minute are dropped, towards zero. */
  function NumMinutes(d: int): (r: int)
    ensures 0 <= d ==> 0 <= r && 60 * r <= d < 60 * r + 60
    ensures d < 0 ==> r <= 0 && d <= 60 * r < d + 60
  {
    TruncDiv(d, 60)
  }

  /** The slot that `build_series` writes the value at `k` into:
      `(k - start_point).num_minutes() / 15`. For a key at or after the
      start it is the number of whole 900-second steps between them. */
  function SlotOf(k: int, start: int): (r: int)
    ensures start <= k ==> 0 <= r && 900 * r <= k - start < 900 * r + 900
  {
    TruncDiv(NumMinutes(k - start), SlotMinutes)
  }

  /** The dense length for a span of `delta` seconds:
      `(time_delta.num_minutes() as usize) / 15 + 1`. For a non-negative
      span it is one more than the whole 900-second steps in it. */
  function DenseLength(delta: int): (r: int)
    ensures 0 <= delta ==> 1 <= r && 900 * (r - 1) <= delta < 900 * r
  {
    TruncDiv(NumMinutes(delta), SlotMinutes) + 1
  }

  /** The number of whole 15-minute (900-second) steps from `start` to `k`,
      rounded down: the specification's view of the slot of `k`. */
  ghost function Step(k: int, start: int): int { (k - start) / 900 }

  /** Later timestamps fall into the same or a later slot. */
  lemma StepMonotone(a: int, b: int, start: int)
    requires start <= a <= b
    ensures 0 <= Step(a, start) <= Step(b, start)
  {
  }

  /** For the non-negative durations that occur (every key is at or after
      the earliest one), the source's two truncating divisions give the
      whole number of 15-minute steps. */
  lemma SlotIsStep(k: int, start: int)
    requires start <= k
    ensures SlotOf(k, start) == Step(k, start)
    ensures DenseLength(k - start) == Step(k, start) + 1
  {
    var d := k - start;
    assert d == 60 * (d / 60) + d % 60;
    assert d / 60 == 15 * ((d / 60) / 15) + (d / 60) % 15;
    assert d == 900 * ((d / 60) / 15) + 60 * ((d / 60) % 15) + d % 60;
  }

  /** The factor applied to every value: the caller's factor for a primary
      load, exactly 1.0 otherwise; a primary load without a factor is the
      panic of `factor.unwrap()`. */
  function EffectiveFactor(isPrimaryLoad: bool, factor: Option<real>): (r: Result<real, BuildError>)
    ensures r.Failure? <==> isPrimaryLoad && factor.None?
    ensures r.Failure? ==> r.error == MissingFactor
    ensures isPrimaryLoad && factor.Some? ==> r == Success(factor.value)
    ensures !isPrimaryLoad ==> r == Success(1.0)
  {
    if isPrimaryLoad then
      match factor
      case Some(f) => Success(f)
      case None => Failure(MissingFactor)
    else
      Success(1.0)
  }

  /** A non-empty set has an element to pick. */
  lemma NonEmptyHasElement(s: set<int>)
    requires s != {}
    ensures exists x :: x in s
  {
    if forall x :: x !in s {
      assert false;
    }
  }

  /** The least element of a non-empty finite set of timestamps. */
  ghost function MinOf(s: set<int>): (r: int)
    requires s != {}
    ensures r in s && forall k :: k in s ==> r <= k
  {
    NonEmptyHasElement(s);
    var x :| x in s;
    if s == {x} then x
    else
      var m := MinOf(s - {x});
      assert forall k :: k in s ==> k == x || k in s - {x};
      if x <= m then x else m
  }

  /** The greatest element of a non-empty finite set of timestamps. */
  ghost function MaxOf(s: set<int>): (r: int)
    requires s != {}
    ensures r in s && forall k :: k in s ==> k <= r
  {
    NonEmptyHasElement(s);
    var x :| x in s;
    if s == {x} then x
    else
      var m := MaxOf(s - {x});
      assert forall k :: k in s ==> k == x || k in s - {x};
      if x >= m then x else m
  }

  /** Some key of `keys` falls into slot `i`. */
  ghost predicate Hit(keys: set<int>, start: int, i: int)
  {
    exists k :: k in keys && Step(k, start) == i
  }

  /** `v` is the scaled value of some key of `keys` that falls into slot `i`. */
  ghost predicate HeldBy(m: map<int, real>, keys: set<int>, start: int, f: real, i: int, v: real)
  {
    exists k :: k in keys && k in m && Step(k, start) == i && v == m[k] * f
  }

  /** Slot by slot, `p` holds what the keys `keys` of `m` leave behind when
      written from `start` under factor `f`: a slot that some of them fall
      into holds the scaled value of one of those keys (which one is left
      open, as the map's iteration order is), and every other slot holds
      exactly 0.0. */
  ghost predicate Filled(m: map<int, real>, keys: set<int>, start: int, f: real, p: seq<real>)
  {
    forall i :: 0 <= i < |p| ==>
      if Hit(keys, start, i) then HeldBy(m, keys, start, f, i, p[i]) else p[i] == 0.0
  }

  /** `d` is a regularization of the non-empty map `m` under factor `f`:
      it starts at the earliest key, it has one slot per 15-minute step up
      to and including the latest key's, and it is filled from all of the
      map's keys. */
  ghost predicate Regularized(m: map<int, real>, f: real, d: DenseSeries)
  {
    && m != map[]
    && d.start == MinOf(m.Keys)
    && |d.power| == Step(MaxOf(m.Keys), d.start) + 1
    && Filled(m, m.Keys, d.start, f, d.power)
  }

  /** Writing the scaled value of one more key into its slot keeps the
      vector filled from the keys written so far. */
  lemma FilledWrite(m: map<int, real>, done: set<int>, start: int, f: real, p: seq<real>, k: int)
    requires Filled(m, done, start, f, p) && k in m
    requires 0 <= Step(k, start) < |p|
    ensures Filled(m, done + {k}, start, f, p[Step(k, start) := m[k] * f])
  {
    var idx, p' := Step(k, start), p[Step(k, start) := m[k] * f];
    forall i | 0 <= i < |p'|
      ensures if Hit(done + {k}, start, i) then HeldBy(m, done + {k}, start, f, i, p'[i]) else p'[i] == 0.0
    {
      if i == idx {
        assert Hit(done + {k}, start, i);
      } else if Hit(done + {k}, start, i) {
        var k' :| k' in done + {k} && Step(k', start) == i;
        assert Hit(done, start, i);
        var k'' :| k'' in done && k'' in m && Step(k'', start) == i && p[i] == m[k''] * f;
      } else {
        assert !Hit(done, start, i);
      }
    }
  }

  /** Every key of a span `[lo, hi]` gets an index, as `build_series`
      computes it, inside the vector it allocates: no write is out of
      bounds. The earliest key gets index 0 and the latest the last index. */
  lemma SlotInRange(k: int, lo: int, hi: int)
    requires lo <= k <= hi
    ensures 0 <= SlotOf(k, lo) < DenseLength(hi - lo)
    ensures SlotOf(lo, lo) == 0
    ensures SlotOf(hi, lo) == DenseLength(hi - lo) - 1
  {
    SlotIsStep(k, lo);
    SlotIsStep(hi, lo);
    StepMonotone(k, hi, lo);
  }

  /** No two keys of `m` share a slot: the timestamps lie in distinct
      15-minute steps from `start`. */
  ghost predicate SlotInjective(m: map<int, real>, start: int)
  {
    forall k1, k2 :: k1 in m && k2 in m && Step(k1, start) == Step(k2, start) ==> k1 == k2
  }

  /** A key that no other key shares a slot with leaves exactly its own
      scaled value in that slot. */
  lemma SoleOccupant(m: map<int, real>, f: real, d: DenseSeries, k: int)
    requires Regularized(m, f, d) && k in m
    requires forall k' :: k' in m && k' != k ==> Step(k', d.start) != Step(k, d.start)
    ensures 0 <= Step(k, d.start) < |d.power|
    ensures d.power[Step(k, d.start)] == m[k] * f
  {
    var i := Step(k, d.start);
    StepMonotone(k, MaxOf(m.Keys), d.start);
    assert Hit(m.Keys, d.start, i);
    var k' :| k' in m.Keys && k' in m && Step(k', d.start) == i && d.power[i] == m[k'] * f;
  }

  /** Slot 0 holds the earliest key's scaled value and the last slot the
      latest key's, unless another key shares the slot. */
  lemma FirstAndLastSlots(m: map<int, real>, f: real, d: DenseSeries)
    requires Regularized(m, f, d)
    requires forall k :: k in m && k != d.start ==> Step(k, d.start) != 0
    requires forall k :: k in m && k != MaxOf(m.Keys) ==> Step(k, d.start) != |d.power| - 1
    ensures |d.power| > 0
    ensures d.power[0] == m[d.start] * f
    ensures d.power[|d.power| - 1] == m[MaxOf(m.Keys)] * f
  {
    var lo, hi := d.start, MaxOf(m.Keys);
    assert Step(lo, lo) == 0;
    SoleOccupant(m, f, d, lo);
    SoleOccupant(m, f, d, hi);
  }

  /** When keys occupy distinct slots the regularization is determined:
      any two results for the same map and factor are equal. */
  lemma RegularizedUnique(m: map<int, real>, f: real, d1: DenseSeries, d2: DenseSeries)
    requires Regularized(m, f, d1) && Regularized(m, f, d2)
    requires SlotInjective(m, d1.start)
    ensures d1 == d2
  {
    var start, n := d1.start, |d1.power|;
    assert start == d2.start && n == |d2.power|;
    forall i | 0 <= i < n
      ensures d1.power[i] == d2.power[i]
    {
      if Hit(m.Keys, start, i) {
        var k :| k in m.Keys && Step(k, start) == i;
        SoleOccupant(m, f, d1, k);
        SoleOccupant(m, f, d2, k);
      }
    }
    assert d1.power == d2.power;
  }

  /** Two keys in one slot: either key's value is an admissible result, so
      the model fixes no "last write wins" order. */
  lemma CollisionEitherValue()
    ensures Regularized(map[0 := 1.0, 60 := 2.0], 1.0, DenseSeries(0, [1.0]))
    ensures Regularized(map[0 := 1.0, 60 := 2.0], 1.0, DenseSeries(0, [2.0]))
  {
    var m := map[0 := 1.0, 60 := 2.0];
    var lo, hi := MinOf(m.Keys), MaxOf(m.Keys);
    assert 0 in m.Keys && 60 in m.Keys;
    assert lo <= 0 && 60 <= hi;
    assert lo == 0 && hi == 60 by {
      assert forall k :: k in m.Keys ==> k == 0 || k == 60;
    }
    assert Step(hi, lo) == 0;
    assert Hit(m.Keys, lo, 0) by { assert Step(0, lo) == 0; }
    assert HeldBy(m, m.Keys, lo, 1.0, 0, 1.0) by { assert Step(0, lo) == 0 && m[0] * 1.0 == 1.0; }
    assert HeldBy(m, m.Keys, lo, 1.0, 0, 2.0) by { assert Step(60, lo) == 0 && m[60] * 1.0 == 2.0; }
  }

  /** The general form: in a regularization, overwriting the slot of any
      key with that key's own scaled value gives a regularization again.
      So whichever of several colliding keys the map's iteration visits
      last, the result meets the specification. */
  lemma CollisionAnyKey(m: map<int, real>, f: real, d: DenseSeries, k: int)
    requires Regularized(m, f, d) && k in m
    ensures 0 <= Step(k, d.start) < |d.power|
    ensures Regularized(m, f, DenseSeries(d.start, d.power[Step(k, d.start) := m[k] * f]))
  {
    var idx := Step(k, d.start);
    StepMonotone(k, MaxOf(m.Keys), d.start);
    var p := d.power[idx := m[k] * f];
    forall j | 0 <= j < |p|
      ensures if Hit(m.Keys, d.start, j) then HeldBy(m, m.Keys, d.start, f, j, p[j]) else p[j] == 0.0
    {
      if j == idx {
        assert Hit(m.Keys, d.start, j);
      }
    }
  }

  /** Every value of `m` multiplied by `c`. */
  function ScaleMap(m: map<int, real>, c: real): (r: map<int, real>)
    ensures r.Keys == m.Keys
    ensures forall k :: k in m ==> r[k] == m[k] * c
  {
    map k | k in m :: m[k] * c
  }

  /** A primary load with factor `c` regularizes exactly as the input
      scaled by `c` does with factor 1.0. */
  lemma FactorIsPrescaling(m: map<int, real>, c: real, d: DenseSeries)
    ensures Regularized(m, c, d) <==> Regularized(ScaleMap(m, c), 1.0, d)
  {
    var sm := ScaleMap(m, c);
    forall i | 0 <= i < |d.power|
      ensures HeldBy(m, m.Keys, d.start, c, i, d.power[i]) <==>
              HeldBy(sm, sm.Keys, d.start, 1.0, i, d.power[i])
    {
      if HeldBy(m, m.Keys, d.start, c, i, d.power[i]) {
        var k :| k in m.Keys && k in m && Step(k, d.start) == i && d.power[i] == m[k] * c;
        assert sm[k] * 1.0 == m[k] * c;
      }
      if HeldBy(sm, sm.Keys, d.start, 1.0, i, d.power[i]) {
        var k :| k in sm.Keys && k in sm && Step(k, d.start) == i && d.power[i] == sm[k] * 1.0;
        assert m[k] * c == sm[k] * 1.0;
      }
    }
  }

  /** Scaling linearity: multiplying every slot of an unscaled result by `c`
      gives a result for factor `c`. */
  lemma ScalingLinearity(m: map<int, real>, c: real, d: DenseSeries)
    requires Regularized(m, 1.0, d)
    ensures Regularized(m, c, DenseSeries(d.start, seq(|d.power|, i requires 0 <= i < |d.power| => d.power[i] * c)))
  {
    var p := seq(|d.power|, i requires 0 <= i < |d.power| => d.power[i] * c);
    forall i | 0 <= i < |p|
      ensures if Hit(m.Keys, d.start, i) then HeldBy(m, m.Keys, d.start, c, i, p[i]) else p[i] == 0.0
    {
      if Hit(m.Keys, d.start, i) {
        var k :| k in m.Keys && k in m && Step(k, d.start) == i && d.power[i] == m[k] * 1.0;
        assert p[i] == m[k] * c;
      }
    }
  }

  /** The earliest and latest key of a non-empty set, by a scan over it. */
  method KeyRange(keys: set<int>) returns (lo: int, hi: int)
    requires keys != {}
    ensures lo == MinOf(keys) && hi == MaxOf(keys)
  {
    NonEmptyHasElement(keys);
    var x :| x in keys;
    lo, hi := x, x;
    var rest := keys - {x};
    while rest != {}
      invariant rest <= keys && lo in keys && hi in keys
      invariant forall k :: k in keys - rest ==> lo <= k <= hi
      decreases rest
    {
      NonEmptyHasElement(rest);
      var k :| k in rest;
      if k < lo { lo := k; }
      if k > hi { hi := k; }
      assert forall k' :: k' in keys - (rest - {k}) ==> k' == k || k' in keys - rest;
      rest := rest - {k};
    }
    assert keys - rest == keys;
  }

  /** `build_series` lines 30-42: fails on an empty map, then on a primary
      load without a factor (before anything is allocated); otherwise
      allocates a zero-filled vector of the dense length and writes every
      scaled value into its slot, visiting the keys in an unspecified order. */
  method BuildSeries(m: map<int, real>, isPrimaryLoad: bool, factor: Option<real>)
    returns (r: Result<DenseSeries, BuildError>)
    ensures m == map[] ==> r == Failure(EmptyMap)
    ensures m != map[] && isPrimaryLoad && factor.None? ==> r == Failure(MissingFactor)
    ensures m != map[] && !(isPrimaryLoad && factor.None?) ==>
              r.Success? && Regularized(m, EffectiveFactor(isPrimaryLoad, factor).value, r.value)
  {
    if m == map[] {
      return Failure(EmptyMap);
    }
    var lo, hi := KeyRange(m.Keys);
    var f: real;
    match EffectiveFactor(isPrimaryLoad, factor) {
      case Failure(e) => return Failure(e);
      case Success(v) => f := v;
    }
    var n := DenseLength(hi - lo);
    SlotIsStep(hi, lo);
    var power := new real[n](_ => 0.0);
    var rest := m.Keys;
    while rest != {}
      invariant rest <= m.Keys && power.Length == n
      invariant Filled(m, m.Keys - rest, lo, f, power[..])
      decreases rest
    {
      NonEmptyHasElement(rest);
      var k :| k in rest;
      var idx := SlotOf(k, lo);
      SlotInRange(k, lo, hi);
      SlotIsStep(k, lo);
      FilledWrite(m, m.Keys - rest, lo, f, power[..], k);
      power[idx] := m[k] * f;
      assert m.Keys - (rest - {k}) == (m.Keys - rest) + {k};
      rest := rest - {k};
    }
    return Success(DenseSeries(lo, power[..]));
  }
}
