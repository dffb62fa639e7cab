/** ASSIGN_SATISFYING and ASSIGN_SATISFYING_IN_RANGE: the search for a value that
    meets a condition, outward from a given one. */
module Search {
  import opened Words
  import opened Programs

  /** DEEPFUZZY_MAX_SEARCH_ITERS, after which the test is abandoned. */
  const MAX_SEARCH_ITERS: nat := 0x1_0000_0000

  /** The farthest distance that the search still looks at. */
  const REACH: nat := MAX_SEARCH_ITERS + 1

  const LONG_LONG: nat := 0x1_0000_0000_0000_0000

  /** The assignment of any integer to a variable of the type. */
  function Wrap(ty: IntType, n: int): (x: int)
    ensures ty.Holds(x)
  {
    ty.FromUnsigned(n % ty.Modulus())
  }

  /** How far apart two values are when the type is bent to a ring. */
  function Distance(ty: IntType, x: int, y: int): (d: nat)
    ensures 2 * d <= ty.Modulus()
  {
    var up := (y - x) % ty.Modulus();
    if 2 * up <= ty.Modulus() then up else ty.Modulus() - up
  }

  lemma WrapHolds(ty: IntType, x: int)
    requires ty.Holds(x)
    ensures Wrap(ty, x) == x
  {
  }

  lemma Apart(ty: IntType, x: int, y: int)
    requires ty.Holds(x) && ty.Holds(y)
    ensures var d := Distance(ty, x, y); y == Wrap(ty, x + d) || y == Wrap(ty, x - d)
  {
    var m, d := ty.Modulus(), Distance(ty, x, y);
    var up := (y - x) % m;
    var q := (y - x) / m;
    WrapHolds(ty, y);
    if d == up {
      WrapCongruent(ty, x + d, y, -q);
    } else {
      WrapCongruent(ty, x - d, y, -q - 1);
    }
  }

  /** `k` steps lead no farther than `k`. */
  lemma StepsReach(ty: IntType, x: int, k: nat)
    ensures Distance(ty, x, Wrap(ty, x + k)) <= k && Distance(ty, x, Wrap(ty, x - k)) <= k
  {
    Offset(ty, x, k);
    Offset(ty, x, 0 - k);
    DistanceOfOffset(ty, x, Wrap(ty, x + k), k);
    DistanceOfOffset(ty, x, Wrap(ty, x - k), 0 - k);
  }

  lemma DistanceOfOffset(ty: IntType, x: int, y: int, n: int)
    requires (y - x) % ty.Modulus() == n % ty.Modulus()
    ensures Distance(ty, x, y) <= if n < 0 then -n else n
  {
    var m := ty.Modulus();
    if 0 <= n < m {
      Remainder(n, 0, n, m);
    } else if -m < n < 0 {
      Remainder(n, -1, m + n, m);
    }
  }

  lemma Offset(ty: IntType, x: int, n: int)
    ensures (Wrap(ty, x + n) - x) % ty.Modulus() == n % ty.Modulus()
  {
    var m := ty.Modulus();
    var u := (x + n) % m;
    var w := Wrap(ty, x + n);
    var q := (x + n) / m;
    if w == u {
      Congruent(w - x, n, -q, m);
    } else {
      Congruent(w - x, n, -q - 1, m);
    }
  }

  /** Two integers that differ by a multiple of the modulus are the same value. */
  lemma WrapCongruent(ty: IntType, a: int, b: int, q: int)
    requires a == b + q * ty.Modulus()
    ensures Wrap(ty, a) == Wrap(ty, b)
  {
    Congruent(a, b, q, ty.Modulus());
  }

  /** An assignment keeps the bits that the type has room for. */
  lemma WrapKeepsBits(ty: IntType, n: int)
    ensures Wrap(ty, n) % ty.Modulus() == n % ty.Modulus()
  {
    UnsignedKeepsBits(ty, n % ty.Modulus());
  }

  /** The distance is the least number of steps, up or down, from one to the other. */
  lemma DistanceIsLeast(ty: IntType, x: int, y: int, k: nat)
    requires ty.Holds(x) && ty.Holds(y)
    ensures var d := Distance(ty, x, y); y == Wrap(ty, x + d) || y == Wrap(ty, x - d)
    ensures y == Wrap(ty, x + k) || y == Wrap(ty, x - k) ==> Distance(ty, x, y) <= k
  {
    Apart(ty, x, y);
    StepsReach(ty, x, k);
  }

  /** The long long counters wrap around, and no width notices. */
  lemma CounterWraps(ty: IntType, a: int)
    ensures Wrap(ty, a % LONG_LONG) == Wrap(ty, a)
  {
    var q := a / LONG_LONG;
    assert LONG_LONG == LONG_LONG / ty.Modulus() * ty.Modulus();
    var c := LONG_LONG / ty.Modulus();
    assert a % LONG_LONG == a + (-q * c) * ty.Modulus() by {
      assert a == q * LONG_LONG + a % LONG_LONG;
      assert q * LONG_LONG == q * (c * ty.Modulus()) == (q * c) * ty.Modulus();
      assert (-q * c) * ty.Modulus() == -(q * c * ty.Modulus());
    }
    WrapCongruent(ty, a % LONG_LONG, a, -q * c);
  }

  lemma OneMore(a: int, d: int)
    ensures (a % LONG_LONG + d) % LONG_LONG == (a + d) % LONG_LONG
  {
    Congruent(a % LONG_LONG + d, a + d, -(a / LONG_LONG), LONG_LONG);
  }

  lemma CounterSteps(ty: IntType, x: int, n: nat, up: int, down: int)
    requires up == (x + n) % LONG_LONG && down == (x - n) % LONG_LONG
    ensures (up + 1) % LONG_LONG == (x + (n + 1)) % LONG_LONG && (down - 1) % LONG_LONG == (x - (n + 1)) % LONG_LONG
    ensures Wrap(ty, (up + 1) % LONG_LONG) == Wrap(ty, x + (n + 1))
    ensures Wrap(ty, (down - 1) % LONG_LONG) == Wrap(ty, x - (n + 1))
  {
    OneMore(x + n, 1);
    OneMore(x - n, -1);
    CounterWraps(ty, x + (n + 1));
    CounterWraps(ty, x - (n + 1));
  }

  /** Whatever meets the condition is farther than `k` from `x`. */
  ghost predicate Missed(ty: IntType, p: int -> bool, x: int, k: int) {
    forall y :: ty.Holds(y) && p(y) ==> Distance(ty, x, y) > k
  }

  lemma MissedOneMore(ty: IntType, p: int -> bool, x: int, k: nat)
    requires ty.Holds(x) && Missed(ty, p, x, k - 1) && !p(Wrap(ty, x + k)) && !p(Wrap(ty, x - k))
    ensures Missed(ty, p, x, k)
  {
    forall y | ty.Holds(y) && p(y)
      ensures Distance(ty, x, y) > k
    {
      Apart(ty, x, y);
    }
  }

  /** No value of the type is nearer on the ring; of two equally near ones, the one
      above is taken. */
  ghost predicate IsNearest(ty: IntType, p: int -> bool, x: int, v: int) {
    && ty.Holds(v) && p(v)
    && forall y :: ty.Holds(y) && p(y) ==>
        Distance(ty, x, v) <= Distance(ty, x, y) &&
        (Distance(ty, x, v) == Distance(ty, x, y) && y != v ==> v == Wrap(ty, x + Distance(ty, x, v)))
  }

  lemma FoundUp(ty: IntType, p: int -> bool, x: int, k: nat)
    requires ty.Holds(x) && Missed(ty, p, x, k - 1) && p(Wrap(ty, x + k))
    ensures IsNearest(ty, p, x, Wrap(ty, x + k)) && Distance(ty, x, Wrap(ty, x + k)) == k
  {
    StepsReach(ty, x, k);
  }

  lemma FoundDown(ty: IntType, p: int -> bool, x: int, k: nat)
    requires ty.Holds(x) && Missed(ty, p, x, k - 1) && !p(Wrap(ty, x + k)) && p(Wrap(ty, x - k))
    ensures IsNearest(ty, p, x, Wrap(ty, x - k)) && Distance(ty, x, Wrap(ty, x - k)) == k
  {
    StepsReach(ty, x, k);
    forall y | ty.Holds(y) && p(y) && Distance(ty, x, y) == k
      ensures y == Wrap(ty, x - k)
    {
      Apart(ty, x, y);
    }
  }

  lemma ReachCovers(ty: IntType, p: int -> bool, x: int)
    requires Missed(ty, p, x, REACH)
    ensures ty.Bytes() <= 4 ==> forall y :: ty.Holds(y) ==> !p(y)
  {
  }

  /** After `n` turns, where the counters stand and which value was looked at last. */
  ghost predicate Turned(ty: IntType, p: int -> bool, x: int, n: nat, incr: int, decr: int, value: int) {
    && incr == (x + n) % LONG_LONG && (!p(value) ==> decr == (x - n) % LONG_LONG)
    && (value == Wrap(ty, x + n) || (value == Wrap(ty, x - n) && !p(Wrap(ty, x + n))))
    && (!p(value) ==> value == Wrap(ty, x - n) && !p(Wrap(ty, x + n)))
  }

  /** One turn of the loop: up, and then down. */
  method Turn(ty: IntType, x: int, p: int -> bool, ghost n: nat, up: int, down: int, last: int)
    returns (incr: int, decr: int, value: int)
    requires ty.Holds(x) && Turned(ty, p, x, n, up, down, last) && !p(last)
    ensures Turned(ty, p, x, n + 1, incr, decr, value)
  {
    CounterSteps(ty, x, n, up, down);
    incr, decr := (up + 1) % LONG_LONG, down;
    value := Wrap(ty, incr);
    if !p(value) {
      decr := (decr - 1) % LONG_LONG;
      value := Wrap(ty, decr);
    }
  }

  /** ASSIGN_SATISFYING.  The search ends on a nearest value within reach, or the
      test is abandoned because there is none. */
  method AssignSatisfying(ty: IntType, x: int, p: int -> bool) returns (v: Option<int>)
    requires ty.Holds(x)
    ensures v.Some? ==> IsNearest(ty, p, x, v.value) && Distance(ty, x, v.value) <= REACH
    ensures v.None? ==> Missed(ty, p, x, REACH)
    ensures ty.Bytes() <= 4 ==> (v.None? <==> forall y :: ty.Holds(y) ==> !p(y))
  {
    var value := x;
    var iters := 0;
    var incr, decr := x % LONG_LONG, x % LONG_LONG;
    WrapHolds(ty, x);
    while !p(value)
      invariant iters <= REACH && Missed(ty, p, x, iters - 1) && Turned(ty, p, x, iters, incr, decr, value)
      decreases REACH - iters
    {
      MissedOneMore(ty, p, x, iters);
      if iters > MAX_SEARCH_ITERS {
        ReachCovers(ty, p, x);
        return None;
      }
      incr, decr, value := Turn(ty, x, p, iters, incr, decr, value);
      iters := iters + 1;
    }
    if p(Wrap(ty, x + iters)) {
      FoundUp(ty, p, x, iters);
    } else {
      FoundDown(ty, p, x, iters);
    }
    v := Some(value);
  }

  // ----- in a range

  /** In the range, meeting the condition, and nearest to `x`; of two equally near
      values, the upper one. */
  ghost predicate IsNearestIn(p: int -> bool, low: int, high: int, x: int, v: int) {
    && low <= v <= high && p(v)
    && forall y :: low <= y <= high && p(y) ==>
        Gap(x, v) <= Gap(x, y) && (Gap(x, v) == Gap(x, y) && y != v ==> x < v)
  }

  function Gap(x: int, y: int): nat {
    if x <= y then y - x else x - y
  }

  /** The values of the range up to `up` above and `down` below do not meet the
      condition. */
  ghost predicate NoneFrom(p: int -> bool, down: int, up: int) {
    forall y :: down <= y <= up ==> !p(y)
  }

  /** ASSIGN_SATISFYING_IN_RANGE.  The counters are long long, and one would overflow
      on a range with 2^63 inside.  Without a value the test is abandoned: the given
      one was out of range, or nothing within reach meets the condition. */
  method AssignSatisfyingInRange(ty: IntType, x: int, low: int, high: int, p: int -> bool) returns (v: Option<int>)
    requires ty.Holds(x) && ty.Holds(low) && ty.Holds(high)
    requires 2 * high < LONG_LONG || 2 * low >= LONG_LONG
    ensures v.Some? ==> low <= x <= high && IsNearestIn(p, low, high, x, v.value)
    ensures v.None? && low <= x <= high ==>
      forall y :: low <= y <= high && p(y) ==> Gap(x, y) > REACH
    ensures ty.Bytes() <= 4 ==> (v.None? <==> !(low <= x <= high) || NoneFrom(p, low, high))
  {
    var value := x;
    if !(low <= value <= high) {
      return None;
    }
    var iters := 0;
    var incr, decr := x, x;
    while !p(value)
      invariant low <= decr <= x <= incr <= high && low <= value <= high && 0 <= iters <= REACH
      invariant incr == Smaller(high, x + iters)
      invariant !p(value) ==> decr == Larger(low, x - iters) && NoneFrom(p, decr, incr)
      invariant p(value) ==> IsNearestIn(p, low, high, x, value)
      decreases REACH - iters
    {
      if iters > MAX_SEARCH_ITERS {
        return None;
      }
      iters := iters + 1;
      ghost var before := incr;
      if incr < high {
        incr := incr + 1;
        value := incr;
      } else if decr == low {
        return None;
      }
      if !p(value) && decr > low {
        decr := decr - 1;
        value := decr;
      }
    }
    v := Some(value);
  }

  function Smaller(a: int, b: int): int {
    if a <= b then a else b
  }

  function Larger(a: int, b: int): int {
    if a >= b then a else b
  }
}
