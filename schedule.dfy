/**
 The aligned probe scheduler (`backoffDuration`). The process sleeps until the
 returned instant; only the instant is modelled. Instants and intervals are
 integer nanoseconds, `now` counted from the Unix epoch.
 */
module Schedule {
  import opened Wrappers

  /** Go's `%` on int64: truncated division, so the remainder takes the sign of
      the dividend (Dafny's own `%` is Euclidean). */
  function GoRem(a: int, b: int): (r: int)
    requires b != 0
    ensures -Abs(b) < r < Abs(b)
    ensures a >= 0 ==> 0 <= r && r == a % Abs(b)
    ensures a < 0 ==> r <= 0 && r == -((-a) % Abs(b))
    ensures (a - r) % Abs(b) == 0
  {
    var m := Abs(b);
    var q := if a >= 0 then a / m else -((-a) / m);
    var r := if a >= 0 then a % m else -((-a) % m);
    assert a - r == q * m;
    MulMod(q, m);
    r
  }

  function Abs(x: int): (r: int)
    ensures r >= 0 && (r == x || r == -x)
  {
    if x < 0 then -x else x
  }

  /** `next = now + (d - now % d)`. A zero interval makes Go's `%` panic
      (integer divide by zero); the model returns None there. */
  function NextBoundary(now: int, d: int): (next: Option<int>)
    ensures next.None? <==> d == 0
  {
    if d == 0 then None else Some(now + (d - GoRem(now, d)))
  }

  /** Whatever the signs, a non-zero interval gives an instant that is an exact
      multiple of the interval. */
  lemma NextBoundaryAligned(now: int, d: int)
    requires d != 0
    ensures NextBoundary(now, d).Some? && NextBoundary(now, d).value % Abs(d) == 0
  {
    var m := Abs(d);
    var r := GoRem(now, d);
    var q := if now >= 0 then now / m else -((-now) / m);
    assert now - r == q * m;
    var next := NextBoundary(now, d).value;
    if d > 0 {
      assert next == (q + 1) * m;
      MulMod(q + 1, m);
    } else {
      assert next == (q - 1) * m;
      MulMod(q - 1, m);
    }
  }

  lemma MulMod(k: int, m: int)
    requires m > 0
    ensures (k * m) % m == 0
  {
    var x := k * m;
    assert x == k * m + 0;
    assert x / m == k && x % m == 0 by {
      DivModUnique(x, m, k, 0);
    }
  }

  lemma DivModUnique(x: int, m: int, q: int, r: int)
    requires m > 0 && 0 <= r < m && x == q * m + r
    ensures x / m == q && x % m == r
  {
    var q0, r0 := x / m, x % m;
    assert x == q0 * m + r0;
    assert (q - q0) * m == r0 - r;
    if q > q0 {
      MulMonotone(1, q - q0, m);
    } else if q < q0 {
      MulMonotone(1, q0 - q, m);
    }
  }

  /** The instant the scheduler wakes at lies on a boundary, is strictly later
      than `now` and at most one interval later. */
  lemma NextBoundaryBounds(now: nat, d: nat)
    requires d > 0
    ensures NextBoundary(now, d).Some?
    ensures var next := NextBoundary(now, d).value;
      next % d == 0 && now < next <= now + d
  {
    NextBoundaryAligned(now, d);
    assert 0 <= GoRem(now, d) < d;
  }

  /** When `now` is already aligned the scheduler waits a full interval, never zero. */
  lemma AlignedNowWaitsFullInterval(now: nat, d: nat)
    requires d > 0 && now % d == 0
    ensures NextBoundary(now, d) == Some(now + d)
  {
    assert GoRem(now, d) == 0;
  }

  /** The instant is the earliest boundary strictly after `now`. */
  lemma NextBoundaryIsLeast(now: nat, d: nat, b: int)
    requires d > 0
    requires now < b && b % d == 0
    ensures NextBoundary(now, d).Some? && NextBoundary(now, d).value <= b
  {
    var next := NextBoundary(now, d).value;
    var q := now / d;
    assert now == q * d + now % d;
    assert next == (q + 1) * d;
    var k := b / d;
    assert b == k * d;
    if k <= q {
      MulMonotone(k, q, d);
    }
    MulMonotone(q + 1, k, d);
  }

  lemma MulMonotone(x: int, y: int, d: nat)
    requires x <= y
    ensures x * d <= y * d
  {
    assert y * d - x * d == (y - x) * d;
  }

  /** Before the epoch Go's truncating remainder makes an unaligned `now` skip
      the nearest boundary: the result is still aligned but lies more than one
      interval ahead. */
  lemma PreEpochSkipsBoundary(now: int, d: nat)
    requires d > 0 && now < 0 && now % d != 0
    ensures NextBoundary(now, d).Some?
    ensures var next := NextBoundary(now, d).value;
      next % d == 0 && now + d < next < now + 2 * d
  {
    NextBoundaryAligned(now, d);
    var r := GoRem(now, d);
    assert -(d as int) < r < 0;
  }

  /** A negative interval (which `time.ParseDuration` accepts) gives an instant
      that is not in the future, so the sleep returns at once. */
  lemma NegativeIntervalNotInFuture(now: nat, d: int)
    requires d < 0
    ensures NextBoundary(now, d).Some? && NextBoundary(now, d).value < now
  {
    assert 0 <= GoRem(now, d) < -d;
  }
}
