/** The snapshot schedule shared by every solver loop: at the top of each
    iteration, when the simulated time `t` has reached the next requested
    time, the current grid is captured and the request is consumed; the loop
    stops right after the last capture. Time is a step count `n`, and `t` is
    dt added n times over the reals, which is n * dt; rounding of the float
    accumulation `t += dt` is not modelled. */
module Schedule {

  /** The simulated time after n steps: `t += dt`, n times from 0. */
  function TimeAt(n: nat, dt: real): real {
    if n == 0 then 0.0 else TimeAt(n - 1, dt) + dt
  }

  /** The accumulated time after n steps is n * dt. */
  lemma {:induction false} TimeAtIsProduct(n: nat, dt: real)
    ensures TimeAt(n, dt) == n as real * dt
  {
    if n > 0 {
      TimeAtIsProduct(n - 1, dt);
      assert n as real * dt == (n - 1) as real * dt + dt;
    }
  }

  /** Step n satisfies `t >= time`. */
  predicate Due(n: nat, dt: real, time: real) {
    TimeAt(n, dt) >= time
  }

  /** Later steps are due whenever an earlier one is. */
  lemma DueMonotone(m: nat, n: nat, dt: real, time: real)
    requires dt > 0.0 && m <= n && Due(m, dt, time)
    ensures Due(n, dt, time)
  {
    TimeAtIsProduct(m, dt);
    TimeAtIsProduct(n, dt);
    assert (n as real - m as real) * dt >= 0.0;
  }

  /** Steps before the floor of `time / dt` are not due, and one step past
      the floor is. */
  lemma FloorSteps(dt: real, time: real, q: int)
    requires dt > 0.0 && q == (time / dt).Floor
    ensures (q + 1) as real * dt > time
    ensures forall m: nat :: m < q ==> !Due(m, dt, time)
  {
    var x := time / dt;
    assert x * dt == time;
    assert q as real <= x < q as real + 1.0;
    var y := q as real + 1.0;
    assert (y - x) * dt > 0.0;
    assert y * dt - x * dt > 0.0;
    assert (q + 1) as real == y;
    forall m: nat | m < q
      ensures !Due(m, dt, time)
    {
      TimeAtIsProduct(m, dt);
      assert (x - m as real) * dt > 0.0;
      assert x * dt - m as real * dt > 0.0;
    }
  }

  /** The first step at or after `from` at which `time` is due. */
  function FirstDue(from: nat, dt: real, time: real): (n: nat)
    requires dt > 0.0
    ensures from <= n && Due(n, dt, time)
    ensures forall m :: from <= m < n ==> !Due(m, dt, time)
  {
    if Due(from, dt, time) then from
    else
      var q := (time / dt).Floor;
      FloorSteps(dt, time, q);
      TimeAtIsProduct(from, dt);
      assert q >= 0 by {
        assert (q + 1) as real * dt > 0.0;
      }
      TimeAtIsProduct(q + 1, dt);
      assert from <= q by {
        if from > q {
          DueMonotone(q + 1, from, dt, time);
        }
      }
      if Due(q, dt, time) then q else q + 1
  }

  /** The step at which each request is captured, consuming the requests in
      list order from step `from` on, at most one per step. */
  function Captures(times: seq<real>, dt: real, from: nat): (caps: seq<nat>)
    requires dt > 0.0
    ensures |caps| == |times|
    decreases |times|
  {
    if times == [] then []
    else
      var c := FirstDue(from, dt, times[0]);
      [c] + Captures(times[1..], dt, c + 1)
  }

  /** Where the search for request k starts: `from` for the first request,
      one step after the previous capture for the others. */
  function SearchStart(caps: seq<nat>, from: nat, k: nat): nat
    requires k <= |caps|
  {
    if k == 0 then from else caps[k - 1] + 1
  }

  /** Request k is captured at the first due step after the previous capture. */
  lemma {:induction false} CapturesAt(times: seq<real>, dt: real, from: nat, k: nat)
    requires dt > 0.0 && k < |times|
    ensures Captures(times, dt, from)[k]
         == FirstDue(SearchStart(Captures(times, dt, from), from, k), dt, times[k])
  {
    if k > 0 {
      var c := FirstDue(from, dt, times[0]);
      var rest := Captures(times[1..], dt, c + 1);
      assert Captures(times, dt, from) == [c] + rest;
      CapturesAt(times[1..], dt, c + 1, k - 1);
    }
  }

  /** Captures happen at strictly increasing steps, never before `from`, and
      each at a step where its request is due and no earlier step after the
      previous capture was. */
  lemma {:induction false} CapturesOrdered(times: seq<real>, dt: real, from: nat, k: nat)
    requires dt > 0.0 && k < |times|
    ensures var caps := Captures(times, dt, from);
      && from <= caps[0]
      && Due(caps[k], dt, times[k])
      && (forall m :: SearchStart(caps, from, k) <= m < caps[k] ==> !Due(m, dt, times[k]))
      && (forall i :: 0 <= i < k ==> caps[i] < caps[k])
  {
    var caps := Captures(times, dt, from);
    CapturesAt(times, dt, from, 0);
    CapturesAt(times, dt, from, k);
    if k > 0 {
      CapturesOrdered(times, dt, from, k - 1);
    }
  }

  /** A first request at or before time 0 is captured before any step. */
  lemma FirstCaptureAtStart(times: seq<real>, dt: real)
    requires dt > 0.0 && |times| > 0 && times[0] <= 0.0
    ensures Captures(times, dt, 0)[0] == 0
  {
    CapturesAt(times, dt, 0, 0);
  }

  /** The number of steps the loop performs: it stops at the last capture. */
  function LastCapture(times: seq<real>, dt: real): nat
    requires dt > 0.0 && |times| > 0
  {
    Captures(times, dt, 0)[|times| - 1]
  }

  /** Every capture happens no later than the last one. */
  lemma CapturesBoundedByLast(times: seq<real>, dt: real, k: nat)
    requires dt > 0.0 && k < |times|
    ensures Captures(times, dt, 0)[k] <= LastCapture(times, dt)
  {
    if k < |times| - 1 {
      CapturesOrdered(times, dt, 0, |times| - 1);
    }
  }

  /** Loop bookkeeping shared by the solver loops: at the head of an iteration
      waiting for request `idx`, the step count lies between the search start
      and the capture step. If the request is due now, this is the capture step. */
  lemma DueNowIsCapture(times: seq<real>, dt: real, idx: nat, n: nat)
    requires dt > 0.0 && idx < |times|
    requires SearchStart(Captures(times, dt, 0), 0, idx) <= n <= Captures(times, dt, 0)[idx]
    ensures Due(n, dt, times[idx]) <==> n == Captures(times, dt, 0)[idx]
  {
    CapturesOrdered(times, dt, 0, idx);
  }

  /** `std::sort` on the requested times: ascending order. */
  predicate Ascending(s: seq<real>) {
    forall i, j :: 0 <= i < j < |s| ==> s[i] <= s[j]
  }

  /** Inserts x into an ascending sequence. */
  function Insert(x: real, s: seq<real>): (r: seq<real>)
    requires Ascending(s)
    ensures Ascending(r) && multiset(r) == multiset(s) + multiset{x}
    ensures forall y :: y in r ==> y == x || y in s
  {
    if s == [] || x <= s[0] then [x] + s
    else
      assert s == [s[0]] + s[1..];
      var rest := Insert(x, s[1..]);
      assert forall i :: 0 <= i < |rest| ==> s[0] <= rest[i] by {
        forall i | 0 <= i < |rest|
          ensures s[0] <= rest[i]
        {
          assert rest[i] in rest;
        }
      }
      ConsAscending(s[0], rest);
      [s[0]] + rest
  }

  /** A head no greater than any element of an ascending tail keeps the
      sequence ascending. */
  lemma ConsAscending(a: real, rest: seq<real>)
    requires Ascending(rest) && forall i :: 0 <= i < |rest| ==> a <= rest[i]
    ensures Ascending([a] + rest)
  {
    forall i, j | 0 <= i < j < |rest| + 1
      ensures ([a] + rest)[i] <= ([a] + rest)[j]
    {
      if i > 0 {
        assert ([a] + rest)[i] == rest[i - 1];
      }
    }
  }

  /** The requested times sorted ascending, as `std::sort` leaves the local copy. */
  function Sorted(s: seq<real>): (r: seq<real>)
    ensures Ascending(r) && multiset(r) == multiset(s) && |r| == |s|
  {
    if s == [] then []
    else
      assert s == [s[0]] + s[1..];
      Insert(s[0], Sorted(s[1..]))
  }
}
