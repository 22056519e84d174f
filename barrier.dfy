/** The reusable `Barrier`: a count of threads still to arrive and a
    generation bit. Each `Synchronize` decrements the count; the call that
    brings it to zero or below resets it and flips the bit, and every other
    caller waits until the bit differs from the value it saw on arrival. The
    mutex and condition variable are not modelled: a call returns the bit its
    caller would wait on, and `Released` says when that caller may leave. */
module Barriers {
  import opened Arith
  import opened Wrappers

  /** The counter state of a barrier. */
  datatype State = State(nThreads: int, threadsLeft: int, step: bool)

  /** One arrival: the new state, and the generation bit the caller records
      and waits on (`None` for the call that releases the others). */
  function Arrive(s: State): (r: (State, Option<bool>))
  {
    var left := s.threadsLeft - 1;
    if left > 0 then (s.(threadsLeft := left), Some(s.step))
    else (s.(threadsLeft := s.nThreads, step := !s.step), None)
  }

  /** A caller that recorded `sleepStep` may leave once the bit is `step`. */
  predicate Released(sleepStep: Option<bool>, step: bool) {
    sleepStep.None? || sleepStep.value != step
  }

  /** The state after k arrivals. */
  function ArriveN(s: State, k: nat): State {
    if k == 0 then s else Arrive(ArriveN(s, k - 1)).0
  }

  /** The bit after m flips. */
  function Flipped(b: bool, m: nat): bool {
    if m % 2 == 0 then b else !b
  }

  /** With at least one thread, `1 <= threadsLeft <= nThreads` holds between calls. */
  lemma ArriveKeepsCountInRange(s: State)
    requires 1 <= s.threadsLeft <= s.nThreads
    ensures 1 <= Arrive(s).0.threadsLeft <= Arrive(s).0.nThreads
  {
  }

  /** A barrier for one thread, or for a non-positive count, never makes its
      caller wait and comes back to its initial count. */
  lemma FewThreadsNeverWait(s: State)
    requires s.nThreads <= 1 && s.threadsLeft == s.nThreads
    ensures Arrive(s).1 == None && Arrive(s).0.threadsLeft == s.nThreads
    ensures Arrive(s).0.step == !s.step
  {
  }

  /** After k arrivals at a fresh barrier for n >= 1 threads, the bit has
      flipped k/n times and n - k%n threads are still to arrive. */
  lemma AfterCalls(n: int, b: bool, k: nat)
    requires n >= 1
    ensures ArriveN(State(n, n, b), k) == State(n, n - k % n, Flipped(b, k / n))
  {
    AfterRounds(n, b, k, k / n, k % n);
  }

  /** `AfterCalls` with k written as q rounds of n and r more arrivals. */
  lemma {:induction false} AfterRounds(n: int, b: bool, k: nat, q: nat, r: nat)
    requires n >= 1 && r < n && k == q * n + r
    ensures ArriveN(State(n, n, b), k) == State(n, n - r, Flipped(b, q))
  {
    if r > 0 {
      AfterRounds(n, b, k - 1, q, r - 1);
    } else if q > 0 {
      MulAddRight(q - 1, 1, n);
      AfterRounds(n, b, k - 1, q - 1, n - 1);
      assert Flipped(b, q) == !Flipped(b, q - 1);
    }
  }

  /** One round of n arrivals: the first n-1 callers record the current bit and
      wait, the n-th releases them, and the barrier is back at a full count
      with the bit flipped, so every caller of the round is released. */
  lemma RoundReleasesAll(n: int, b: bool, i: nat)
    requires n >= 1 && i < n
    ensures i < n - 1 ==> Arrive(ArriveN(State(n, n, b), i)).1 == Some(b)
    ensures i == n - 1 ==> Arrive(ArriveN(State(n, n, b), i)).1 == None
    ensures ArriveN(State(n, n, b), n) == State(n, n, !b)
    ensures Released(Arrive(ArriveN(State(n, n, b), i)).1, !b)
  {
    AfterCalls(n, b, i);
    DivUnique(i, n, 0, i);
    AfterCalls(n, b, n);
    DivUnique(n, n, 1, 0);
  }

  class Barrier {
    const nThreads: int
    var threadsLeft: int
    var step: bool

    /** The counter state of this barrier. */
    function Current(): State
      reads this
    {
      State(nThreads, threadsLeft, step)
    }

    /** `Barrier(nThreads)`: all threads still to arrive, bit initially true. */
    constructor (nThreads: int)
      ensures Current() == State(nThreads, nThreads, true)
    {
      this.nThreads := nThreads;
      threadsLeft := nThreads;
      step := true;
    }

    /** The earlier barrier, whose initialiser list sets the bit to false. */
    constructor StartingLow(nThreads: int)
      ensures Current() == State(nThreads, nThreads, false)
    {
      this.nThreads := nThreads;
      threadsLeft := nThreads;
      step := false;
    }

    /** One arrival, as `Arrive` describes it. */
    method Synchronize() returns (sleepStep: Option<bool>)
      modifies this
      ensures (Current(), sleepStep) == Arrive(old(Current()))
    {
      threadsLeft := threadsLeft - 1;
      if threadsLeft > 0 {
        sleepStep := Some(step);
      } else {
        threadsLeft := nThreads;
        step := !step;
        sleepStep := None;
      }
    }
  }

  /** All `callers` threads of a full barrier arrive once, in some order: the
      barrier comes back to a full count with the bit flipped, and every caller
      is released. This is the guarantee the solver threads rely on. */
  method Rendezvous(barrier: Barrier, callers: int) returns (sleepSteps: seq<Option<bool>>)
    requires callers >= 1 && barrier.Current() == State(callers, callers, barrier.step)
    modifies barrier
    ensures barrier.Current() == State(callers, callers, !old(barrier.step))
    ensures |sleepSteps| == callers
    ensures forall i :: 0 <= i < callers ==> Released(sleepSteps[i], barrier.step)
  {
    ghost var start := barrier.Current();
    sleepSteps := [];
    var i := 0;
    while i < callers
      invariant 0 <= i <= callers && |sleepSteps| == i
      invariant barrier.Current() == ArriveN(start, i)
      invariant forall k :: 0 <= k < i ==> Released(sleepSteps[k], !start.step)
    {
      RoundReleasesAll(callers, start.step, i);
      var sleepStep := barrier.Synchronize();
      sleepSteps := sleepSteps + [sleepStep];
      i := i + 1;
    }
    RoundReleasesAll(callers, start.step, 0);
  }
}
