/** A counted retry loop. The trace says what each tick brings: the condition's answer, or a cancelled context. */
module Retry {
  import opened Wrappers

  datatype Tick<E> = Called(ok: bool, err: Option<E>) | Cancelled

  datatype Ending<E> =
    | Done
    | Aborted(err: E)
    | Exhausted(retries: int, last: Option<E>)
    | ContextDone
    | BadRetries

  /** The last error among the first `n` calls. */
  function LastErr<E>(trace: nat -> Tick<E>, n: nat): Option<E> {
    if n == 0 then None
    else if trace(n - 1).Called? && trace(n - 1).err.Some? then trace(n - 1).err
    else LastErr(trace, n - 1)
  }

  lemma {:induction false} LastErrIff<E>(trace: nat -> Tick<E>, n: nat, e: E)
    ensures LastErr(trace, n) == Some(e) <==>
            exists i: nat :: i < n && trace(i).Called? && trace(i).err == Some(e)
                        && forall j: nat :: i < j < n ==> trace(j).Cancelled? || trace(j).err.None?
  {
    if n > 0 && (trace(n - 1).Cancelled? || trace(n - 1).err.None?) {
      LastErrIff(trace, n - 1, e);
    }
  }

  /** No tick before the `n`-th ends the loop. */
  predicate Undecided<E>(trace: nat -> Tick<E>, n: nat) {
    forall i: nat :: i < n ==> trace(i).Called? && !trace(i).ok
  }

  method RetryFunc<E>(maxRetries: int, trace: nat -> Tick<E>) returns (r: Ending<E>, calls: nat)
    ensures r == BadRetries <==> maxRetries <= 0
    ensures maxRetries <= 0 ==> calls == 0
    ensures maxRetries > 0 ==> calls <= maxRetries + 1
    ensures maxRetries > 0 && !r.ContextDone? ==> calls > 0
    ensures r == Done <==>
            maxRetries > 0 && exists n: nat :: n <= maxRetries && trace(n) == Called(true, None)
                                && forall i: nat :: i < n ==> trace(i).Called? && !trace(i).ok
    // The first tick that ends the loop says how.
    ensures maxRetries > 0 ==> forall n: nat :: n <= maxRetries && Undecided(trace, n) && trace(n).Called? && trace(n).ok ==>
              calls == n + 1 && r == if trace(n).err.None? then Done else Aborted(trace(n).err.value)
    ensures maxRetries > 0 ==> forall n: nat :: n <= maxRetries && Undecided(trace, n) && trace(n).Cancelled? ==>
              calls == n && r == ContextDone
    ensures maxRetries > 0 && Undecided(trace, maxRetries + 1) ==>
              calls == maxRetries + 1 && r == Exhausted(maxRetries, LastErr(trace, maxRetries + 1))
  {
    calls := 0;
    if maxRetries <= 0 {
      return BadRetries, 0;
    }
    var lastErr: Option<E> := None;
    var i := 0;
    while true
      invariant 0 <= i == calls <= maxRetries
      invariant Undecided(trace, i)
      invariant lastErr == LastErr(trace, i)
      decreases maxRetries - i
    {
      match trace(i)
      case Cancelled =>
        return ContextDone, calls;
      case Called(ok, err) =>
        calls := calls + 1;
        if err.None? && ok {
          assert trace(i) == Called(true, None);
          return Done, calls;
        }
        if err.Some? {
          lastErr := err;
          if ok {
            return Aborted(err.value), calls;
          }
        }
        if i == maxRetries {
          return Exhausted(maxRetries, lastErr), calls;
        }
        i := i + 1;
    }
  }
}
