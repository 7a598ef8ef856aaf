/**
 * `debounce(func, wait)`: a wrapper whose calls postpone `func` until `wait`
 * ms have passed without a further call. Time is a logical clock in ms; the
 * host's timer queue is part of the state, so firing a timer is an explicit
 * step.
 */
module Debounce {
  import opened Wrappers

  /** What the wrapper is waiting to do: nothing, or run `func` with `args` once `deadline` is reached. */
  datatype Pending<A> = Idle | Armed(deadline: int, args: A)

  /** A call at `now`: the pending run, if any, is cancelled and a new one is armed `wait` ms later. */
  function CallStep<A>(now: int, wait: nat, args: A): Pending<A>
  {
    Armed(now + wait, args)
  }

  /** The clock reaches `now`: a run that is due happens, with its arguments, and the wrapper is idle again. */
  function Advance<A>(p: Pending<A>, now: int): (Pending<A>, Option<A>)
  {
    if p.Armed? && p.deadline <= now then (Idle, Some(p.args)) else (p, None)
  }

  /** A call of the wrapper, at a time, with arguments. */
  datatype Call<A> = Call(time: int, args: A)

  /**
   * The state after `calls`, made at non-decreasing times starting from `p`,
   * and the arguments of the runs that happened in between, in order.
   */
  function Run<A>(p: Pending<A>, wait: nat, calls: seq<Call<A>>): (Pending<A>, seq<A>)
  {
    if calls == [] then (p, [])
    else
      var (before, fired) := Run(p, wait, calls[..|calls| - 1]);
      var last := calls[|calls| - 1];
      var (_, now) := Advance(before, last.time);
      (CallStep(last.time, wait, last.args), fired + if now.Some? then [now.value] else [])
  }

  /** Each call comes within `wait` ms of the one before it. */
  ghost predicate Burst<A>(calls: seq<Call<A>>, wait: nat)
  {
    forall i :: 0 < i < |calls| ==> calls[i - 1].time <= calls[i].time < calls[i - 1].time + wait
  }

  /**
   * During a burst nothing runs: after it, one run is pending, with the last
   * call's arguments, `wait` ms after the last call.
   */
  lemma {:induction false} BurstArmsLast<A>(p: Pending<A>, wait: nat, calls: seq<Call<A>>)
    requires calls != [] && Burst(calls, wait)
    requires p.Armed? ==> calls[0].time < p.deadline
    ensures Run(p, wait, calls) == (Armed(calls[|calls| - 1].time + wait, calls[|calls| - 1].args), [])
  {
    if |calls| > 1 {
      var prefix := calls[..|calls| - 1];
      assert Burst(prefix, wait) by {
        forall i | 0 < i < |prefix| ensures prefix[i - 1].time <= prefix[i].time < prefix[i - 1].time + wait {
          assert prefix[i - 1] == calls[i - 1] && prefix[i] == calls[i];
        }
      }
      BurstArmsLast(p, wait, prefix);
    } else {
      assert calls[..0] == [];
      assert Run(p, wait, calls[..0]) == (p, []);
      assert Advance(p, calls[0].time).1 == None;
      assert Run(p, wait, calls).1 == [];
      assert Run(p, wait, calls).0 == CallStep(calls[0].time, wait, calls[0].args);
    }
  }

  /**
   * A burst makes `func` run exactly once, with the last call's arguments, as
   * soon as the clock reaches `wait` ms after the last call and not before.
   */
  lemma BurstRunsOnce<A>(p: Pending<A>, wait: nat, calls: seq<Call<A>>, later: int)
    requires calls != [] && Burst(calls, wait)
    requires p.Armed? ==> calls[0].time < p.deadline
    ensures var (after, fired) := Run(p, wait, calls);
            var last := calls[|calls| - 1];
            && fired == []
            && (later >= last.time + wait ==> Advance(after, later) == (Idle, Some(last.args)))
            && (later < last.time + wait ==> Advance(after, later).1 == None)
  {
    BurstArmsLast(p, wait, calls);
  }

  /** A timer the host has armed: when it is due and what it passes to `func`. */
  datatype Timer<A> = Timer(deadline: int, args: A)

  /** The closure `debounce` returns, with its captured `timeout`, over the host's timer queue. */
  class Debouncer<A> {
    const wait: nat
    /** The captured `timeout`: the handle of the last timer armed; it is not cleared when that timer fires. */
    var timeout: Option<nat>
    /** The host's armed timers, by handle. */
    var timers: map<nat, Timer<A>>
    /** The handle the host gives the next timer. */
    var nextHandle: nat

    /** The only timer that can be armed is the one `timeout` names. */
    ghost predicate Valid()
      reads this
    {
      && (forall h :: h in timers ==> timeout == Some(h))
      && (timeout.Some? ==> timeout.value < nextHandle)
    }

    /** The run the wrapper is waiting for. */
    ghost function Pending(): Pending<A>
      reads this
    {
      if timeout.Some? && timeout.value in timers
      then Armed(timers[timeout.value].deadline, timers[timeout.value].args)
      else Idle
    }

    /** At most one timer is ever armed. */
    lemma AtMostOneTimer()
      requires Valid()
      ensures |timers| <= 1
      ensures |timers| == 1 <==> Pending().Armed?
    {
      assert |timers| == |timers.Keys|;
      if timeout.Some? && timeout.value in timers {
        assert timers.Keys == {timeout.value};
      } else {
        assert timers.Keys == {};
      }
    }

    /** `debounce(func, wait)`. */
    constructor(wait: nat)
      ensures this.wait == wait && Valid() && Pending() == Idle
    {
      this.wait := wait;
      timeout := None;
      timers := map[];
      nextHandle := 0;
    }

    /**
     * A call of the wrapper at `now`: `clearTimeout` on the captured handle,
     * then a new timer `wait` ms ahead.
     */
    method Call(now: int, args: A)
      requires Valid()
      modifies this
      ensures Valid() && Pending() == CallStep(now, wait, args)
      ensures timeout.Some? && timers == map[timeout.value := Timer(now + wait, args)]
      ensures forall h :: h in old(timers) ==> h !in timers
    {
      if timeout.Some? {
        timers := timers - {timeout.value};
      }
      var handle := nextHandle;
      nextHandle := nextHandle + 1;
      timeout := Some(handle);
      timers := timers[handle := Timer(now + wait, args)];
    }

    /** The clock reaches `now`: the host runs the armed timer if it is due, returning what it passed to `func`. */
    method Tick(now: int) returns (fired: Option<A>)
      requires Valid()
      modifies this`timers
      ensures Valid() && (Pending(), fired) == Advance(old(Pending()), now)
    {
      fired := None;
      if timeout.Some? && timeout.value in timers && timers[timeout.value].deadline <= now {
        fired := Some(timers[timeout.value].args);
        timers := timers - {timeout.value};
      }
    }
  }
}
