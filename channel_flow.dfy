/**
 * The step animation of `ChannelFlowManager` (script.js:588-623). The flow
 * steps form a fixed list whose `active` classes are an array of flags; the
 * closure counter `current` of `animateFlow` is a field, and each expiry of
 * the 2000 ms timer is an explicit `Tick`.
 */
module ChannelFlow {

  /** `current = (current + 1) % n`: the counter moves to the next step and wraps after the last. */
  function Advance(current: nat, n: nat): (next: nat)
    requires current < n
    ensures next < n
    ensures next == 0 <==> current == n - 1
    ensures next != 0 ==> next == current + 1
  {
    (current + 1) % n
  }

  /** The step flags after a tick that lit the steps up to `current`. */
  function LitUpTo(n: nat, current: nat): (lit: seq<bool>)
  {
    seq(n, i => i <= current)
  }

  /** The counter after `ticks` ticks of an animation that started at 0. */
  function CurrentAfter(n: nat, ticks: nat): (c: nat)
    requires n > 0
    ensures c < n
  {
    if ticks == 0 then 0 else Advance(CurrentAfter(n, ticks - 1), n)
  }

  /** Euclidean remainder is determined by any decomposition `a == q * n + r` with `0 <= r < n`. */
  lemma ModByDecomposition(a: int, q: int, r: int, n: int)
    requires n > 0 && 0 <= r < n && a == q * n + r
    ensures a % n == r
  {
    var q', r' := a / n, a % n;
    assert a == q' * n + r';
    var d := q - q';
    assert d * n == r' - r;
    if d != 0 {
      assert false;
    }
  }

  /** Adding the modulus does not change the remainder. */
  lemma ModShift(t: nat, n: nat)
    requires n > 0
    ensures (t + n) % n == t % n
  {
    var q, r := t / n, t % n;
    assert t == q * n + r;
    assert t + n == (q + 1) * n + r;
    ModByDecomposition(t + n, q + 1, r, n);
  }

  /** The counter is the number of ticks so far, modulo the number of steps. */
  lemma {:induction false} CurrentAfterIsTicksModSteps(n: nat, ticks: nat)
    requires n > 0
    ensures CurrentAfter(n, ticks) == ticks % n
  {
    if ticks > 0 {
      var t := ticks - 1;
      CurrentAfterIsTicksModSteps(n, t);
      assert t == (t / n) * n + t % n;
      if t % n == n - 1 {
        ModByDecomposition(ticks, t / n + 1, 0, n);
      } else {
        ModByDecomposition(ticks, t / n, t % n + 1, n);
      }
    }
  }

  /** After every `n` ticks the animation shows the same steps again. */
  lemma CyclePeriod(n: nat, ticks: nat)
    requires n > 0
    ensures CurrentAfter(n, ticks + n) == CurrentAfter(n, ticks)
  {
    CurrentAfterIsTicksModSteps(n, ticks + n);
    CurrentAfterIsTicksModSteps(n, ticks);
    ModShift(ticks, n);
  }

  class ChannelFlowManager {
    /** Per flow step: its class list contains `active`. */
    const steps: array<bool>
    /** The steps' parent carries `data-animated`. */
    var animated: bool
    /** This manager has called `animateFlow`, so its timer chain is running. */
    ghost var started: bool
    /** The closure counter of `animateFlow`. */
    var current: nat
    /** How many times `animate` has run (proof bookkeeping). */
    ghost var ticks: nat

    /**
     * Once started, the counter is the tick count modulo the number of steps,
     * and the steps lit are exactly those up to the previous counter value.
     */
    ghost predicate Valid()
      reads this, steps
    {
      started ==>
        && animated
        && steps.Length > 0
        && ticks > 0
        && current == CurrentAfter(steps.Length, ticks)
        && steps[..] == LitUpTo(steps.Length, CurrentAfter(steps.Length, ticks - 1))
    }

    /**
     * The flow steps with the `active` flags the markup gives them, and
     * whether their parent's markup already carries `data-animated`; the
     * animation has not started.
     */
    constructor (active0: seq<bool>, animated0: bool)
      ensures Valid() && fresh(steps) && steps[..] == active0
      ensures animated == animated0 && !started
    {
      steps := new bool[|active0|](i requires 0 <= i < |active0| => active0[i]);
      animated := animated0;
      started := false;
      current := 0;
      ticks := 0;
    }

    /**
     * The observer callback for one entry on a flow step: the first
     * intersecting entry while the parent lacks `data-animated` marks it and
     * starts the animation; every other entry does nothing.
     */
    method OnIntersect(isIntersecting: bool)
      requires Valid() && steps.Length > 0
      modifies this, steps
      ensures Valid()
      ensures animated == (old(animated) || isIntersecting)
      ensures started == (old(started) || (isIntersecting && !old(animated)))
      ensures isIntersecting && !old(animated) ==> ticks == 1 && steps[..] == LitUpTo(steps.Length, 0)
      ensures !(isIntersecting && !old(animated)) ==>
                current == old(current) && ticks == old(ticks) && steps[..] == old(steps[..])
    {
      if isIntersecting && !animated {
        animated := true;
        started := true;
        AnimateFlow();
      }
    }

    /** `animateFlow`: a fresh counter at 0 and an immediate first `animate`. */
    method AnimateFlow()
      requires steps.Length > 0
      modifies this, steps
      ensures animated == old(animated) && started == old(started)
      ensures ticks == 1 && current == Advance(0, steps.Length)
      ensures steps[..] == LitUpTo(steps.Length, 0)
      ensures started && animated ==> Valid()
    {
      current := 0;
      ticks := 0;
      Animate();
    }

    /**
     * One run of `animate`: step i is active iff i <= current, then the
     * counter advances modulo the number of steps.
     */
    method Animate()
      requires steps.Length > 0 && current < steps.Length
      modifies this, steps
      ensures animated == old(animated) && started == old(started) && ticks == old(ticks) + 1
      ensures forall i :: 0 <= i < steps.Length ==> (steps[i] <==> i <= old(current))
      ensures current == Advance(old(current), steps.Length)
      ensures old(current) == CurrentAfter(steps.Length, old(ticks)) && started && animated ==> Valid()
    {
      var i := 0;
      while i < steps.Length
        invariant 0 <= i <= steps.Length
        invariant animated == old(animated) && started == old(started)
        invariant current == old(current) && ticks == old(ticks)
        invariant forall k :: 0 <= k < i ==> (steps[k] <==> k <= current)
      {
        if i <= current {
          steps[i] := true;
        } else {
          steps[i] := false;
        }
        i := i + 1;
      }
      current := (current + 1) % steps.Length;
      ticks := ticks + 1;
      assert steps[..] == LitUpTo(steps.Length, old(current));
    }

    /** The 2000 ms timer of a started animation fires and runs `animate` again. */
    method Tick()
      requires Valid() && started
      modifies this, steps
      ensures Valid() && started
      ensures ticks == old(ticks) + 1
      ensures current == ticks % steps.Length
      ensures forall i :: 0 <= i < steps.Length ==> (steps[i] <==> i <= (ticks - 1) % steps.Length)
    {
      Animate();
      CurrentAfterIsTicksModSteps(steps.Length, ticks);
      CurrentAfterIsTicksModSteps(steps.Length, ticks - 1);
    }
  }
}
