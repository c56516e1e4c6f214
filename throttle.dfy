/**
 * The gate of `throttle` (script.js:684-693). The wrapper forwards a call only
 * while its captured `inThrottle` flag is unset, and then sets it; the timer
 * that clears the flag `limit` milliseconds later is an explicit `Expire` event.
 */
module Throttle {

  /** The events a throttled wrapper sees: a call, or the expiry of its timer. */
  datatype GateEvent = Invoke | Expire

  class Gate {
    /** The captured `inThrottle` variable (initially `undefined`, i.e. false). */
    var inThrottle: bool

    constructor ()
      ensures !inThrottle
    {
      inThrottle := false;
    }

    /** One call of the wrapper: it is forwarded iff the gate was open, and the gate is closed afterwards. */
    method Call() returns (forwarded: bool)
      modifies this
      ensures forwarded == !old(inThrottle)
      ensures inThrottle
    {
      forwarded := !inThrottle;
      if forwarded {
        inThrottle := true;
      }
    }

    /** The `setTimeout` callback: it reopens the gate. */
    method Expire()
      modifies this
      ensures !inThrottle
    {
      inThrottle := false;
    }

    /**
     * A driver with no counterpart in the script: it feeds a trace of calls and
     * timer expiries to the gate, and forwards as many calls as `Forwarded` counts.
     */
    method Run(events: seq<GateEvent>) returns (count: nat)
      modifies this
      ensures count == Forwarded(old(inThrottle), events)
      ensures inThrottle == ClosedAfter(old(inThrottle), events)
    {
      count := 0;
      var i := 0;
      while i < |events|
        invariant 0 <= i <= |events|
        invariant count + Forwarded(inThrottle, events[i..]) == Forwarded(old(inThrottle), events)
        invariant ClosedAfter(inThrottle, events[i..]) == ClosedAfter(old(inThrottle), events)
      {
        assert events[i..] == [events[i]] + events[i + 1..];
        if events[i] == Invoke {
          var f := Call();
          if f {
            count := count + 1;
          }
        } else {
          Expire();
        }
        i := i + 1;
      }
    }
  }

  /** The state of the gate after a trace of events. */
  function ClosedAfter(closed: bool, events: seq<GateEvent>): (r: bool)
    ensures events == [] ==> r == closed
    ensures events != [] ==> (r <==> events[|events| - 1] == Invoke)
    decreases events
  {
    if events == [] then closed
    else if events[0] == Invoke then ClosedAfter(true, events[1..])
    else ClosedAfter(false, events[1..])
  }

  /** The number of calls a trace forwards, starting from a gate that is `closed` or not. */
  function Forwarded(closed: bool, events: seq<GateEvent>): (r: nat)
    ensures r <= |events|
    decreases events
  {
    if events == [] then 0
    else if events[0] == Invoke then (if closed then 0 else 1) + Forwarded(true, events[1..])
    else Forwarded(false, events[1..])
  }

  /** The number of timer expiries in a trace. */
  function Expiries(events: seq<GateEvent>): nat
  {
    if events == [] then 0 else (if events[0] == Expire then 1 else 0) + Expiries(events[1..])
  }

  /** The number of calls in a trace. */
  function Invocations(events: seq<GateEvent>): nat
  {
    if events == [] then 0 else (if events[0] == Invoke then 1 else 0) + Invocations(events[1..])
  }

  /**
   * Rate bound: each forwarded call beyond the first needs a timer expiry
   * before it, so a trace forwards at most one call more than it has expiries.
   */
  lemma {:induction false} ForwardedBound(closed: bool, events: seq<GateEvent>)
    ensures Forwarded(closed, events) <= Expiries(events) + (if closed then 0 else 1)
    decreases events
  {
    if events != [] {
      if events[0] == Invoke {
        ForwardedBound(true, events[1..]);
      } else {
        ForwardedBound(false, events[1..]);
      }
    }
  }

  /** Without an expiry the gate forwards at most the first call, and only if it started open. */
  lemma {:induction false} NoExpiryForwardsAtMostOne(closed: bool, events: seq<GateEvent>)
    requires Expiries(events) == 0
    ensures Forwarded(closed, events) == (if !closed && Invocations(events) > 0 then 1 else 0)
    decreases events
  {
    if events != [] {
      assert events[0] == Invoke;
      NoExpiryForwardsAtMostOne(true, events[1..]);
    }
  }

  /** Only calls are forwarded, never more of them than the trace holds. */
  lemma {:induction false} ForwardedAtMostInvocations(closed: bool, events: seq<GateEvent>)
    ensures Forwarded(closed, events) <= Invocations(events)
    decreases events
  {
    if events != [] {
      if events[0] == Invoke {
        ForwardedAtMostInvocations(true, events[1..]);
      } else {
        ForwardedAtMostInvocations(false, events[1..]);
      }
    }
  }
}
