/** The hotkey callback guards of utils/hotkey.py: `safe_call` swallows the
    exceptions of the callback, and `debounce_call` drops a trigger that comes
    less than `delay` after the last accepted one, through the module-level
    timestamp `_last_trigger`. Time is an integer number of milliseconds. */
module Hotkey {
  import opened Wrappers

  /** What running a callback does: return normally, raise an `Exception`,
      or raise a `BaseException` that is not an `Exception` (such as
      KeyboardInterrupt), which `except Exception` does not catch. */
  datatype Effect = Returned | Raised(message: string) | Aborted(message: string)

  /** The wrapper's effect and the error it reports, if any. */
  datatype Guarded = Guarded(effect: Effect, report: Option<string>)

  /** One call of safe_call(func)'s wrapper, where `inner` is what func() does. */
  function SafeCall(inner: Effect): (r: Guarded)
    ensures inner.Aborted? ==> r == Guarded(inner, None)
    ensures !inner.Aborted? ==> r.effect == Returned
    ensures r.report.Some? <==> inner.Raised?
    ensures inner.Raised? ==> r.report == Some(inner.message)
  {
    match inner
    case Raised(m) => Guarded(Returned, Some(m))
    case _ => Guarded(inner, None)
  }

  /** debounce_call's default delay, 0.3 s. */
  const DefaultDelay := 300

  /** The initial value of `_last_trigger`. */
  const InitialLast := 0

  /** A trigger at `now` goes through unless `now - last < delay`. */
  predicate Accepts(delay: int, last: int, now: int) {
    !(now - last < delay)
  }

  /** `_last_trigger` after the triggers `presses`, starting from `last`. */
  function LastAfter(delay: int, last: int, presses: seq<int>): (r: int)
    ensures r == last || r in presses
    ensures delay >= 0 ==> r >= last
  {
    if presses == [] then last
    else
      var before := LastAfter(delay, last, presses[..|presses| - 1]);
      if Accepts(delay, before, presses[|presses| - 1]) then presses[|presses| - 1] else before
  }

  /** The triggers among `presses` that invoke the callback, in order. */
  function Accepted(delay: int, last: int, presses: seq<int>): (r: seq<int>)
    ensures |r| <= |presses|
    ensures delay >= 0 ==> forall t :: t in r ==> t >= last + delay
  {
    if presses == [] then []
    else
      var before := LastAfter(delay, last, presses[..|presses| - 1]);
      var now := presses[|presses| - 1];
      Accepted(delay, last, presses[..|presses| - 1]) + if Accepts(delay, before, now) then [now] else []
  }

  /** The timestamp is the last accepted trigger, or the initial one when no
      trigger was accepted, and every accepted trigger is a press. */
  lemma {:induction false} LastIsLastAccepted(delay: int, last: int, presses: seq<int>)
    ensures var acc := Accepted(delay, last, presses);
            LastAfter(delay, last, presses) == if acc == [] then last else acc[|acc| - 1]
    ensures forall t :: t in Accepted(delay, last, presses) ==> t in presses
  {
    if presses != [] {
      var front := presses[..|presses| - 1];
      LastIsLastAccepted(delay, last, front);
      forall t | t in Accepted(delay, last, front) ensures t in presses {
        assert t in front;
      }
    }
  }

  /** Accepted triggers are at least `delay` apart, and the first is at
      least `delay` after the initial timestamp: the window is measured from
      the last accepted trigger, not from the last attempt. */
  lemma {:induction false} AcceptedAreSpaced(delay: int, last: int, presses: seq<int>)
    ensures var acc := Accepted(delay, last, presses);
            forall k :: 0 <= k < |acc| - 1 ==> acc[k + 1] - acc[k] >= delay
    ensures var acc := Accepted(delay, last, presses);
            |acc| > 0 ==> acc[0] - last >= delay
  {
    if presses != [] {
      var front := presses[..|presses| - 1];
      AcceptedAreSpaced(delay, last, front);
      LastIsLastAccepted(delay, last, front);
      var old_ := Accepted(delay, last, front);
      var acc := Accepted(delay, last, presses);
      if |acc| > |old_| {
        assert acc == old_ + [presses[|presses| - 1]];
        forall k | 0 <= k < |acc| - 1 ensures acc[k + 1] - acc[k] >= delay {
          if k < |old_| - 1 {
            assert acc[k] == old_[k] && acc[k + 1] == old_[k + 1];
          }
        }
      }
    }
  }

  /** A press within `delay` of the last timestamp invokes nothing and
      leaves the timestamp alone; any other press invokes once and moves it. */
  lemma PressStep(delay: int, last: int, presses: seq<int>, now: int)
    ensures now - LastAfter(delay, last, presses) < delay ==>
              Accepted(delay, last, presses + [now]) == Accepted(delay, last, presses)
    ensures now - LastAfter(delay, last, presses) < delay ==>
              LastAfter(delay, last, presses + [now]) == LastAfter(delay, last, presses)
    ensures now - LastAfter(delay, last, presses) >= delay ==>
              Accepted(delay, last, presses + [now]) == Accepted(delay, last, presses) + [now]
    ensures now - LastAfter(delay, last, presses) >= delay ==>
              LastAfter(delay, last, presses + [now]) == now
  {
    assert (presses + [now])[..|presses|] == presses;
  }

  /** Two presses 50 ms apart under the default delay invoke the callback
      once when the first is accepted, and never more than once. */
  lemma TwoPressesFiftyMsApart(last: int, t: int)
    ensures |Accepted(DefaultDelay, last, [t, t + 50])| <= 1
    ensures t - last >= DefaultDelay ==> Accepted(DefaultDelay, last, [t, t + 50]) == [t]
  {
    PressStep(DefaultDelay, last, [], t);
    assert [t, t + 50] == [t] + [t + 50];
    PressStep(DefaultDelay, last, [t], t + 50);
  }

  /** Presses at 0, 200 and 350 ms after an accepted one: the second is
      dropped, and the third is accepted because it is 350 ms after the last
      accepted press even though only 150 ms after the dropped one. */
  lemma WindowFromLastAccepted(last: int, t: int)
    requires t - last >= DefaultDelay
    ensures Accepted(DefaultDelay, last, [t, t + 200, t + 350]) == [t, t + 350]
  {
    PressStep(DefaultDelay, last, [], t);
    assert [t, t + 200] == [t] + [t + 200];
    PressStep(DefaultDelay, last, [t], t + 200);
    assert [t, t + 200, t + 350] == [t, t + 200] + [t + 350];
    PressStep(DefaultDelay, last, [t, t + 200], t + 350);
  }

  /** The debounce state: `_last_trigger`, and as ghost state the triggers seen so far. */
  class Debouncer {
    var last: int
    const delay: int
    ghost var presses: seq<int>

    ghost predicate Valid()
      reads this
    {
      last == LastAfter(delay, InitialLast, presses)
    }

    /** The triggers that invoked the callback so far. */
    ghost function Calls(): seq<int>
      reads this
    {
      Accepted(delay, InitialLast, presses)
    }

    constructor (delay: int)
      ensures Valid() && this.delay == delay && last == InitialLast && presses == []
    {
      this.delay := delay;
      last := InitialLast;
      presses := [];
    }

    /** debounce_call(func)'s wrapper called at `now`, where `inner` is what
        func() does: `invoked` tells whether func ran, `effect` is what the
        wrapper does. */
    method Trigger(now: int, inner: Effect) returns (invoked: bool, effect: Effect)
      requires Valid()
      modifies this
      ensures Valid()
      ensures invoked <==> Accepts(delay, old(last), now)
      ensures last == if invoked then now else old(last)
      ensures effect == if invoked then inner else Returned
      ensures presses == old(presses) + [now]
      ensures Calls() == old(Calls()) + if invoked then [now] else []
    {
      presses := presses + [now];
      assert presses[..|presses| - 1] == old(presses);
      if now - last < delay {
        return false, Returned;
      }
      last := now;
      invoked := true;
      effect := inner;
    }

    /** The hotkey callback `debounce_call(safe_call(func))`: the timestamp
        moves on an accepted trigger even when func raises, and an
        `Exception` from func never gets out. */
    method Press(now: int, inner: Effect) returns (invoked: bool, effect: Effect, report: Option<string>)
      requires Valid()
      modifies this
      ensures Valid()
      ensures invoked <==> Accepts(delay, old(last), now)
      ensures last == if invoked then now else old(last)
      ensures presses == old(presses) + [now]
      ensures Calls() == old(Calls()) + if invoked then [now] else []
      ensures !inner.Aborted? ==> effect == Returned
      ensures inner.Aborted? ==> effect == if invoked then inner else Returned
      ensures report == if invoked && inner.Raised? then Some(inner.message) else None
    {
      var guarded := SafeCall(inner);
      invoked, effect := Trigger(now, guarded.effect);
      report := if invoked then guarded.report else None;
    }
  }

  /** Two presses 50 ms apart at least 300 ms after start-up: the first runs
      the callback, the second is dropped, and a failing callback does not
      stop the guard. */
  method TwoPresses(t: int, first: Effect, second: Effect) returns (ran1: bool, ran2: bool, out1: Effect, out2: Effect)
    requires t >= DefaultDelay
    requires !first.Aborted?
    ensures ran1 && !ran2
    ensures out1 == Returned && out2 == Returned
  {
    var guard := new Debouncer(DefaultDelay);
    var r1, r2;
    ran1, out1, r1 := guard.Press(t, first);
    ran2, out2, r2 := guard.Press(t + 50, second);
  }
}
