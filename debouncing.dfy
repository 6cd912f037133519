/**
 * `debounce(callback, delay)` (app.js:17-23) on a discrete clock. The closure's
 * `timerId` is a single slot holding the arguments of the pending call and the
 * time its timer is due; `setTimeout`'s firing is a clock tick at or after that time.
 */
module Debouncing {
  import opened Wrappers

  datatype Pending<A> = Pending(args: A, deadline: int)

  /** The debounced function called with `args` at `now`: `clearTimeout`, then a new timer. */
  function Invoke<A>(slot: Option<Pending<A>>, delay: nat, args: A, now: int): (r: Option<Pending<A>>)
    ensures r.Some? && r.value.args == args && r.value.deadline - now == delay
  {
    Some(Pending(args, now + delay))
  }

  /** The clock reaches `now`: a due timer runs the callback with its arguments and is gone. */
  function Advance<A>(slot: Option<Pending<A>>, now: int): (r: (Option<Pending<A>>, Option<A>))
    ensures r.1.Some? <==> slot.Some? && slot.value.deadline <= now
    ensures r.1.Some? ==> r.1.value == slot.value.args && r.0.None?
    ensures r.1.None? ==> r.0 == slot
  {
    match slot
    case Some(p) => if p.deadline <= now then (None, Some(p.args)) else (slot, None)
    case None => (None, None)
  }

  datatype Event<A> = CallAt(args: A, at: int) | TickAt(at: int)

  /** Feeds events to the slot: the final slot and the arguments of every callback run, in order. */
  function Run<A>(slot: Option<Pending<A>>, delay: nat, events: seq<Event<A>>): (r: (Option<Pending<A>>, seq<A>))
    decreases |events|
  {
    if events == [] then (slot, [])
    else
      match events[0]
      case CallAt(args, at) => Run(Invoke(slot, delay, args, at), delay, events[1..])
      case TickAt(at) =>
        var (slot1, fired) := Advance(slot, at);
        var (slot2, more) := Run(slot1, delay, events[1..]);
        (slot2, (if fired.Some? then [fired.value] else []) + more)
  }

  lemma {:induction false} RunConcat<A>(slot: Option<Pending<A>>, delay: nat, xs: seq<Event<A>>, ys: seq<Event<A>>)
    ensures Run(slot, delay, xs + ys) ==
      var (mid, f1) := Run(slot, delay, xs);
      var (last, f2) := Run(mid, delay, ys);
      (last, f1 + f2)
    decreases |xs|
  {
    if xs != [] {
      assert (xs + ys)[0] == xs[0] && (xs + ys)[1..] == xs[1..] + ys;
      match xs[0]
      case CallAt(args, at) =>
        RunConcat(Invoke(slot, delay, args, at), delay, xs[1..], ys);
      case TickAt(at) =>
        var (slot1, fired) := Advance(slot, at);
        var head := if fired.Some? then [fired.value] else [];
        RunConcat(slot1, delay, xs[1..], ys);
        var (mid, f1) := Run(slot1, delay, xs[1..]);
        var (last, f2) := Run(mid, delay, ys);
        assert Run(slot, delay, xs) == (mid, head + f1);
        assert Run(slot, delay, xs + ys) == (last, head + (f1 + f2));
        assert head + (f1 + f2) == (head + f1) + f2;
    } else {
      assert xs + ys == ys;
      var (last, f2) := Run(slot, delay, ys);
      assert Run(slot, delay, xs) == (slot, []);
      assert [] + f2 == f2;
    }
  }

  function Ticks<A>(times: seq<int>): seq<Event<A>> {
    seq(|times|, i requires 0 <= i < |times| => TickAt(times[i]))
  }

  /**
   * Every event comes no earlier than the latest call, made at `last`, and before
   * that call's timer is due: calls closer together than `delay`, and clock
   * ticks that find the timer not yet due.
   */
  predicate WithinWindow<A>(events: seq<Event<A>>, delay: nat, last: int)
    decreases |events|
  {
    events == [] ||
      (last <= events[0].at < last + delay &&
       WithinWindow(events[1..], delay, if events[0].CallAt? then events[0].at else last))
  }

  /** A burst of input: a first call, then calls and ticks, each within the window of the call before it. */
  predicate Burst<A>(events: seq<Event<A>>, delay: nat) {
    events != [] && events[0].CallAt? && WithinWindow(events[1..], delay, events[0].at)
  }

  /** The arguments and time of the last call among `events`, or `prev` when there is none. */
  function LastCall<A>(events: seq<Event<A>>, prev: (A, int)): (r: (A, int))
    ensures r == prev || exists i :: 0 <= i < |events| && events[i] == CallAt(r.0, r.1)
    decreases |events|
  {
    if events == [] then prev
    else
      var next := if events[0].CallAt? then (events[0].args, events[0].at) else prev;
      var r := LastCall(events[1..], next);
      assert forall i :: 0 <= i < |events[1..]| ==> events[1..][i] == events[i + 1];
      r
  }

  /** `LastCall` is the last call: no call follows it, and it is `prev` only when there are no calls. */
  lemma {:induction false} LastCallIsLast<A>(events: seq<Event<A>>, prev: (A, int))
    ensures var r := LastCall(events, prev);
      (exists j :: 0 <= j < |events| && events[j].CallAt?) ==>
        exists i :: 0 <= i < |events| && events[i] == CallAt(r.0, r.1) && forall j :: i < j < |events| ==> !events[j].CallAt?
    ensures (forall j :: 0 <= j < |events| ==> !events[j].CallAt?) ==> LastCall(events, prev) == prev
    decreases |events|
  {
    if events != [] {
      var tail := events[1..];
      var next := if events[0].CallAt? then (events[0].args, events[0].at) else prev;
      var r := LastCall(tail, next);
      assert LastCall(events, prev) == r;
      LastCallIsLast(tail, next);
      assert forall j :: 0 < j < |events| ==> events[j] == tail[j - 1];
      if exists j :: 0 <= j < |tail| && tail[j].CallAt? {
        var i :| 0 <= i < |tail| && tail[i] == CallAt(r.0, r.1) && forall j :: i < j < |tail| ==> !tail[j].CallAt?;
        assert events[i + 1] == CallAt(r.0, r.1);
      } else if events[0].CallAt? {
        assert events[0] == CallAt(r.0, r.1);
      }
    }
  }

  /** Inside the window, calls push the pending timer back and ticks leave it alone; nothing runs. */
  lemma {:induction false} WindowKeepsPending<A>(args: A, at: int, delay: nat, events: seq<Event<A>>)
    requires WithinWindow(events, delay, at)
    ensures var last := LastCall(events, (args, at));
      Run(Some(Pending(args, at + delay)), delay, events) == (Some(Pending(last.0, last.1 + delay)), [])
    decreases |events|
  {
    if events != [] {
      match events[0]
      case CallAt(a, t) =>
        WindowKeepsPending(a, t, delay, events[1..]);
        assert LastCall(events, (args, at)) == LastCall(events[1..], (a, t));
        assert Run(Some(Pending(args, at + delay)), delay, events) == Run(Some(Pending(a, t + delay)), delay, events[1..]);
      case TickAt(t) =>
        WindowKeepsPending(args, at, delay, events[1..]);
        assert LastCall(events, (args, at)) == LastCall(events[1..], (args, at));
        var pending := Some(Pending(args, at + delay));
        assert Advance(pending, t) == (pending, None);
        var (slot2, more) := Run(pending, delay, events[1..]);
        assert Run(pending, delay, events) == (slot2, [] + more);
        var last := LastCall(events[1..], (args, at));
        assert (slot2, more) == (Some(Pending(last.0, last.1 + delay)), []);
        assert [] + more == more;
    }
  }

  /** After a burst only the last call's timer is pending, due `delay` after that call, and nothing has run. */
  lemma BurstKeepsLastCall<A>(slot: Option<Pending<A>>, delay: nat, burst: seq<Event<A>>)
    requires Burst(burst, delay)
    ensures var last := LastCall(burst[1..], (burst[0].args, burst[0].at));
      Run(slot, delay, burst) == (Some(Pending(last.0, last.1 + delay)), [])
  {
    WindowKeepsPending(burst[0].args, burst[0].at, delay, burst[1..]);
  }

  /** Ticks run the pending callback once, at the first tick at or after its deadline, and never again. */
  lemma {:induction false} TicksFireOnce<A>(slot: Option<Pending<A>>, delay: nat, times: seq<int>)
    ensures Run(slot, delay, Ticks(times)).1 ==
      if slot.Some? && exists i :: 0 <= i < |times| && slot.value.deadline <= times[i] then [slot.value.args] else []
    decreases |times|
  {
    if times != [] {
      assert Ticks<A>(times)[1..] == Ticks(times[1..]);
      var (slot1, fired) := Advance(slot, times[0]);
      TicksFireOnce(slot1, delay, times[1..]);
      if slot1 == slot && slot.Some? {
        assert (exists i :: 0 <= i < |times| && slot.value.deadline <= times[i])
           <==> (exists i :: 0 <= i < |times[1..]| && slot.value.deadline <= times[1..][i]) by {
          if exists i :: 0 <= i < |times| && slot.value.deadline <= times[i] {
            var i :| 0 <= i < |times| && slot.value.deadline <= times[i];
            assert i != 0;
            assert times[1..][i - 1] == times[i];
          }
        }
      }
    }
  }

  /**
   * Last call wins: after a burst, the callback runs exactly once, with the last
   * call's arguments, if some later tick comes `delay` after that call, and not
   * at all otherwise.
   */
  lemma BurstThenTicks<A>(slot: Option<Pending<A>>, delay: nat, burst: seq<Event<A>>, times: seq<int>)
    requires Burst(burst, delay)
    ensures var last := LastCall(burst[1..], (burst[0].args, burst[0].at));
      Run(slot, delay, burst + Ticks(times)).1 ==
        if exists i :: 0 <= i < |times| && last.1 + delay <= times[i] then [last.0] else []
  {
    RunConcat(slot, delay, burst, Ticks(times));
    BurstKeepsLastCall(slot, delay, burst);
    var last := LastCall(burst[1..], (burst[0].args, burst[0].at));
    TicksFireOnce(Some(Pending(last.0, last.1 + delay)), delay, times);
  }

  function CallCount<A>(events: seq<Event<A>>): nat {
    if events == [] then 0 else (if events[0].CallAt? then 1 else 0) + CallCount(events[1..])
  }

  /** The callback never runs more often than the debounced function was called (plus a timer already set). */
  lemma {:induction false} FiresAtMostOncePerCall<A>(slot: Option<Pending<A>>, delay: nat, events: seq<Event<A>>)
    ensures |Run(slot, delay, events).1| <= CallCount(events) + (if slot.Some? then 1 else 0)
    ensures Run(slot, delay, events).0.Some? ==> |Run(slot, delay, events).1| < CallCount(events) + (if slot.Some? then 1 else 0)
    decreases |events|
  {
    if events != [] {
      match events[0]
      case CallAt(args, at) =>
        FiresAtMostOncePerCall(Invoke(slot, delay, args, at), delay, events[1..]);
      case TickAt(at) =>
        FiresAtMostOncePerCall(Advance(slot, at).0, delay, events[1..]);
    }
  }

  /** The closure `debounce` returns: its captured `timerId`, with the timer's arguments and due time. */
  class Debouncer<A> {
    const delay: nat
    var pending: Option<Pending<A>>

    constructor (delay: nat)
      ensures this.delay == delay && pending == None
    {
      this.delay := delay;
      pending := None;
    }

    /** A call of the debounced function at time `now`: clear the pending timer, then set a new one `delay` later. */
    method Call(args: A, now: int)
      modifies this
      ensures pending == Invoke(old(pending), delay, args, now)
    {
      pending := None;
      pending := Some(Pending(args, now + delay));
    }

    /** The event loop at time `now`: returns the arguments the callback runs with, if the timer was due. */
    method Tick(now: int) returns (fired: Option<A>)
      modifies this
      ensures (pending, fired) == Advance(old(pending), now)
    {
      fired := None;
      if pending.Some? && pending.value.deadline <= now {
        fired := Some(pending.value.args);
        pending := None;
      }
    }
  }
}
