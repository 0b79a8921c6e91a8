/**
 * The two timer utilities, `debounce` (trailing edge) and `debounceImmediate`
 * (leading edge), driven by a virtual clock instead of setTimeout: a timer is
 * the deadline it is due at, `Call(t)` is the returned function being called
 * at time t, and `Tick(t)` is the clock reaching t, which runs every timer
 * that is due by then.
 */
module Debounce {
  import opened Options

  /** Quiet period of the search debounce. */
  const SearchWait: nat := 300
  /** Quiet period of the favorite-button debounce. */
  const ToggleWait: nat := 200

  datatype Event = Call(time: int) | Tick(time: int)

  /** The timer after one event, and whether the wrapped function ran. */
  datatype Step = Step(deadline: Option<int>, fired: bool)

  // ---------------------------------------------------------------- trailing edge

  /**
   * One event of `debounce`: a call replaces any pending timer by one due a
   * wait later; a clock reading runs a due timer and clears it.
   */
  function TrailingStep(deadline: Option<int>, e: Event, wait: nat): (s: Step)
    ensures s.fired <==> e.Tick? && deadline.Some? && deadline.value <= e.time
    ensures e.Call? ==> s.deadline == Some(e.time + wait)
    ensures e.Tick? ==> s.deadline == (if s.fired then None else deadline)
  {
    match e
    case Call(t) => Step(Some(t + wait), false)
    case Tick(t) =>
      if deadline.Some? && deadline.value <= t then Step(None, true) else Step(deadline, false)
  }

  /** The timer left after a sequence of events, and the times at which the function ran. */
  datatype Trace = Trace(deadline: Option<int>, fires: seq<int>)

  function TrailingRun(deadline: Option<int>, events: seq<Event>, wait: nat): (r: Trace)
    ensures |r.fires| <= |events|
    decreases |events|
  {
    if |events| == 0 then Trace(deadline, [])
    else
      var s := TrailingStep(deadline, events[0], wait);
      var rest := TrailingRun(s.deadline, events[1..], wait);
      Trace(rest.deadline, (if s.fired then [events[0].time] else []) + rest.fires)
  }

  function Calls(ts: seq<int>): seq<Event>
  {
    seq(|ts|, i requires 0 <= i < |ts| => Call(ts[i]))
  }

  function Ticks(us: seq<int>): seq<Event>
  {
    seq(|us|, i requires 0 <= i < |us| => Tick(us[i]))
  }

  /** Position of the first clock reading at or after `d`, or `|us|` when there is none. */
  function DueIndex(us: seq<int>, d: int): (k: nat)
    ensures k <= |us| && (k < |us| ==> d <= us[k])
    ensures forall j :: 0 <= j < k ==> us[j] < d
  {
    if |us| == 0 || d <= us[0] then 0 else 1 + DueIndex(us[1..], d)
  }

  lemma {:induction false} RunAppend(deadline: Option<int>, a: seq<Event>, b: seq<Event>, wait: nat)
    ensures TrailingRun(deadline, a + b, wait) ==
            var ra := TrailingRun(deadline, a, wait);
            var rb := TrailingRun(ra.deadline, b, wait);
            Trace(rb.deadline, ra.fires + rb.fires)
    decreases |a|
  {
    if |a| == 0 {
      assert a + b == b;
    } else {
      assert (a + b)[0] == a[0] && (a + b)[1..] == a[1..] + b;
      var s := TrailingStep(deadline, a[0], wait);
      RunAppend(s.deadline, a[1..], b, wait);
    }
  }

  /** Whatever came before, a call runs nothing and leaves one timer, due a wait after it. */
  lemma RunEndsInCall(deadline: Option<int>, pre: seq<Event>, t: int, wait: nat)
    ensures TrailingRun(deadline, pre + [Call(t)], wait) == Trace(Some(t + wait), TrailingRun(deadline, pre, wait).fires)
  {
    RunAppend(deadline, pre, [Call(t)], wait);
    assert [Call(t)][1..] == [];
  }

  /** A run of calls fires nothing and leaves one timer, due a quiet period after the last call. */
  lemma {:induction false} RunCalls(deadline: Option<int>, ts: seq<int>, wait: nat)
    requires |ts| > 0
    ensures TrailingRun(deadline, Calls(ts), wait) == Trace(Some(ts[|ts| - 1] + wait), [])
    decreases |ts|
  {
    if |ts| > 1 {
      assert Calls(ts)[1..] == Calls(ts[1..]);
      RunCalls(Some(ts[0] + wait), ts[1..], wait);
    } else {
      assert Calls(ts)[1..] == [];
    }
  }

  /** Clock readings alone fire a pending timer once, at the first reading it is due by. */
  lemma {:induction false} RunTicks(deadline: Option<int>, us: seq<int>, wait: nat)
    ensures TrailingRun(deadline, Ticks(us), wait) ==
            if deadline.None? then Trace(None, [])
            else if DueIndex(us, deadline.value) < |us| then Trace(None, [us[DueIndex(us, deadline.value)]])
            else Trace(deadline, [])
    decreases |us|
  {
    if |us| > 0 {
      assert Ticks(us)[1..] == Ticks(us[1..]);
      var s := TrailingStep(deadline, Tick(us[0]), wait);
      RunTicks(s.deadline, us[1..], wait);
      if deadline.Some? && deadline.value > us[0] {
        assert DueIndex(us, deadline.value) == 1 + DueIndex(us[1..], deadline.value);
      }
    }
  }

  /**
   * A burst of calls followed by clock readings runs the function at most once:
   * at the first reading a full quiet period after the LAST call, and not at
   * all if there is none. Whatever timer was pending before the burst is gone.
   */
  lemma BurstFiresOnce(deadline: Option<int>, ts: seq<int>, us: seq<int>, wait: nat)
    requires |ts| > 0
    ensures var r := TrailingRun(deadline, Calls(ts) + Ticks(us), wait);
            var due := ts[|ts| - 1] + wait;
            && |r.fires| <= 1
            && (|r.fires| == 1 <==> exists k :: 0 <= k < |us| && due <= us[k])
            && (|r.fires| == 1 ==> due <= r.fires[0])
            && (|r.fires| == 1 ==>
                  exists k :: 0 <= k < |us| && r.fires[0] == us[k] && forall j :: 0 <= j < k ==> us[j] < due)
            && (r.deadline == None <==> |r.fires| == 1)
  {
    var due := ts[|ts| - 1] + wait;
    RunAppend(deadline, Calls(ts), Ticks(us), wait);
    RunCalls(deadline, ts, wait);
    RunTicks(Some(due), us, wait);
  }

  // ---------------------------------------------------------------- trailing edge, any trace

  /** Position of the latest call before position `j`, if there is one. */
  function LatestCallBefore(es: seq<Event>, j: nat): (k: Option<nat>)
    requires j <= |es|
    ensures k.Some? ==> k.value < j && es[k.value].Call? && forall m :: k.value < m < j ==> es[m].Tick?
    ensures k.None? ==> forall m :: 0 <= m < j ==> es[m].Tick?
  {
    if j == 0 then None else if es[j - 1].Call? then Some(j - 1) else LatestCallBefore(es, j - 1)
  }

  lemma {:induction false} LatestCallPrefix(es: seq<Event>, e: Event, j: nat)
    requires j <= |es|
    ensures LatestCallBefore(es + [e], j) == LatestCallBefore(es, j)
  {
    if j > 0 {
      assert (es + [e])[j - 1] == es[j - 1];
      LatestCallPrefix(es, e, j - 1);
    }
  }

  /** Positions of the clock readings at which the wrapped function ran. */
  function FirePositions(es: seq<Event>, wait: nat): (ps: seq<nat>)
    ensures forall f :: 0 <= f < |ps| ==> ps[f] < |es|
    decreases |es|
  {
    if |es| == 0 then []
    else
      var pre := es[..|es| - 1];
      var s := TrailingStep(TrailingRun(None, pre, wait).deadline, es[|es| - 1], wait);
      FirePositions(pre, wait) + (if s.fired then [|es| - 1] else [])
  }

  lemma RunSnoc(pre: seq<Event>, e: Event, wait: nat)
    ensures var s := TrailingStep(TrailingRun(None, pre, wait).deadline, e, wait);
            TrailingRun(None, pre + [e], wait) ==
            Trace(s.deadline, TrailingRun(None, pre, wait).fires + (if s.fired then [e.time] else []))
  {
    RunAppend(None, pre, [e], wait);
    assert [e][1..] == [];
  }

  // What holds after a trace started with no timer pending, given the times
  // it fired at, the timer it left and the positions it fired at, in four parts.

  /** Each run happened at a clock reading, at that reading's time. */
  ghost predicate AtTicks(es: seq<Event>, fires: seq<int>, ps: seq<nat>)
  {
    && |ps| == |fires|
    && forall f :: 0 <= f < |ps| ==> ps[f] < |es| && es[ps[f]] == Tick(fires[f])
  }

  /** Each run came a full wait after the latest call before it. */
  ghost predicate AfterQuiet(es: seq<Event>, fires: seq<int>, ps: seq<nat>, wait: nat)
    requires AtTicks(es, fires, ps)
  {
    forall f :: 0 <= f < |ps| ==>
      LatestCallBefore(es, ps[f]).Some? && es[LatestCallBefore(es, ps[f]).value].time + wait <= fires[f]
  }

  /** The latest call before run f2 comes after run f1. */
  ghost predicate CallBetween(es: seq<Event>, ps: seq<nat>, f1: nat, f2: nat)
  {
    && f1 < f2 < |ps| && ps[f2] <= |es|
    && LatestCallBefore(es, ps[f2]).Some? && ps[f1] < LatestCallBefore(es, ps[f2]).value
  }

  /** Between two runs there is a call. */
  ghost predicate Separated(es: seq<Event>, ps: seq<nat>)
  {
    forall f1: nat, f2: nat :: f1 < f2 < |ps| ==> CallBetween(es, ps, f1, f2)
  }

  /** A pending timer is due a wait after the latest call, which no run has answered yet. */
  ghost predicate Pending(es: seq<Event>, deadline: Option<int>, ps: seq<nat>, wait: nat)
  {
    var last := LatestCallBefore(es, |es|);
    && (deadline.Some? ==>
          last.Some? && deadline.value == es[last.value].time + wait && (|ps| == 0 || ps[|ps| - 1] < last.value))
    && (deadline.None? ==> last.None? || (|ps| > 0 && last.value < ps[|ps| - 1]))
  }

  ghost predicate QuietFacts(es: seq<Event>, fires: seq<int>, deadline: Option<int>, ps: seq<nat>, wait: nat)
  {
    && AtTicks(es, fires, ps)
    && AfterQuiet(es, fires, ps, wait)
    && Separated(es, ps)
    && Pending(es, deadline, ps, wait)
  }

  lemma {:induction false} PrefixCalls(pre: seq<Event>, e: Event)
    ensures forall j :: 0 <= j <= |pre| ==> LatestCallBefore(pre + [e], j) == LatestCallBefore(pre, j)
  {
    forall j | 0 <= j <= |pre| ensures LatestCallBefore(pre + [e], j) == LatestCallBefore(pre, j) {
      LatestCallPrefix(pre, e, j);
    }
  }

  /** A call or a clock reading that runs nothing keeps the facts, with nothing added. */
  lemma QuietStepIdle(pre: seq<Event>, e: Event, fires: seq<int>, deadline: Option<int>, ps: seq<nat>, wait: nat)
    requires QuietFacts(pre, fires, deadline, ps, wait)
    requires !TrailingStep(deadline, e, wait).fired
    ensures QuietFacts(pre + [e], fires, TrailingStep(deadline, e, wait).deadline, ps, wait)
  {
    PrefixCalls(pre, e);
    var es := pre + [e];
    assert forall j :: 0 <= j < |pre| ==> es[j] == pre[j];
    forall f1: nat, f2: nat | f1 < f2 < |ps| ensures CallBetween(es, ps, f1, f2) {
      assert CallBetween(pre, ps, f1, f2);
    }
  }

  lemma FireAtTicks(pre: seq<Event>, e: Event, fires: seq<int>, ps: seq<nat>)
    requires AtTicks(pre, fires, ps) && e.Tick?
    ensures AtTicks(pre + [e], fires + [e.time], ps + [|pre|])
  {
    var es := pre + [e];
    assert forall j :: 0 <= j < |pre| ==> es[j] == pre[j];
  }

  lemma FireAfterQuiet(pre: seq<Event>, e: Event, fires: seq<int>, deadline: Option<int>, ps: seq<nat>, wait: nat)
    requires AtTicks(pre, fires, ps) && AfterQuiet(pre, fires, ps, wait) && Pending(pre, deadline, ps, wait)
    requires TrailingStep(deadline, e, wait).fired
    requires AtTicks(pre + [e], fires + [e.time], ps + [|pre|])
    ensures AfterQuiet(pre + [e], fires + [e.time], ps + [|pre|], wait)
  {
    PrefixCalls(pre, e);
    var es, ps', fires' := pre + [e], ps + [|pre|], fires + [e.time];
    forall f | 0 <= f < |ps'|
      ensures LatestCallBefore(es, ps'[f]).Some? && es[LatestCallBefore(es, ps'[f]).value].time + wait <= fires'[f]
    {
      if f < |ps| {
        var k := LatestCallBefore(pre, ps[f]).value;
        assert ps'[f] == ps[f] && fires'[f] == fires[f] && es[k] == pre[k];
      } else {
        var k := LatestCallBefore(pre, |pre|).value;
        assert es[k] == pre[k];
      }
    }
  }

  lemma FireSeparatedPair(pre: seq<Event>, e: Event, fires: seq<int>, deadline: Option<int>, ps: seq<nat>, wait: nat,
                          f1: nat, f2: nat)
    requires AtTicks(pre, fires, ps) && Separated(pre, ps) && Pending(pre, deadline, ps, wait)
    requires TrailingStep(deadline, e, wait).fired
    requires f1 < f2 < |ps| + 1
    ensures CallBetween(pre + [e], ps + [|pre|], f1, f2)
  {
    var ps' := ps + [|pre|];
    var k := LatestCallBefore(pre, |pre|).value;
    if f2 < |ps| {
      LatestCallPrefix(pre, e, ps[f2]);
      assert CallBetween(pre, ps, f1, f2);
      assert ps'[f1] == ps[f1] && ps'[f2] == ps[f2];
    } else {
      LatestCallPrefix(pre, e, |pre|);
      assert ps'[f2] == |pre| && ps'[f1] == ps[f1];
      assert ps[|ps| - 1] < k;
      if f1 < |ps| - 1 {
        assert CallBetween(pre, ps, f1, |ps| - 1);
      }
    }
  }

  lemma FireSeparated(pre: seq<Event>, e: Event, fires: seq<int>, deadline: Option<int>, ps: seq<nat>, wait: nat)
    requires AtTicks(pre, fires, ps) && Separated(pre, ps) && Pending(pre, deadline, ps, wait)
    requires TrailingStep(deadline, e, wait).fired
    ensures Separated(pre + [e], ps + [|pre|])
  {
    forall f1: nat, f2: nat | f1 < f2 < |ps| + 1
      ensures CallBetween(pre + [e], ps + [|pre|], f1, f2)
    {
      FireSeparatedPair(pre, e, fires, deadline, ps, wait, f1, f2);
    }
  }

  lemma FirePending(pre: seq<Event>, e: Event, fires: seq<int>, deadline: Option<int>, ps: seq<nat>, wait: nat)
    requires Pending(pre, deadline, ps, wait)
    requires TrailingStep(deadline, e, wait).fired
    ensures Pending(pre + [e], None, ps + [|pre|], wait)
  {
    PrefixCalls(pre, e);
  }

  /** A clock reading that runs the function adds its position and time. */
  lemma QuietStepFire(pre: seq<Event>, e: Event, fires: seq<int>, deadline: Option<int>, ps: seq<nat>, wait: nat)
    requires QuietFacts(pre, fires, deadline, ps, wait)
    requires TrailingStep(deadline, e, wait).fired
    ensures QuietFacts(pre + [e], fires + [e.time], None, ps + [|pre|], wait)
  {
    FireAtTicks(pre, e, fires, ps);
    FireAfterQuiet(pre, e, fires, deadline, ps, wait);
    FireSeparated(pre, e, fires, deadline, ps, wait);
    FirePending(pre, e, fires, deadline, ps, wait);
  }

  /** What holds after every trace started with no timer pending. */
  ghost predicate QuietInvariant(es: seq<Event>, wait: nat)
  {
    var r := TrailingRun(None, es, wait);
    QuietFacts(es, r.fires, r.deadline, FirePositions(es, wait), wait)
  }

  lemma FirePositionsSnoc(pre: seq<Event>, e: Event, wait: nat)
    ensures var s := TrailingStep(TrailingRun(None, pre, wait).deadline, e, wait);
            FirePositions(pre + [e], wait) == FirePositions(pre, wait) + (if s.fired then [|pre|] else [])
  {
    assert (pre + [e])[..|pre|] == pre;
  }

  lemma {:induction false} QuietInvariantHolds(es: seq<Event>, wait: nat)
    ensures QuietInvariant(es, wait)
    decreases |es|
  {
    if |es| > 0 {
      var pre, e := es[..|es| - 1], es[|es| - 1];
      assert es == pre + [e];
      QuietInvariantHolds(pre, wait);
      RunSnoc(pre, e, wait);
      FirePositionsSnoc(pre, e, wait);
      var r0, ps0 := TrailingRun(None, pre, wait), FirePositions(pre, wait);
      assert QuietFacts(pre, r0.fires, r0.deadline, ps0, wait);
      var s := TrailingStep(r0.deadline, e, wait);
      if s.fired {
        QuietStepFire(pre, e, r0.fires, r0.deadline, ps0, wait);
        assert TrailingRun(None, es, wait) == Trace(None, r0.fires + [e.time]);
        assert FirePositions(es, wait) == ps0 + [|pre|];
      } else {
        QuietStepIdle(pre, e, r0.fires, r0.deadline, ps0, wait);
        assert TrailingRun(None, es, wait) == Trace(s.deadline, r0.fires);
        assert FirePositions(es, wait) == ps0;
      }
    }
  }

  /**
   * In any trace, however calls and clock readings interleave, the function
   * runs only at a clock reading, a full wait after the latest call before it.
   */
  lemma FiresFollowQuietPeriod(es: seq<Event>, wait: nat)
    ensures var r := TrailingRun(None, es, wait);
            var ps := FirePositions(es, wait);
            && |ps| == |r.fires|
            && (forall f :: 0 <= f < |ps| ==> ps[f] < |es| && es[ps[f]] == Tick(r.fires[f]))
            && (forall f :: 0 <= f < |ps| ==>
                  exists k :: 0 <= k < ps[f] && es[k].Call? && es[k].time + wait <= r.fires[f] &&
                              forall m :: k < m < ps[f] ==> es[m].Tick?)
  {
    QuietInvariantHolds(es, wait);
    var r, ps := TrailingRun(None, es, wait), FirePositions(es, wait);
    assert AtTicks(es, r.fires, ps) && AfterQuiet(es, r.fires, ps, wait);
    forall f | 0 <= f < |ps|
      ensures exists k :: 0 <= k < ps[f] && es[k].Call? && es[k].time + wait <= r.fires[f] &&
                          forall m :: k < m < ps[f] ==> es[m].Tick?
    {
      var k := LatestCallBefore(es, ps[f]).value;
      assert k < ps[f] && es[k].Call? && es[k].time + wait <= r.fires[f];
      assert forall m :: k < m < ps[f] ==> es[m].Tick?;
    }
  }

  /**
   * Two runs of the function always have a call between them: each burst of
   * calls, however it interleaves with clock readings, runs it at most once.
   */
  lemma RunsSeparatedByCalls(es: seq<Event>, wait: nat)
    ensures var ps := FirePositions(es, wait);
            forall f1, f2 :: 0 <= f1 < f2 < |ps| ==> exists m :: ps[f1] < m < ps[f2] && es[m].Call?
  {
    QuietInvariantHolds(es, wait);
    var r, ps := TrailingRun(None, es, wait), FirePositions(es, wait);
    assert AtTicks(es, r.fires, ps) && Separated(es, ps);
    forall f1, f2 | 0 <= f1 < f2 < |ps|
      ensures exists m :: ps[f1] < m < ps[f2] && es[m].Call?
    {
      assert CallBetween(es, ps, f1, f2);
      var m := LatestCallBefore(es, ps[f2]).value;
      assert ps[f1] < m < ps[f2] && es[m].Call?;
    }
  }

  /** The interleaved trace of calls and readings: calls at 0, 50 and 100 fire once, at 400. */
  lemma InterleavedBurst()
    ensures TrailingRun(None, [Call(0), Tick(25), Call(50), Tick(75), Call(100), Tick(400)], 300) == Trace(None, [400])
  {
  }

  /**
   * The collapsing example: calls at 0, 50, 100 and 150 with the search's
   * 300 ms window fire once, at the first clock reading at or after 450.
   */
  lemma SearchCollapsing()
    ensures TrailingRun(None, Calls([0, 50, 100, 150]) + Ticks([300, 449, 450, 600]), SearchWait) == Trace(None, [450])
  {
    BurstFiresOnce(None, [0, 50, 100, 150], [300, 449, 450, 600], SearchWait);
    RunAppend(None, Calls([0, 50, 100, 150]), Ticks([300, 449, 450, 600]), SearchWait);
    RunCalls(None, [0, 50, 100, 150], SearchWait);
    RunTicks(Some(450), [300, 449, 450, 600], SearchWait);
    assert DueIndex([300, 449, 450, 600], 450) == 2 by {
      assert DueIndex([450, 600], 450) == 0;
      assert [300, 449, 450, 600][1..] == [449, 450, 600];
      assert [449, 450, 600][1..] == [450, 600];
    }
  }

  // ---------------------------------------------------------------- leading edge

  /** The timer after the clock reaches t: a due timer has run and cleared itself. */
  function Expire(timeout: Option<int>, t: int): (left: Option<int>)
    ensures left.None? <==> timeout.None? || timeout.value <= t
    ensures left.Some? ==> left == timeout
  {
    if timeout.Some? && timeout.value <= t then None else timeout
  }

  /** debounceImmediate's function called at t: it runs only with no timer pending, and always restarts the timer. */
  function LeadingCall(timeout: Option<int>, t: int, wait: nat): (s: Step)
    ensures s.fired <==> timeout.None?
    ensures s.deadline == Some(t + wait)
  {
    Step(Some(t + wait), timeout.None?)
  }

  /** A call at t with every timer due by t already run, as the event loop delivers them. */
  function PromptCall(timeout: Option<int>, t: int, wait: nat): (s: Step)
    ensures s.fired <==> timeout.None? || timeout.value <= t
    ensures s.deadline == Some(t + wait)
  {
    LeadingCall(Expire(timeout, t), t, wait)
  }

  /** Whether each of a sequence of presses ran the wrapped function. */
  function PressRun(timeout: Option<int>, ts: seq<int>, wait: nat): (ran: seq<bool>)
    ensures |ran| == |ts|
    decreases |ts|
  {
    if |ts| == 0 then []
    else
      var s := PromptCall(timeout, ts[0], wait);
      [s.fired] + PressRun(s.deadline, ts[1..], wait)
  }

  /**
   * A press runs the function exactly when no earlier press happened within
   * the preceding window: the first when no timer is pending, every later
   * one when the press just before it, whether it ran or not, is at least a
   * window earlier.
   */
  lemma {:induction false} PressRunRuns(timeout: Option<int>, ts: seq<int>, wait: nat)
    ensures |ts| > 0 ==> (PressRun(timeout, ts, wait)[0] <==> timeout.None? || timeout.value <= ts[0])
    ensures forall i :: 0 < i < |ts| ==> (PressRun(timeout, ts, wait)[i] <==> ts[i - 1] + wait <= ts[i])
    decreases |ts|
  {
    if |ts| > 1 {
      var s := PromptCall(timeout, ts[0], wait);
      PressRunRuns(s.deadline, ts[1..], wait);
      var ran := PressRun(timeout, ts, wait);
      assert ran[1..] == PressRun(s.deadline, ts[1..], wait);
      forall i | 0 < i < |ts|
        ensures ran[i] <==> ts[i - 1] + wait <= ts[i]
      {
        assert ran[i] == ran[1..][i - 1];
        if i == 1 {
          assert s.deadline == Some(ts[0] + wait);
        } else {
          assert ts[1..][i - 2] == ts[i - 1];
        }
      }
    }
  }

  /**
   * The favorite button's 200 ms wrapper: a double tap 100 ms apart toggles
   * once, and a tap 250 ms after the second one toggles again.
   */
  lemma FavoriteDoubleTap()
    ensures PressRun(None, [0, 100, 350], ToggleWait) == [true, false, true]
  {
    PressRunRuns(None, [0, 100, 350], ToggleWait);
  }

  // ---------------------------------------------------------------- the closures as objects

  /** The function `debounce` returns; `deadline` is its captured `timeout`. */
  class Debouncer {
    const wait: nat
    var deadline: Option<int>

    constructor (wait: nat)
      ensures this.wait == wait && deadline == None
    {
      this.wait := wait;
      deadline := None;
    }

    /** clearTimeout, then a new timer a full wait after the call. */
    method Call(t: int)
      modifies this
      ensures deadline == Some(t + wait)
      ensures Step(deadline, false) == TrailingStep(old(deadline), Event.Call(t), wait)
    {
      deadline := Some(t + wait);
    }

    /** The clock reaching t runs the wrapped function if the pending timer is due. */
    method Tick(t: int) returns (fired: bool)
      modifies this
      ensures fired <==> old(deadline).Some? && old(deadline).value <= t
      ensures deadline == if fired then None else old(deadline)
      ensures Step(deadline, fired) == TrailingStep(old(deadline), Event.Tick(t), wait)
    {
      fired := false;
      if deadline.Some? && deadline.value <= t {
        fired := true;
        deadline := None;
      }
    }
  }

  /** The function `debounceImmediate` returns; `timeout` is its captured timer. */
  class LeadingDebouncer {
    const wait: nat
    var timeout: Option<int>

    constructor (wait: nat)
      ensures this.wait == wait && timeout == None
    {
      this.wait := wait;
      timeout := None;
    }

    /** Runs the wrapped function when no timer is pending; restarts the timer either way. */
    method Call(t: int) returns (ran: bool)
      modifies this
      ensures ran <==> old(timeout).None?
      ensures timeout == Some(t + wait)
      ensures Step(timeout, ran) == LeadingCall(old(timeout), t, wait)
    {
      ran := timeout == None;
      timeout := Some(t + wait);
    }

    /** The clock reaching t: a due timer sets `timeout` back to null. */
    method Tick(t: int)
      modifies this
      ensures timeout == Expire(old(timeout), t)
      ensures old(timeout).Some? && old(timeout).value <= t ==> timeout == None
      ensures !(old(timeout).Some? && old(timeout).value <= t) ==> timeout == old(timeout)
    {
      if timeout.Some? && timeout.value <= t {
        timeout := None;
      }
    }

    /** A call delivered after every timer due by its time has run. */
    method Press(t: int) returns (ran: bool)
      modifies this
      ensures Step(timeout, ran) == PromptCall(old(timeout), t, wait)
      ensures ran <==> old(timeout).None? || old(timeout).value <= t
    {
      Tick(t);
      ran := Call(t);
    }
  }
}
