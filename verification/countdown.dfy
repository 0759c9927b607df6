/** The focus-session countdown of src/script.js as a state machine over the
    widget's state. A button press starts a session, the one-second interval
    delivers ticks, and the page's visibility changes may cancel it. */
module Countdown {
  import opened Growth
  import opened Wrappers
  import opened Clock

  /** Text shown once a session has been credited. */
  const GrowMessage: string := "Grow your tree..."

  /** Text shown once a session has been cancelled. */
  const FocusMessage: string := "Growth requires focus..."

  /** No interval is scheduled, or one counts down `remaining` seconds of a
      session of `duration` minutes. */
  datatype Timer = Idle | Running(duration: nat, remaining: int)

  /** What the clock element shows: a remaining time, or a message. */
  datatype Display = ClockTime(seconds: nat) | Message(text: string)

  /** The text of the clock element. */
  function DisplayText(d: Display): (s: string)
    ensures d.ClockTime? ==> ParseClock(s) == Some(d.seconds)
    ensures d.Message? ==> s == d.text
  {
    match d
    case ClockTime(r) => ParseFormat(r); FormatClock(r)
    case Message(t) => t
  }

  /** Everything the widget keeps: the growth counters, the countdown, whether
      the visibility listener is attached, and what the clock element shows. */
  datatype Widget = Widget(growth: GrowthState, timer: Timer, listening: bool, display: Display)

  /** What reaches the widget: a duration button pressed, one interval tick,
      or the page becoming hidden or visible. */
  datatype Event = Press(minutes: nat) | Tick | VisibilityChange(hidden: bool)

  /** The widget when the page has loaded: no countdown, no listener. */
  function Boot(growth: GrowthState, initialText: string): (w: Widget)
    ensures w.growth == growth && w.timer.Idle? && !w.listening
  {
    Widget(growth, Idle, false, Message(initialText))
  }

  /** `startTimer`: any running interval is dropped, the countdown restarts at
      the whole session, the clock shows it and the listener is attached
      (attaching the same handler twice has no further effect). */
  function Start(w: Widget, minutes: nat): (r: Widget)
    ensures r.growth == w.growth
    ensures r.timer == Running(minutes, minutes * 60) && r.listening
    ensures r.display == ClockTime(minutes * 60)
  {
    Widget(w.growth, Running(minutes, minutes * 60), true, ClockTime(minutes * 60))
  }

  /** `cancelTimer`: the interval stops, the listener is detached and the
      growth counters are left as they are. */
  function Cancel(w: Widget): (r: Widget)
    ensures r.growth == w.growth && r.timer.Idle? && !r.listening
    ensures r.display == Message(FocusMessage)
  {
    w.(timer := Idle, listening := false, display := Message(FocusMessage))
  }

  /** One interval callback. The tick that brings the remaining time to zero
      or below stops the interval and credits the session; any other tick
      shows the new remaining time. Completion leaves the listener attached. */
  function OnTick(w: Widget): (r: Widget)
    ensures w.timer.Idle? ==> r == w
    ensures r.listening == w.listening
    ensures w.timer.Running? && w.timer.remaining > 1 ==>
              && r.growth == w.growth && r.timer == Running(w.timer.duration, w.timer.remaining - 1)
              && r.display == ClockTime(w.timer.remaining - 1)
    ensures w.timer.Running? && w.timer.remaining <= 1 ==>
              && r.growth == Complete(w.growth, w.timer.duration) && r.timer.Idle?
              && r.display == Message(GrowMessage)
  {
    match w.timer
    case Idle => w
    case Running(d, r) =>
      if r - 1 <= 0 then w.(growth := Complete(w.growth, d), timer := Idle, display := Message(GrowMessage))
      else w.(timer := Running(d, r - 1), display := ClockTime(r - 1))
  }

  /** `handleVisibilityChange`: hiding the page cancels, if the listener is
      attached. */
  function OnVisibilityChange(w: Widget, hidden: bool): (r: Widget)
    ensures r.growth == w.growth
    ensures !hidden || !w.listening ==> r == w
    ensures hidden && w.listening ==> r.timer.Idle? && !r.listening && r.display == Message(FocusMessage)
  {
    if hidden && w.listening then Cancel(w) else w
  }

  /** Dispatch of one event to its handler: a button click, an interval
      callback, or the visibility listener. */
  function Step(w: Widget, e: Event): (r: Widget)
    // only an interval tick can credit a session
    ensures !e.Tick? ==> r.growth == w.growth
    ensures e.Press? ==> r.timer == Running(e.minutes, e.minutes * 60) && r.listening
    ensures e.VisibilityChange? && !e.hidden ==> r == w
    ensures e.Tick? && w.timer.Idle? ==> r == w
  {
    match e
    case Press(d) => Start(w, d)
    case Tick => OnTick(w)
    case VisibilityChange(h) => OnVisibilityChange(w, h)
  }

  /** The widget after a sequence of events, in order. */
  function Run(w: Widget, events: seq<Event>): Widget
    decreases |events|
  {
    if |events| == 0 then w else Run(Step(w, events[0]), events[1..])
  }

  /** `k` consecutive ticks. */
  function Ticks(k: nat): (es: seq<Event>)
    ensures |es| == k && forall i :: 0 <= i < k ==> es[i] == Tick
  {
    seq(k, _ => Tick)
  }

  /** Ticks from the start of a session until it is credited: one per
      second, and at least one, since a zero-minute session completes on the
      first tick. */
  function SessionTicks(minutes: nat): (k: nat)
    ensures k >= 1 && k >= minutes * 60
    ensures minutes >= 1 ==> k == minutes * 60
  {
    if minutes * 60 >= 1 then minutes * 60 else 1
  }

  /** What the program keeps true of its own state. */
  predicate Invariant(w: Widget) {
    && Growth.Valid(w.growth)
    && (w.timer.Running? ==>
          && w.listening && 0 <= w.timer.remaining <= w.timer.duration * 60
          && w.display == ClockTime(w.timer.remaining))
  }

  /** Every event keeps the invariant; in particular the level stays a valid
      index into the threshold table and progress never goes negative. */
  lemma StepInvariant(w: Widget, e: Event)
    requires Invariant(w)
    ensures Invariant(Step(w, e))
  {
  }

  lemma {:induction false} RunInvariant(w: Widget, events: seq<Event>)
    requires Invariant(w)
    ensures Invariant(Run(w, events))
    decreases |events|
  {
    if |events| > 0 {
      StepInvariant(w, events[0]);
      RunInvariant(Step(w, events[0]), events[1..]);
    }
  }

  /** Growth changes only on the tick that finishes a session, and then by
      exactly one completion of that session's duration. */
  lemma GrowthOnlyOnCompletion(w: Widget, e: Event)
    ensures Step(w, e).growth != w.growth ==>
              && e == Tick && w.timer.Running? && w.timer.remaining <= 1
              && Step(w, e).growth == Complete(w.growth, w.timer.duration)
              && Step(w, e).timer.Idle?
  {
  }

  /** Starting a session forgets whatever ran before: the result depends on
      the old widget only through its growth counters. */
  lemma StartDiscards(w: Widget, w': Widget, minutes: nat)
    requires w.growth == w'.growth
    ensures Start(w, minutes) == Start(w', minutes)
  {
  }

  lemma {:induction false} RunAppend(w: Widget, xs: seq<Event>, ys: seq<Event>)
    ensures Run(w, xs + ys) == Run(Run(w, xs), ys)
    decreases |xs|
  {
    if |xs| > 0 {
      assert (xs + ys)[1..] == xs[1..] + ys;
      RunAppend(Step(w, xs[0]), xs[1..], ys);
    } else {
      assert xs + ys == ys;
    }
  }

  lemma {:induction false} IdleTicks(w: Widget, k: nat)
    requires w.timer.Idle?
    ensures Run(w, Ticks(k)) == w
    decreases k
  {
    if k > 0 {
      assert Ticks(k)[1..] == Ticks(k - 1);
      IdleTicks(w, k - 1);
    }
  }

  /** `k` ticks of a countdown with `r` seconds left: before the session's
      last tick the countdown has `r - k` seconds left and nothing is
      credited; from that tick on the widget is idle and the session has
      been credited exactly once. */
  lemma {:induction false} CountdownTicks(w: Widget, k: nat)
    requires w.timer.Running?
    ensures var d, r, w' := w.timer.duration, w.timer.remaining, Run(w, Ticks(k));
            if k < r || k == 0 then
              w'.growth == w.growth && w'.timer == Running(d, r - k) && w'.listening == w.listening
            else
              w'.growth == Complete(w.growth, d) && w'.timer.Idle?
              && w'.display == Message(GrowMessage) && w'.listening == w.listening
    decreases k
  {
    if k > 0 {
      assert Ticks(k)[1..] == Ticks(k - 1);
      var next := OnTick(w);
      if w.timer.remaining - 1 <= 0 {
        IdleTicks(next, k - 1);
      } else {
        CountdownTicks(next, k - 1);
      }
    }
  }

  /** A session left to run is credited exactly when its last tick arrives:
      every earlier moment still has the countdown running and the growth
      counters untouched. */
  lemma Session(w: Widget, minutes: nat, k: nat)
    ensures var w' := Run(w, [Press(minutes)] + Ticks(k));
            if k < SessionTicks(minutes) then
              w'.growth == w.growth && w'.timer.Running? && w'.listening
            else
              w'.growth == Complete(w.growth, minutes) && w'.timer.Idle? && w'.display == Message(GrowMessage)
  {
    var started := Start(w, minutes);
    assert Run(w, [Press(minutes)]) == started;
    RunAppend(w, [Press(minutes)], Ticks(k));
    CountdownTicks(started, k);
  }

  /** Restarting part-way through a session credits only the new session:
      the minutes of the abandoned one are never added. */
  lemma RestartCreditsOnlyNewSession(w: Widget, first: nat, k: nat, second: nat)
    requires k < SessionTicks(first)
    ensures Run(w, [Press(first)] + Ticks(k) + [Press(second)] + Ticks(SessionTicks(second))).growth
            == Complete(w.growth, second)
  {
    var w1 := Run(w, [Press(first)] + Ticks(k));
    Session(w, first, k);
    RunAppend(w, [Press(first)] + Ticks(k), [Press(second)] + Ticks(SessionTicks(second)));
    assert [Press(first)] + Ticks(k) + [Press(second)] + Ticks(SessionTicks(second))
        == ([Press(first)] + Ticks(k)) + ([Press(second)] + Ticks(SessionTicks(second)));
    Session(w1, second, SessionTicks(second));
  }

  /** The visibility listener outlives a completed session: hiding the page
      afterwards runs the cancel path again, which replaces the completion
      message but leaves the growth counters as they are. */
  lemma HiddenAfterCompletion(w: Widget, minutes: nat)
    ensures var done := Run(w, [Press(minutes)] + Ticks(SessionTicks(minutes)));
            && done.listening
            && OnVisibilityChange(done, true).growth == Complete(w.growth, minutes)
            && OnVisibilityChange(done, true).display == Message(FocusMessage)
  {
    Session(w, minutes, SessionTicks(minutes));
    RunAppend(w, [Press(minutes)], Ticks(SessionTicks(minutes)));
    CountdownTicks(Start(w, minutes), SessionTicks(minutes));
  }

  /** The tree count never decreases over any sequence of events. */
  lemma {:induction false} TreeCountMonotone(w: Widget, events: seq<Event>)
    ensures Run(w, events).growth.treeCount >= w.growth.treeCount
    decreases |events|
  {
    if |events| > 0 {
      TreeCountMonotone(Step(w, events[0]), events[1..]);
    }
  }

  /** From a fresh tree, a full 30-minute session and then a full 60-minute
      session reach the Sapling stage with nothing carried over. */
  lemma FreshTreeScenario(initialText: string)
    ensures Run(Boot(Fresh, initialText),
                [Press(30)] + Ticks(1800) + [Press(60)] + Ticks(3600)).growth
            == GrowthState(2, 0, 0)
  {
    var w := Boot(Fresh, initialText);
    var first := [Press(30)] + Ticks(1800);
    RunAppend(w, first, [Press(60)] + Ticks(3600));
    assert first + [Press(60)] + Ticks(3600) == first + ([Press(60)] + Ticks(3600));
    Session(w, 30, 1800);
    Session(Run(w, first), 60, 3600);
    SeedToSapling();
  }

  /** A full 15-minute session at the Tree stage completes the third tree. */
  lemma TreeStageScenario(initialText: string)
    ensures Run(Boot(GrowthState(3, 0, 2), initialText), [Press(15)] + Ticks(900)).growth
            == GrowthState(0, 0, 3)
  {
    Session(Boot(GrowthState(3, 0, 2), initialText), 15, 900);
    TreeCompletesCycle();
  }
}
