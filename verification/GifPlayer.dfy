/**
  The loop-count state machine that steps an animated view on every display tick
  (`updateCurrentImage`, `updateIndex`).
 */
module GifPlayer {
  import opened Bytes
  import GifSchedule

  /** What the view reads from its GIF: the images per loop, the ticks per image, the frame of each image. */
  datatype Gif = Gif(imageCount: Option<int>, factor: nat, order: seq<nat>)

  datatype Report = Looped | Stopped

  /** The stepped fields, and a record of the frames shown and the reports made. */
  datatype View = View(sync: nat, index: nat, loops: int, displaying: bool, shown: seq<Option<nat>>, reports: seq<Report>)

  /** `frameAtIndex`: nothing outside the schedule. */
  function FrameAt(gif: Gif, index: nat): Option<nat> {
    if index < |gif.order| then Some(gif.order[index]) else None
  }

  /** `updateIndex`. */
  function Advance(v: View, gif: Gif): View {
    if gif.factor == 0 then v
    else
      var v1 := v.(sync := (v.sync + 1) % gif.factor);
      if v1.sync != 0 || gif.imageCount.None? || gif.imageCount.value <= 0 then v1
      else
        var v2 := v1.(index := (v.index + 1) % gif.imageCount.value);
        if v2.index != 0 then v2
        else if v.loops == -1 then v2.(reports := v.reports + [Looped])
        else if v.loops > 1 then v2.(reports := v.reports + [Looped], loops := v.loops - 1)
        else v2.(reports := v.reports + [Stopped], loops := v.loops - 1)
  }

  /** One display tick. */
  function Step(v: View, gif: Gif, onScreen: bool, playing: bool): View {
    if v.displaying then
      var v1 := Advance(v.(shown := v.shown + [FrameAt(gif, v.index)]), gif);
      if v1.loops == 0 || !onScreen || !playing then v1.(displaying := false) else v1
    else if onScreen && v.loops != 0 && playing then v.(displaying := true)
    else v
  }

  class ImageView {
    const gif: Gif
    var syncFactor: nat
    var displayOrderIndex: nat
    var loopCount: int
    var displaying: bool
    var isPlaying: bool
    ghost var shown: seq<Option<nat>>
    ghost var reports: seq<Report>

    ghost function State(): View
      reads this
    {
      View(syncFactor, displayOrderIndex, loopCount, displaying, shown, reports)
    }

    /** The state that `setGifImage` leaves. */
    constructor (gif: Gif, loopCount: int)
      ensures this.gif == gif && State() == View(0, 0, loopCount, true, [], []) && isPlaying
    {
      this.gif := gif;
      syncFactor := 0;
      displayOrderIndex := 0;
      this.loopCount := loopCount;
      displaying := true;
      isPlaying := true;
      shown := [];
      reports := [];
    }

    /** `updateIndex`. */
    method UpdateIndex()
      modifies this
      ensures State() == Advance(old(State()), gif) && isPlaying == old(isPlaying)
    {
      if gif.factor == 0 {
        return;
      }
      syncFactor := (syncFactor + 1) % gif.factor;
      if syncFactor == 0 && gif.imageCount.Some? && gif.imageCount.value > 0 {
        displayOrderIndex := (displayOrderIndex + 1) % gif.imageCount.value;
        if displayOrderIndex == 0 {
          if loopCount == -1 {
            reports := reports + [Looped];
          } else if loopCount > 1 {
            reports := reports + [Looped];
            loopCount := loopCount - 1;
          } else {
            reports := reports + [Stopped];
            loopCount := loopCount - 1;
          }
        }
      }
    }

    /** `updateCurrentImage`, which the manager calls on every tick. */
    method UpdateCurrentImage(onScreen: bool) returns (frame: Option<nat>)
      modifies this
      ensures State() == Step(old(State()), gif, onScreen, isPlaying) && isPlaying == old(isPlaying)
      ensures frame == if old(displaying) then FrameAt(gif, old(displayOrderIndex)) else None
    {
      hide Advance;
      frame := None;
      if displaying {
        frame := FrameAt(gif, displayOrderIndex);
        shown := shown + [frame];
        UpdateIndex();
        if loopCount == 0 || !onScreen || !isPlaying {
          displaying := false;
        }
      } else if onScreen && loopCount != 0 && isPlaying {
        displaying := true;
      }
    }
  }

  // ---------------------------------------------------------------- whole runs

  /** `k` ticks of a playing view that stays on screen. */
  function Run(v: View, gif: Gif, k: nat): View {
    if k == 0 then v else Step(Run(v, gif, k - 1), gif, true, true)
  }

  function Repeat(r: Report, n: nat): (s: seq<Report>)
    ensures |s| == n
  {
    seq(n, _ => r)
  }

  predicate Playable(gif: Gif) {
    gif.factor > 0 && gif.imageCount.Some? && gif.imageCount.value > 0 && |gif.order| == gif.imageCount.value
  }

  /** The image that is due at tick `t`. */
  function Due(gif: Gif, t: nat): Option<nat>
    requires Playable(gif)
  {
    Some(gif.order[t / gif.factor % gif.imageCount.value])
  }

  /** The ticks that `n` loops take. */
  function LoopTicks(gif: Gif, n: nat): nat
    requires Playable(gif)
  {
    gif.factor * (gif.imageCount.value * n)
  }

  /** After `k` ticks, in loop `done` (from 0). */
  predicate InLoop(v: View, gif: Gif, k: nat, done: nat)
    requires Playable(gif)
  {
    && v.displaying && v.sync < gif.factor && v.index < gif.imageCount.value
    && k == v.sync + gif.factor * (v.index + gif.imageCount.value * done)
    && v.reports == Repeat(Looped, done)
    && |v.shown| == k && forall t :: 0 <= t < k ==> v.shown[t] == Due(gif, t)
  }

  lemma {:induction false} MulGrows(f: nat, a: nat, b: nat)
    requires a > b
    ensures f * a >= f * b + f
    decreases a
  {
    Wrap(f, a - 1);
    if a > b + 1 {
      MulGrows(f, a - 1, b);
    }
  }

  lemma Quotient(f: nat, sync: nat, q: nat)
    requires sync < f
    ensures (sync + f * q) / f == q
  {
    var x := sync + f * q;
    var d := x / f;
    assert x == f * d + x % f;
    if d > q {
      MulGrows(f, d, q);
    } else if d < q {
      MulGrows(f, q, d);
    }
  }

  lemma Remainder(f: nat, r: nat, q: nat)
    requires r < f
    ensures (r + f * q) % f == r
  {
    Quotient(f, r, q);
    var x := r + f * q;
    assert x == f * (x / f) + x % f;
  }

  /** The image at the current index is the one that is due. */
  lemma DueNow(v: View, gif: Gif, k: nat, done: nat)
    requires Playable(gif) && InLoop(v, gif, k, done)
    ensures FrameAt(gif, v.index) == Due(gif, k)
  {
    var count := gif.imageCount.value;
    Quotient(gif.factor, v.sync, v.index + count * done);
    Remainder(count, v.index, done);
  }

  lemma AdvanceSync(v: View, gif: Gif)
    requires v.sync + 1 < gif.factor
    ensures Advance(v, gif) == v.(sync := v.sync + 1)
  {
    ModSmall(v.sync + 1, gif.factor);
  }

  lemma AdvanceIndex(v: View, gif: Gif)
    requires Playable(gif) && v.sync + 1 == gif.factor && v.index + 1 < gif.imageCount.value
    ensures Advance(v, gif) == v.(sync := 0, index := v.index + 1)
  {
  }

  lemma AdvanceLoop(v: View, gif: Gif)
    requires Playable(gif) && v.sync + 1 == gif.factor && v.index + 1 == gif.imageCount.value && (v.loops == -1 || v.loops >= 1)
    ensures Advance(v, gif) == v.(sync := 0, index := 0,
      loops := if v.loops == -1 then -1 else v.loops - 1, reports := v.reports + [if v.loops == 1 then Stopped else Looped])
  {
  }

  /** The tick within a loop. */
  lemma StepsOn(v: View, gif: Gif, k: nat, done: nat)
    requires Playable(gif) && InLoop(v, gif, k, done) && v.loops != 0
    requires v.sync + 1 < gif.factor || v.index + 1 < gif.imageCount.value
    ensures var v1 := Step(v, gif, true, true);
      InLoop(v1, gif, k + 1, done) && v1.loops == v.loops
  {
    hide FrameAt, Due, Advance;
    DueNow(v, gif, k, done);
    var v1 := v.(shown := v.shown + [FrameAt(gif, v.index)]);
    if v.sync + 1 < gif.factor {
      AdvanceSync(v1, gif);
    } else {
      AdvanceIndex(v1, gif);
      Wrap(gif.factor, v.index + gif.imageCount.value * done);
    }
  }

  lemma Wrap(f: nat, q: nat)
    ensures f + f * q == f * (q + 1)
  {
  }

  /** The last tick of a loop. */
  lemma LoopEnds(v: View, gif: Gif, k: nat, done: nat)
    requires Playable(gif) && InLoop(v, gif, k, done) && (v.loops == -1 || v.loops >= 1)
    requires v.sync + 1 == gif.factor && v.index + 1 == gif.imageCount.value
    ensures var v1 := Step(v, gif, true, true);
      && k + 1 == LoopTicks(gif, done + 1) && |v1.shown| == k + 1 && (forall t :: 0 <= t < k + 1 ==> v1.shown[t] == Due(gif, t))
      && if v.loops == 1
        then !v1.displaying && v1.loops == 0 && v1.reports == Repeat(Looped, done) + [Stopped]
        else InLoop(v1, gif, k + 1, done + 1) && v1.loops == (if v.loops == -1 then -1 else v.loops - 1)
  {
    hide FrameAt, Due, Advance;
    DueNow(v, gif, k, done);
    AdvanceLoop(v.(shown := v.shown + [FrameAt(gif, v.index)]), gif);
    Wrap(gif.factor, v.index + gif.imageCount.value * done);
    Wrap(gif.imageCount.value, done);
    assert Repeat(Looped, done) + [Looped] == Repeat(Looped, done + 1);
  }

  const PLAYING := View(0, 0, 0, true, [], [])

  /** Before the last tick: the view is in one of its loops. */
  lemma {:induction false} InSomeLoop(gif: Gif, n: nat, k: nat) returns (done: nat)
    requires Playable(gif) && n >= 1 && k < LoopTicks(gif, n)
    ensures done < n && InLoop(Run(PLAYING.(loops := n), gif, k), gif, k, done)
    ensures Run(PLAYING.(loops := n), gif, k).loops == n - done
    decreases k
  {
    hide InLoop, Step;
    if k == 0 {
      done := 0;
      StartsInLoop(gif, n);
    } else {
      done := InSomeLoop(gif, n, k - 1);
      var v := Run(PLAYING.(loops := n), gif, k - 1);
      InLoopBounds(v, gif, k - 1, done);
      if v.sync + 1 < gif.factor || v.index + 1 < gif.imageCount.value {
        StepsOn(v, gif, k - 1, done);
      } else {
        LoopEnds(v, gif, k - 1, done);
        done := done + 1;
      }
    }
  }

  lemma StartsInLoop(gif: Gif, n: int)
    requires Playable(gif)
    ensures InLoop(PLAYING.(loops := n), gif, 0, 0)
  {
    assert gif.imageCount.value * 0 == 0 && gif.factor * 0 == 0;
  }

  lemma InLoopBounds(v: View, gif: Gif, k: nat, done: nat)
    requires Playable(gif) && InLoop(v, gif, k, done)
    ensures v.displaying && v.sync < gif.factor && v.index < gif.imageCount.value
    ensures k == v.sync + gif.factor * (v.index + gif.imageCount.value * done)
  {
  }

  /** Only the last tick of the last loop is followed by a whole number of loops. */
  lemma LastTick(gif: Gif, v: View, n: nat, k: nat, done: nat)
    requires Playable(gif) && done < n && k + 1 == LoopTicks(gif, n)
    requires v.sync < gif.factor && v.index < gif.imageCount.value
    requires k == v.sync + gif.factor * (v.index + gif.imageCount.value * done)
    ensures done + 1 == n && v.sync + 1 == gif.factor && v.index + 1 == gif.imageCount.value
  {
    var f, c := gif.factor, gif.imageCount.value;
    var q := v.index + c * done;
    Quotient(f, v.sync, q);
    assert k == (f - 1) + f * (c * n - 1) by {
      Wrap(f, c * n - 1);
    }
    Quotient(f, f - 1, c * n - 1);
    assert q == c * n - 1;
    assert q == (c - 1) + c * (n - 1) by {
      Wrap(c, n - 1);
    }
    Quotient(c, v.index, done);
    Quotient(c, c - 1, n - 1);
  }

  /**
    A loop count of n plays n loops: every tick up to the last shows the frame that is due, there
    are n - 1 loop reports and one stop report, and the view stops after exactly that many ticks.
   */
  lemma {:induction false} PlaysThenStops(gif: Gif, n: nat, k: nat)
    requires Playable(gif) && n >= 1
    ensures var v := Run(PLAYING.(loops := n), gif, k);
      var ticks := LoopTicks(gif, n);
      && |v.shown| == (if k < ticks then k else ticks) && (forall t :: 0 <= t < |v.shown| ==> v.shown[t] == Due(gif, t))
      && (if k < ticks then v.displaying
          else !v.displaying && v.loops == 0 && v.reports == Repeat(Looped, n - 1) + [Stopped])
    decreases k
  {
    hide Due, Step;
    var ticks := LoopTicks(gif, n);
    SomeTicks(gif, n);
    if k < ticks {
      var done := InSomeLoop(gif, n, k);
    } else if k == ticks {
      var done := InSomeLoop(gif, n, k - 1);
      var v := Run(PLAYING.(loops := n), gif, k - 1);
      InLoopBounds(v, gif, k - 1, done);
      LastTick(gif, v, n, k - 1, done);
      LoopEnds(v, gif, k - 1, done);
    } else {
      PlaysThenStops(gif, n, k - 1);
      StaysStopped(Run(PLAYING.(loops := n), gif, k - 1), gif);
    }
  }

  lemma SomeTicks(gif: Gif, n: nat)
    requires Playable(gif) && n >= 1
    ensures LoopTicks(gif, n) >= 1
  {
    assert gif.imageCount.value * n >= 1;
    assert gif.factor * (gif.imageCount.value * n) >= 1;
  }

  lemma StaysStopped(v: View, gif: Gif)
    requires !v.displaying && v.loops == 0
    ensures Step(v, gif, true, true) == v
  {
  }

  /** A loop count of -1 plays on: at every tick the frame that is due, and a report for each whole loop. */
  lemma {:induction false} PlaysForever(gif: Gif, k: nat) returns (done: nat)
    requires Playable(gif)
    ensures var v := Run(PLAYING.(loops := -1), gif, k);
      InLoop(v, gif, k, done) && v.loops == -1
    decreases k
  {
    hide InLoop, Step;
    if k == 0 {
      done := 0;
      StartsInLoop(gif, -1);
    } else {
      done := PlaysForever(gif, k - 1);
      var v := Run(PLAYING.(loops := -1), gif, k - 1);
      InLoopBounds(v, gif, k - 1, done);
      if v.sync + 1 < gif.factor || v.index + 1 < gif.imageCount.value {
        StepsOn(v, gif, k - 1, done);
      } else {
        LoopEnds(v, gif, k - 1, done);
        done := done + 1;
      }
    }
  }

  /** The gif ends a loop with its first tick. */
  predicate OneTick(gif: Gif)
    requires Playable(gif)
  {
    gif.factor == 1 && gif.imageCount.value == 1
  }

  lemma {:induction false} FirstTickOfZero(gif: Gif)
    requires Playable(gif)
    ensures Step(PLAYING, gif, true, true) == View(if gif.factor == 1 then 0 else 1, if gif.factor == 1 && gif.imageCount.value > 1 then 1 else 0,
      if OneTick(gif) then -1 else 0, OneTick(gif), [Due(gif, 0)], if OneTick(gif) then [Stopped] else [])
  {
    StartsInLoop(gif, 0);
    DueNow(PLAYING, gif, 0, 0);
    if gif.factor > 1 {
      ModSmall(1, gif.factor);
    } else if gif.imageCount.value > 1 {
      ModSmall(1, gif.imageCount.value);
    }
  }

  /**
    A loop count of 0 shows one frame and stops without a report, unless the first tick already
    ends a loop: then the count becomes -1, and after a stop report the view plays on for ever.
   */
  lemma {:induction false} ZeroLoopsOfOneTick(gif: Gif, k: nat)
    requires Playable(gif) && k >= 1
    ensures var v := Run(PLAYING, gif, k);
      && (v.displaying <==> OneTick(gif))
      && if OneTick(gif) then
           && v.loops == -1 && v.reports == [Stopped] + Repeat(Looped, k - 1) && v.sync == v.index == 0
           && |v.shown| == k && forall t :: 0 <= t < k ==> v.shown[t] == Due(gif, t)
         else v.loops == 0 && v.reports == [] && v.shown == [Due(gif, 0)]
    decreases k
  {
    hide Due, Step;
    if k == 1 {
      FirstTickOfZero(gif);
      assert Run(PLAYING, gif, 1) == Step(Run(PLAYING, gif, 0), gif, true, true);
    } else {
      ZeroLoopsOfOneTick(gif, k - 1);
      var v := Run(PLAYING, gif, k - 1);
      if OneTick(gif) {
        OneTickOn(gif, v, k - 1);
        assert Repeat(Looped, k - 2) + [Looped] == Repeat(Looped, k - 1);
      } else {
        StaysStopped(v, gif);
      }
    }
  }

  lemma OneTickOn(gif: Gif, v: View, t: nat)
    requires Playable(gif) && OneTick(gif) && v.displaying && v.loops == -1 && v.sync == v.index == 0
    ensures Step(v, gif, true, true) == v.(shown := v.shown + [Due(gif, t)], reports := v.reports + [Looped])
  {
    assert t / 1 % 1 == 0;
  }

  /** A computed schedule with an image count can be played, and shows frames of the GIF only, in order. */
  lemma SchedulePlays(pos: seq<int>, factor: nat, order: seq<nat>, t: nat)
    requires GifSchedule.Ascending(pos) && GifSchedule.IsOrder(pos, order) && |pos| > 0 && pos[|pos| - 1] > 0 && factor > 0
    ensures var gif := Gif(Some(pos[|pos| - 1]), factor, order);
      Playable(gif) && Due(gif, t).value == GifSchedule.FirstAtLeast(pos, t / factor % gif.imageCount.value + 1) < |pos|
  {
    GifSchedule.OrderAscends(pos, order);
  }

  /** The loops done, whatever was reported of them and whatever count is left. */
  predicate Paced(v: View, gif: Gif, k: nat, done: nat)
    requires Playable(gif)
  {
    InLoop(v.(reports := Repeat(Looped, done), loops := -1), gif, k, done)
  }

  /** Only the end of a loop looks at the count and reports. */
  lemma StepAside(v: View, gif: Gif, reports: seq<Report>)
    requires Playable(gif) && v.displaying && v.sync < gif.factor && v.index < gif.imageCount.value && v.loops < -1
    ensures var v1, w1 := Step(v, gif, true, true), Step(v.(reports := reports, loops := -1), gif, true, true);
      && v1.displaying && v1.sync == w1.sync && v1.index == w1.index && v1.shown == w1.shown && w1.displaying
      && (v.sync + 1 < gif.factor || v.index + 1 < gif.imageCount.value ==> v1.reports == v.reports && v1.loops == v.loops)
      && (v.sync + 1 == gif.factor && v.index + 1 == gif.imageCount.value ==>
            v1.reports == v.reports + [Stopped] && v1.loops == v.loops - 1)
  {
    hide FrameAt;
    if v.sync + 1 < gif.factor {
      ModSmall(v.sync + 1, gif.factor);
    } else if v.index + 1 < gif.imageCount.value {
      ModSmall(v.index + 1, gif.imageCount.value);
    }
  }

  /** A count below -1 never stops the view either; but it counts down, and every loop is reported as a stop. */
  lemma {:induction false} NegativeCountPlaysOn(gif: Gif, count: int, k: nat) returns (done: nat)
    requires Playable(gif) && count < -1
    ensures var v := Run(PLAYING.(loops := count), gif, k);
      Paced(v, gif, k, done) && v.displaying && v.loops == count - done && v.reports == Repeat(Stopped, done)
    decreases k
  {
    hide InLoop, Step;
    if k == 0 {
      done := 0;
      StartsInLoop(gif, -1);
      assert PLAYING.(loops := count, reports := Repeat(Looped, 0)) == PLAYING.(loops := count);
    } else {
      done := NegativeCountPlaysOn(gif, count, k - 1);
      var v := Run(PLAYING.(loops := count), gif, k - 1);
      var w := v.(reports := Repeat(Looped, done), loops := -1);
      InLoopBounds(w, gif, k - 1, done);
      StepAside(v, gif, w.reports);
      var v1, w1 := Step(v, gif, true, true), Step(w, gif, true, true);
      if v.sync + 1 < gif.factor || v.index + 1 < gif.imageCount.value {
        StepsOn(w, gif, k - 1, done);
        InLoopReports(w1, gif, k, done);
        assert v1.(reports := Repeat(Looped, done), loops := -1) == w1;
      } else {
        LoopEnds(w, gif, k - 1, done);
        InLoopReports(w1, gif, k, done + 1);
        assert v1.(reports := Repeat(Looped, done + 1), loops := -1) == w1;
        assert Repeat(Stopped, done) + [Stopped] == Repeat(Stopped, done + 1);
        done := done + 1;
      }
    }
  }

  lemma InLoopReports(v: View, gif: Gif, k: nat, done: nat)
    requires Playable(gif) && InLoop(v, gif, k, done)
    ensures v.reports == Repeat(Looped, done) && v.displaying
  {
  }

  // ---------------------------------------------------------------- interruptions

  /** Whether the view is on screen, and whether it is set to play, at a tick. */
  datatype Tick = Tick(onScreen: bool, playing: bool)

  function RunThrough(v: View, gif: Gif, ticks: seq<Tick>): View {
    if |ticks| == 0 then v
    else
      var last := ticks[|ticks| - 1];
      Step(RunThrough(v, gif, ticks[..|ticks| - 1]), gif, last.onScreen, last.playing)
  }

  /** How many of the ticks show a frame: the first, and each that follows one on screen and playing. */
  function Showing(ticks: seq<Tick>): nat {
    if |ticks| == 0 then 0
    else
      var n := |ticks| - 1;
      Showing(ticks[..n]) + (if n == 0 || (ticks[n - 1].onScreen && ticks[n - 1].playing) then 1 else 0)
  }

  ghost predicate InSomeLoopAt(v: View, gif: Gif, k: nat)
    requires Playable(gif)
  {
    exists d: nat :: InLoop(v, gif, k, d)
  }

  /** A view that goes off screen or is paused shows one frame more and stops; later it goes on from there. */
  lemma {:induction false} InterruptedStep(v: View, gif: Gif, k: nat, done: nat, tick: Tick)
    requires Playable(gif) && InLoop(v.(displaying := true), gif, k, done) && v.loops == -1
    ensures var v1 := Step(v, gif, tick.onScreen, tick.playing);
      && v1.loops == -1 && v1.displaying == (tick.onScreen && tick.playing)
      && InSomeLoopAt(v1.(displaying := true), gif, if v.displaying then k + 1 else k)
  {
    hide InLoop, FrameAt, Advance;
    var w := v.(displaying := true);
    InLoopBounds(w, gif, k, done);
    var w1 := Step(w, gif, true, true);
    if w.sync + 1 < gif.factor || w.index + 1 < gif.imageCount.value {
      StepsOn(w, gif, k, done);
      assert InLoop(w1, gif, k + 1, done);
    } else {
      LoopEnds(w, gif, k, done);
      assert InLoop(w1, gif, k + 1, done + 1);
    }
    var v1 := Step(v, gif, tick.onScreen, tick.playing);
    if v.displaying {
      assert v == w && w1.loops == -1;
      InLoopDisplays(w1, gif, k + 1);
      assert v1.(displaying := true) == w1;
    } else {
      assert v1.(displaying := true) == w;
      assert InLoop(v1.(displaying := true), gif, k, done);
    }
  }

  lemma InLoopDisplays(v: View, gif: Gif, k: nat)
    requires Playable(gif) && InSomeLoopAt(v, gif, k)
    ensures v.displaying
  {
  }

  /**
    A view that loops for ever and is taken off screen, paused and resumed in any way skips no
    frame and repeats none: the frames shown are those due in the order they are due, one for
    each tick that shows one, and the loops are reported as if nothing had happened.
   */
  lemma {:induction false} InterruptionsSkipNothing(gif: Gif, ticks: seq<Tick>) returns (done: nat)
    requires Playable(gif)
    ensures var v := RunThrough(PLAYING.(loops := -1), gif, ticks);
      && InLoop(v.(displaying := true), gif, Showing(ticks), done) && v.loops == -1
      && v.displaying == (|ticks| == 0 || (ticks[|ticks| - 1].onScreen && ticks[|ticks| - 1].playing))
    decreases |ticks|
  {
    hide InLoop, Step;
    if |ticks| == 0 {
      done := 0;
      StartsInLoop(gif, -1);
    } else {
      var before := ticks[..|ticks| - 1];
      done := InterruptionsSkipNothing(gif, before);
      var v := RunThrough(PLAYING.(loops := -1), gif, before);
      InterruptedStep(v, gif, Showing(before), done, ticks[|ticks| - 1]);
      var v1 := RunThrough(PLAYING.(loops := -1), gif, ticks);
      done :| InLoop(v1.(displaying := true), gif, Showing(ticks), done);
    }
  }

  /** A GIF without a positive factor or image count stays at its image, shows nothing outside its schedule, and ends no loop. */
  lemma StandsStill(v: View, gif: Gif, onScreen: bool, playing: bool)
    requires gif.factor == 0 || gif.imageCount.None? || gif.imageCount.value <= 0
    ensures var v1 := Step(v, gif, onScreen, playing);
      && v1.index == v.index && v1.loops == v.loops && v1.reports == v.reports
      && v1.shown == (if v.displaying then v.shown + [if v.index < |gif.order| then Some(gif.order[v.index]) else None] else v.shown)
      && v1.displaying == (v.loops != 0 && onScreen && playing)
      && (gif.factor == 0 ==> v1.sync == v.sync)
  {
  }
}
