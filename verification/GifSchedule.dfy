/**
  Resampling of a GIF's frame delays to display ticks (`calculateFrameDelay`), over exact reals.
 */
module GifSchedule {
  import opened Bytes

  /** The candidate numbers of ticks per image, coarsest first. */
  function Factors(proMotion: bool): (fs: seq<nat>)
    ensures |fs| > 0 && forall i :: 0 <= i < |fs| ==> fs[i] > 0
  {
    (if proMotion then [120] else []) + [60, 30, 20, 15, 12, 10, 6, 5, 4, 3, 2, 1]
  }

  function MaxRate(proMotion: bool): nat {
    if proMotion then 120 else 60
  }

  /** The time of one image for a candidate, as the code computes it from whole refresh rates. */
  function DelayTime(proMotion: bool, i: nat): real
    requires i < |Factors(proMotion)|
  {
    var rate := MaxRate(proMotion) / Factors(proMotion)[i];
    if rate == 0 then 0.0 else (MaxRate(proMotion) / 60) as real / rate as real
  }

  lemma Divides60(f: nat)
    requires f in [60, 30, 20, 15, 12, 10, 6, 5, 4, 3, 2, 1]
    ensures 60 / f * f == 60
  {
  }

  lemma Divides120(f: nat)
    requires f > 0 && 60 / f * f == 60
    ensures 120 / f * f == 120
  {
    var q := 60 / f;
    assert 120 == (2 * q) * f;
    assert 120 / f >= 2 * q;
    assert (120 / f) * f <= 120;
  }

  lemma FactorDivides(proMotion: bool, i: nat)
    requires i < |Factors(proMotion)|
    ensures MaxRate(proMotion) / Factors(proMotion)[i] * Factors(proMotion)[i] == MaxRate(proMotion)
  {
    var f := Factors(proMotion)[i];
    if f != 120 {
      assert f in [60, 30, 20, 15, 12, 10, 6, 5, 4, 3, 2, 1];
      Divides60(f);
      Divides120(f);
    }
  }

  lemma Ratio(a: int, rate: int, f: int)
    requires rate > 0 && rate * f == 60 * a
    ensures a as real / rate as real == f as real / 60.0
  {
    assert rate as real * f as real == 60.0 * a as real;
    assert a as real / rate as real == (rate as real * f as real / 60.0) / rate as real;
  }

  /** On either display an image of factor `f` stands for `f` sixtieths of a second. */
  lemma DelayTimeIsFactor(proMotion: bool, i: nat)
    requires i < |Factors(proMotion)|
    ensures DelayTime(proMotion, i) == Factors(proMotion)[i] as real / 60.0 > 0.0
  {
    hide Factors;
    FactorDivides(proMotion, i);
    Ratio(MaxRate(proMotion) / 60, MaxRate(proMotion) / Factors(proMotion)[i], Factors(proMotion)[i]);
  }

  /** The candidates are the divisors of sixty, the coarsest first, and on the faster display 120 before them. */
  lemma FactorsAre(proMotion: bool, f: nat)
    ensures f in Factors(proMotion) <==> (f > 0 && 60 % f == 0) || (proMotion && f == 120)
    ensures forall i, j :: 0 <= i < j < |Factors(proMotion)| ==> Factors(proMotion)[i] > Factors(proMotion)[j]
  {
    if f > 60 {
      ModSmall(60, f);
    }
  }

  // ---------------------------------------------------------------- positions

  /** `Int(x)`: towards zero. */
  function Truncate(x: real): int {
    if x >= 0.0 then x.Floor else -((-x).Floor)
  }

  /** When frame `i` ends. */
  function EndTime(delays: seq<real>, i: nat): real
    requires i < |delays|
  {
    if i == 0 then delays[0] else EndTime(delays, i - 1) + delays[i]
  }

  /** The whole image slots that have passed when each frame ends. */
  function Positions(delays: seq<real>, delayTime: real): (pos: seq<int>)
    requires delayTime > 0.0
    ensures |pos| == |delays|
  {
    seq(|delays|, i requires 0 <= i < |delays| => Truncate(EndTime(delays, i) / delayTime))
  }

  function Total(delays: seq<real>): real {
    if |delays| == 0 then 0.0 else delays[0] + Total(delays[1..])
  }

  lemma {:induction false} TotalMore(delays: seq<real>, x: real)
    ensures Total(delays + [x]) == Total(delays) + x
    decreases |delays|
  {
    if |delays| > 0 {
      assert (delays + [x])[1..] == delays[1..] + [x];
      TotalMore(delays[1..], x);
    }
  }

  lemma {:induction false} EndTimeIsTotal(delays: seq<real>, i: nat)
    requires i < |delays|
    ensures EndTime(delays, i) == Total(delays[..i + 1])
    decreases i
  {
    assert delays[..i + 1] == delays[..i] + [delays[i]];
    TotalMore(delays[..i], delays[i]);
    if i > 0 {
      EndTimeIsTotal(delays, i - 1);
    }
  }

  /** A frame's position counts the whole images that fit in the time of all frames up to it; of a negative time, those that fit in its opposite. */
  lemma PositionIs(delays: seq<real>, delayTime: real, i: nat)
    requires delayTime > 0.0 && i < |delays|
    ensures var end, p := Total(delays[..i + 1]), Positions(delays, delayTime)[i];
      if end >= 0.0 then Holds(end, delayTime, p) else Holds(-end, delayTime, -p)
  {
    hide Truncate, Total, Holds;
    EndTimeIsTotal(delays, i);
    var end := EndTime(delays, i);
    assert Positions(delays, delayTime)[i] == Truncate(end / delayTime);
    TruncateOpposite(end / delayTime);
    Opposite(end, delayTime);
    FloorHolds(if end >= 0.0 then end else -end, delayTime);
  }

  /** Exactly `n` whole images of this length fit in the time. */
  predicate Holds(time: real, length: real, n: int) {
    n >= 0 && 0.0 <= time - n as real * length < length
  }

  lemma FloorHolds(time: real, length: real)
    requires time >= 0.0 && length > 0.0
    ensures time / length >= 0.0 && Holds(time, length, (time / length).Floor)
  {
    var x := time / length;
    assert x * length == time;
    if x < 0.0 {
      ScaledBelow(x, 0.0, length);
    }
    var part := x - x.Floor as real;
    assert part * length == x * length - x.Floor as real * length;
    Scaled(0.0, part, length);
    ScaledBelow(part, 1.0, length);
  }

  lemma Opposite(time: real, length: real)
    requires length > 0.0
    ensures (-time) / length == -(time / length) && (time / length < 0.0 <==> time < 0.0)
  {
    var x := time / length;
    assert x * length == time;
    if x < 0.0 {
      ScaledBelow(x, 0.0, length);
    } else {
      Scaled(0.0, x, length);
    }
  }

  lemma TruncateOpposite(x: real)
    ensures Truncate(x) == if x >= 0.0 then x.Floor else -(-x).Floor
  {
  }

  lemma Scaled(a: real, b: real, d: real)
    requires a <= b && d > 0.0
    ensures a * d <= b * d
  {
  }

  lemma ScaledBelow(a: real, b: real, d: real)
    requires a < b && d > 0.0
    ensures a * d < b * d
  {
  }

  predicate NonNegative(delays: seq<real>) {
    forall i :: 0 <= i < |delays| ==> delays[i] >= 0.0
  }

  predicate Ascending(pos: seq<int>) {
    forall i, j :: 0 <= i <= j < |pos| ==> 0 <= pos[i] <= pos[j]
  }

  lemma {:induction false} EndTimeGrows(delays: seq<real>, i: nat, j: nat)
    requires NonNegative(delays) && i <= j < |delays|
    ensures 0.0 <= EndTime(delays, i) <= EndTime(delays, j)
    decreases j
  {
    if j > 0 {
      if i == j {
        EndTimeGrows(delays, i - 1, j - 1);
      } else {
        EndTimeGrows(delays, i, j - 1);
      }
    }
  }

  lemma DivideGrows(x: real, y: real, d: real)
    requires 0.0 <= x <= y && d > 0.0
    ensures 0.0 <= x / d <= y / d && 0 <= (x / d).Floor <= (y / d).Floor
  {
    assert y / d - x / d == (y - x) / d;
  }

  lemma PositionsAscend(delays: seq<real>, delayTime: real)
    requires NonNegative(delays) && delayTime > 0.0
    ensures Ascending(Positions(delays, delayTime))
  {
    var pos := Positions(delays, delayTime);
    forall i, j | 0 <= i <= j < |pos|
      ensures 0 <= pos[i] <= pos[j]
    {
      EndTimeGrows(delays, i, j);
      DivideGrows(EndTime(delays, i), EndTime(delays, j), delayTime);
    }
  }

  // ---------------------------------------------------------------- which frame a slot shows

  /** The first frame that ends in slot `t` or later; the number of frames if none does. */
  function FirstAtLeast(pos: seq<int>, t: int): (i: nat)
    ensures i <= |pos| && (i < |pos| ==> pos[i] >= t) && forall j :: 0 <= j < i ==> pos[j] < t
  {
    if |pos| == 0 || pos[0] >= t then 0 else 1 + FirstAtLeast(pos[1..], t)
  }

  lemma FirstIs(pos: seq<int>, t: int, i: nat)
    requires i < |pos| && pos[i] >= t && forall j :: 0 <= j < i ==> pos[j] < t
    ensures FirstAtLeast(pos, t) == i
  {
  }

  /** Slot t shows the first frame with position at least t, for every slot up to the last position. */
  predicate IsOrder(pos: seq<int>, order: seq<nat>) {
    && |order| == (if |pos| > 0 && pos[|pos| - 1] > 0 then pos[|pos| - 1] else 0)
    && forall t :: 0 <= t < |order| ==> order[t] == FirstAtLeast(pos, t + 1)
  }

  /** The frames lost: those that end in the same slot as their predecessor, or before the first slot. */
  function Lost(pos: seq<int>): nat
    decreases |pos|
  {
    if |pos| == 0 then 0
    else
      var last := |pos| - 1;
      Lost(pos[..last]) + (if pos[last] == (if last == 0 then 0 else pos[last - 1]) then 1 else 0)
  }

  /** The schedule never goes back, and every entry is a frame. */
  lemma OrderAscends(pos: seq<int>, order: seq<nat>)
    requires Ascending(pos) && IsOrder(pos, order)
    ensures forall s, t :: 0 <= s <= t < |order| ==> order[s] <= order[t] < |pos|
  {
    forall s, t | 0 <= s <= t < |order|
      ensures order[s] <= order[t] < |pos|
    {
      var i, j := FirstAtLeast(pos, s + 1), FirstAtLeast(pos, t + 1);
      assert pos[|pos| - 1] >= t + 1;
    }
  }

  /** A frame is shown exactly when it ends in a later slot than its predecessor. */
  lemma ShownIff(pos: seq<int>, order: seq<nat>, j: nat)
    requires Ascending(pos) && IsOrder(pos, order) && j < |pos|
    ensures j in order <==> pos[j] > (if j == 0 then 0 else pos[j - 1])
  {
    var before := if j == 0 then 0 else pos[j - 1];
    if pos[j] > before {
      FirstIs(pos, pos[j], j);
      assert pos[j] <= pos[|pos| - 1];
      assert order[pos[j] - 1] == j;
    }
  }

  function NeverShown(count: nat, order: seq<nat>): set<nat> {
    set j: nat | j < count && j !in order
  }

  lemma {:induction false} LostUpTo(pos: seq<int>, order: seq<nat>, n: nat)
    requires Ascending(pos) && IsOrder(pos, order) && n <= |pos|
    ensures |NeverShown(n, order)| == Lost(pos[..n])
    decreases n
  {
    hide IsOrder;
    if n == 0 {
      assert NeverShown(0, order) == {};
    } else {
      assert pos[n - 1] >= if n == 1 then 0 else pos[n - 2];
      hide Ascending;
      LostUpTo(pos, order, n - 1);
      ShownIff(pos, order, n - 1);
      assert pos[..n][..n - 1] == pos[..n - 1];
      NeverShownStep(n - 1, order);
    }
  }

  lemma NeverShownStep(n: nat, order: seq<nat>)
    ensures NeverShown(n + 1, order) == NeverShown(n, order) + (if n in order then {} else {n})
    ensures |NeverShown(n + 1, order)| == |NeverShown(n, order)| + (if n in order then 0 else 1)
  {
    assert n !in NeverShown(n, order);
  }

  /** The loss count is the number of frames that the schedule never shows. */
  lemma LostIsNeverShown(pos: seq<int>, order: seq<nat>)
    requires Ascending(pos) && IsOrder(pos, order)
    ensures Lost(pos) == |NeverShown(|pos|, order)|
  {
    LostUpTo(pos, order, |pos|);
    assert pos[..|pos|] == pos;
  }

  // ---------------------------------------------------------------- the computation

  /** Whether a candidate's losses stay within the budget for a level of integrity from 0 to 1. */
  predicate WithinBudget(pos: seq<int>, level: real) {
    Lost(pos) as real <= |pos| as real * (1.0 - level)
  }

  function Clamp(level: real): real {
    if level > 1.0 then 1.0 else if level < 0.0 then 0.0 else level
  }

  lemma {:induction false} LostAtMostAll(pos: seq<int>)
    ensures Lost(pos) <= |pos|
    decreases |pos|
  {
    if |pos| > 0 {
      LostAtMostAll(pos[..|pos| - 1]);
    }
  }

  /** At full integrity no frame may be lost, at none all may be; levels beyond are taken as these, and a higher one never allows more. */
  lemma BudgetEnds(pos: seq<int>, level: real, higher: real)
    ensures WithinBudget(pos, 1.0) <==> Lost(pos) == 0
    ensures WithinBudget(pos, 0.0)
    ensures level <= higher && WithinBudget(pos, Clamp(higher)) ==> WithinBudget(pos, Clamp(level))
    ensures (level >= 1.0 ==> Clamp(level) == 1.0) && (level <= 0.0 ==> Clamp(level) == 0.0) && (0.0 <= level <= 1.0 ==> Clamp(level) == level)
  {
    hide Lost;
    LostAtMostAll(pos);
    if level <= higher {
      LessBudget(|pos| as real, Clamp(level), Clamp(higher));
    }
  }

  lemma LessBudget(n: real, level: real, higher: real)
    requires level <= higher && n >= 0.0
    ensures n * (1.0 - higher) <= n * (1.0 - level)
  {
  }

  class GifImage {
    var imageCount: Option<int>
    var displayRefreshFactor: nat
    var displayOrder: seq<nat>

    constructor ()
    {
      imageCount := None;
      displayRefreshFactor := 0;
      displayOrder := [];
    }

    /**
      `calculateFrameDelay`: the coarsest candidate whose losses are within the budget, or the
      finest one. `chosen` is its index.
     */
    method CalculateFrameDelay(delaysArray: seq<real>, levelOfIntegrity: real, proMotion: bool) returns (ghost chosen: nat)
      modifies this
      ensures var fs := Factors(proMotion);
        && chosen < |fs| && displayRefreshFactor == fs[chosen]
        && (chosen < |fs| - 1 ==> WithinBudget(Positions(delaysArray, fs[chosen] as real / 60.0), Clamp(levelOfIntegrity)))
        && forall i :: 0 <= i < chosen ==> !WithinBudget(Positions(delaysArray, fs[i] as real / 60.0), Clamp(levelOfIntegrity))
      ensures var pos := Positions(delaysArray, displayRefreshFactor as real / 60.0);
        && imageCount == (if |pos| == 0 then None else Some(pos[|pos| - 1]))
        && (NonNegative(delaysArray) ==> IsOrder(pos, displayOrder))
    {
      hide Positions, Factors, DelayTime, IsOrder, WithinBudget;
      var level := Clamp(levelOfIntegrity);
      var fs := Factors(proMotion);
      var delays := Accumulate(delaysArray);
      chosen := 0;
      var i := 0;
      while true
        invariant i < |fs|
        invariant forall k :: 0 <= k < i ==> !WithinBudget(Positions(delaysArray, fs[k] as real / 60.0), level)
        decreases |fs| - i
      {
        DelayTimeIsFactor(proMotion, i);
        var pos := MapPositions(delaysArray, delays, DelayTime(proMotion, i));
        var fits := Fits(pos, level);
        if fits || i == |fs| - 1 {
          Adopt(delaysArray, pos, fs[i]);
          chosen := i;
          return;
        }
        i := i + 1;
      }
    }

    /** The choice of a candidate. */
    method Adopt(ghost delaysArray: seq<real>, pos: seq<int>, factor: nat)
      requires factor > 0 && pos == Positions(delaysArray, factor as real / 60.0)
      modifies this
      ensures displayRefreshFactor == factor && imageCount == (if |pos| == 0 then None else Some(pos[|pos| - 1]))
      ensures NonNegative(delaysArray) ==> IsOrder(pos, displayOrder)
    {
      hide Positions, IsOrder, Ascending, NonNegative;
      imageCount := if |pos| == 0 then None else Some(pos[|pos| - 1]);
      displayRefreshFactor := factor;
      displayOrder := BuildOrder(pos, if |pos| == 0 then 0 else pos[|pos| - 1]);
      if NonNegative(delaysArray) {
        PositionsAscend(delaysArray, factor as real / 60.0);
      }
    }
  }

  method Fits(pos: seq<int>, level: real) returns (fits: bool)
    ensures fits <==> WithinBudget(pos, level)
  {
    var lost := CountLost(pos);
    fits := lost as real <= |pos| as real * (1.0 - level);
  }

  /** The running sums, added up in place. */
  method Accumulate(delaysArray: seq<real>) returns (delays: seq<real>)
    ensures |delays| == |delaysArray| && forall i :: 0 <= i < |delays| ==> delays[i] == EndTime(delaysArray, i)
  {
    delays := delaysArray;
    var i := 1;
    while i < |delays|
      invariant 1 <= i && |delays| == |delaysArray|
      invariant forall k :: 0 <= k < i && k < |delays| ==> delays[k] == EndTime(delaysArray, k)
      invariant forall k :: i <= k < |delays| ==> delays[k] == delaysArray[k]
    {
      delays := delays[i := delays[i] + delays[i - 1]];
      i := i + 1;
    }
  }

  method MapPositions(ghost delaysArray: seq<real>, delays: seq<real>, delayTime: real) returns (pos: seq<int>)
    requires delayTime > 0.0 && |delays| == |delaysArray|
    requires forall i :: 0 <= i < |delays| ==> delays[i] == EndTime(delaysArray, i)
    ensures pos == Positions(delaysArray, delayTime)
  {
    pos := seq(|delays|, i requires 0 <= i < |delays| => Truncate(delays[i] / delayTime));
  }

  method CountLost(pos: seq<int>) returns (lost: nat)
    ensures lost == Lost(pos)
  {
    lost := 0;
    var j := 1;
    while j < |pos|
      invariant 1 <= j && (|pos| == 0 || j <= |pos|)
      invariant |pos| == 0 ==> lost == 0
      invariant |pos| > 0 ==> lost + (if pos[0] == 0 then 1 else 0) == Lost(pos[..j])
    {
      assert pos[..j + 1][..j] == pos[..j];
      if pos[j] == pos[j - 1] {
        lost := lost + 1;
      }
      j := j + 1;
    }
    if |pos| > 0 {
      assert j == |pos| && pos[..j] == pos;
      if pos[0] == 0 {
        lost := lost + 1;
      }
    }
  }

  /** The merge of slots and frames. */
  method BuildOrder(pos: seq<int>, imageCount: int) returns (order: seq<nat>)
    requires imageCount == if |pos| == 0 then 0 else pos[|pos| - 1]
    ensures Ascending(pos) ==> IsOrder(pos, order)
  {
    order := [];
    var oldIndex, newIndex := 0, 1;
    while newIndex <= imageCount && oldIndex < |pos|
      invariant 0 <= oldIndex <= |pos| && newIndex == |order| + 1
      invariant |order| <= (if imageCount > 0 then imageCount else 0)
      invariant forall j :: 0 <= j < oldIndex ==> pos[j] < newIndex || !Ascending(pos)
      invariant forall t :: 0 <= t < |order| ==> order[t] == FirstAtLeast(pos, t + 1) || !Ascending(pos)
      decreases imageCount - newIndex, |pos| - oldIndex
    {
      if newIndex <= pos[oldIndex] {
        if Ascending(pos) {
          FirstIs(pos, newIndex, oldIndex);
        }
        order := order + [oldIndex];
        newIndex := newIndex + 1;
      } else {
        oldIndex := oldIndex + 1;
      }
    }
  }
}
