/** One iteration of the wand's main loop (src/main.c, the body of `while(1)`):
    shift the new jerk value into the averaging window, update the direction,
    the time of the last movement and the message column from the sign of the
    averaged jerk, time out to rest when the wand has stopped, and fill the
    strip with the colour of the direction.

    Floating point is abstracted away: the acceleration and jerk values are of
    an opaque type `D`, and the step is told the sign of the averaged jerk.
 */
module WandLoop {
  import opened NeoPixels

  /** Values of a C `uint64_t`. */
  const U64Modulus: int := 0x1_0000_0000_0000_0000
  type U64 = x: int | 0 <= x < U64Modulus

  /** A direction is stale after half a second without a movement (`1000 * 500`). */
  const DirectionTimeoutUs: U64 := 500000

  /** Width of the jerk averaging window. */
  const JerkWindow: nat := 50

  /** Characters in the message. */
  const MessageLen: nat := 3

  /** Columns of the message; the width of a character comes from the font. */
  function MessageLenColumns(charWidth: nat): nat
  {
    MessageLen * charWidth
  }

  /** Colour of the strip at rest (after a timeout). */
  const RestColor: Word := Urgb(0, 0, 15)
  /** Colour while the wand moves in the negative direction. */
  const NegativeColor: Word := Urgb(255, 0, 0)
  /** Colour while the wand moves in the positive direction. */
  const PositiveColor: Word := Urgb(0, 255, 0)

  /** On the wire (green, red, blue) the direction colours are pure red and
      pure green, and the rest colour is dim blue. */
  lemma ColorsOnTheWire()
    ensures PixelBytes(NegativeColor) == [0, 255, 0]
    ensures PixelBytes(PositiveColor) == [255, 0, 0]
    ensures PixelBytes(RestColor) == [0, 0, 15]
  {
    UrgbWireOrder(255, 0, 0);
    UrgbWireOrder(0, 255, 0);
    UrgbWireOrder(0, 0, 15);
  }

  /** `a - b` on `uint64_t`: wraps around below zero. */
  function WrapSub(a: U64, b: U64): (d: U64)
    ensures b <= a ==> d == a - b
    ensures a < b ==> d == U64Modulus - (b - a)
  {
    (a - b) % U64Modulus
  }

  /** The sign of the averaged jerk. `Zero` also covers a NaN average, for
      which both `< 0` and `> 0` are false. */
  datatype JerkSign = Negative | Zero | Positive

  /** Variables the loop carries from one iteration to the next. */
  datatype WandState<D> = WandState(
    jerkHistory: seq<D>,    // most recent jerk first
    dir: int,               // -1, 0 or 1
    lastMovedTimeUs: U64,
    messageIndex: int,      // -1 while at rest
    prevNow: U64,
    prevAccel: D)

  /** The state entering the loop: a zeroed window, at rest, no movement yet. */
  function Init<D>(zero: D): (s: WandState<D>)
    ensures |s.jerkHistory| == JerkWindow
    ensures forall i :: 0 <= i < JerkWindow ==> s.jerkHistory[i] == zero
    ensures s.dir == 0 && s.lastMovedTimeUs == 0 && s.messageIndex == -1
    ensures s.prevNow == 0 && s.prevAccel == zero
  {
    WandState(seq(JerkWindow, _ => zero), 0, 0, -1, 0, zero)
  }

  /** The history after pushing `x`: `x` in front, everything else moved back
      one place, the oldest entry dropped. */
  function Shift<T>(h: seq<T>, x: T): (r: seq<T>)
    requires |h| == JerkWindow
    ensures |r| == JerkWindow
    ensures r[0] == x
    ensures forall i :: 1 <= i < JerkWindow ==> r[i] == h[i - 1]
  {
    [x] + h[..JerkWindow - 1]
  }

  /** The window shift as the loop performs it, from the back to the front,
      followed by storing the new value in slot 0. */
  method ShiftHistory<T>(h: seq<T>, x: T) returns (r: seq<T>)
    requires |h| == JerkWindow
    ensures r == Shift(h, x)
  {
    r := h;
    var i := JerkWindow - 1;
    while i > 0
      invariant 0 <= i < JerkWindow
      invariant |r| == JerkWindow
      invariant forall k :: 0 <= k <= i ==> r[k] == h[k]
      invariant forall k :: i < k < JerkWindow ==> r[k] == h[k - 1]
    {
      r := r[i := r[i - 1]];
      i := i - 1;
    }
    r := r[0 := x];
  }

  /** The timeout test: the last movement lies before `now - 500000`, computed
      with `uint64_t` wrap-around. */
  predicate TimedOut(lastMovedTimeUs: U64, now: U64)
  {
    lastMovedTimeUs < WrapSub(now, DirectionTimeoutUs)
  }

  /** When the last movement is not in the future, the test fires exactly when
      more than half a second has passed, or when `now` itself is below half a
      second, where the subtraction wraps to a huge value. */
  lemma TimedOutIff(lastMovedTimeUs: U64, now: U64)
    requires lastMovedTimeUs <= now
    ensures TimedOut(lastMovedTimeUs, now)
            <==> now < DirectionTimeoutUs || now - lastMovedTimeUs > DirectionTimeoutUs
  {
  }

  /** The fill the direction display asks for: red for -1, green for 1,
      nothing at rest. */
  function DirectionFill(dir: int): (fills: seq<Word>)
    ensures dir == -1 ==> fills == [Urgb(255, 0, 0)]
    ensures dir == 1 ==> fills == [Urgb(0, 255, 0)]
    ensures dir != -1 && dir != 1 ==> fills == []
  {
    if dir == -1 then [NegativeColor]
    else if dir == 1 then [PositiveColor]
    else []
  }

  /** What one iteration leaves behind: the next state and the colours the
      strip was filled with, in order. */
  datatype StepResult<D> = StepResult(state: WandState<D>, fills: seq<Word>)

  /** One iteration of the loop at time `now`, with the new acceleration
      sample, the jerk computed from it, and the sign of the averaged jerk. */
  function Step<D>(s: WandState<D>, charWidth: nat, now: U64, accel: D, jerk: D, sign: JerkSign)
    : (r: StepResult<D>)
    requires |s.jerkHistory| == JerkWindow
    ensures |r.state.jerkHistory| == JerkWindow
    ensures r.state.jerkHistory[0] == jerk
    ensures forall i :: 1 <= i < JerkWindow ==> r.state.jerkHistory[i] == s.jerkHistory[i - 1]
    // movement in the negative direction
    ensures sign == Negative ==>
      && r.state.dir == -1
      && r.state.lastMovedTimeUs == now
      && r.state.messageIndex == (if s.messageIndex == -1 then MessageLenColumns(charWidth) - 1 else s.messageIndex)
      && r.fills == [NegativeColor]
    // movement in the positive direction
    ensures sign == Positive ==>
      && r.state.dir == 1
      && r.state.lastMovedTimeUs == now
      && r.state.messageIndex == (if s.messageIndex == -1 then 0 else s.messageIndex)
      && r.fills == [PositiveColor]
    // no movement for too long: back to rest
    ensures sign == Zero && TimedOut(s.lastMovedTimeUs, now) ==>
      && r.state.dir == 0
      && r.state.lastMovedTimeUs == s.lastMovedTimeUs
      && r.state.messageIndex == -1
      && r.fills == [RestColor]
    // no movement, not yet stale: the direction is kept and shown again
    ensures sign == Zero && !TimedOut(s.lastMovedTimeUs, now) ==>
      && r.state.dir == s.dir
      && r.state.lastMovedTimeUs == s.lastMovedTimeUs
      && r.state.messageIndex == s.messageIndex
      && r.fills == DirectionFill(s.dir)
    ensures r.state.prevNow == now && r.state.prevAccel == accel
  {
    var history := Shift(s.jerkHistory, jerk);
    var columns := MessageLenColumns(charWidth);
    var moved :=
      match sign
      case Negative =>
        s.(dir := -1, lastMovedTimeUs := now,
           messageIndex := if s.messageIndex == -1 then columns - 1 else s.messageIndex)
      case Positive =>
        s.(dir := 1, lastMovedTimeUs := now,
           messageIndex := if s.messageIndex == -1 then 0 else s.messageIndex)
      case Zero =>
        if TimedOut(s.lastMovedTimeUs, now) then s.(dir := 0, messageIndex := -1) else s;
    var restFill := if sign == Zero && TimedOut(s.lastMovedTimeUs, now) then [RestColor] else [];
    StepResult(moved.(jerkHistory := history, prevNow := now, prevAccel := accel),
               restFill + DirectionFill(moved.dir))
  }

  /** The invariant of the loop's variables: the window keeps its width, the
      direction is -1, 0 or 1, and the message index is -1 exactly at rest and
      otherwise one of the two columns a movement restarts from, both in range. */
  predicate Valid<D>(s: WandState<D>, charWidth: nat)
  {
    && |s.jerkHistory| == JerkWindow
    && -1 <= s.dir <= 1
    && (s.dir == 0 <==> s.messageIndex == -1)
    && (s.messageIndex == -1 || 0 <= s.messageIndex < MessageLenColumns(charWidth))
    && (s.messageIndex == -1 || s.messageIndex == 0 || s.messageIndex == MessageLenColumns(charWidth) - 1)
  }

  lemma InitValid<D>(zero: D, charWidth: nat)
    ensures Valid(Init(zero), charWidth)
  {
  }

  lemma StepPreservesValid<D>(s: WandState<D>, charWidth: nat, now: U64, accel: D, jerk: D, sign: JerkSign)
    requires charWidth > 0
    requires Valid(s, charWidth)
    ensures Valid(Step(s, charWidth, now, accel, jerk, sign).state, charWidth)
  {
  }

  /** After every step the strip shows the colour of the direction: red for
      -1, green for 1, and at rest at most the rest colour. */
  lemma StepFillMatchesDirection<D>(s: WandState<D>, charWidth: nat, now: U64, accel: D, jerk: D, sign: JerkSign)
    requires |s.jerkHistory| == JerkWindow
    ensures var r := Step(s, charWidth, now, accel, jerk, sign);
      && (r.state.dir == -1 ==> r.fills == [NegativeColor])
      && (r.state.dir == 1 ==> r.fills == [PositiveColor])
      && (r.state.dir == 0 ==> r.fills == [] || r.fills == [RestColor])
  {
  }

  /** One poll of the sensor as the loop sees it. */
  datatype Sample<D> = Sample(now: U64, accel: D, jerk: D, sign: JerkSign)

  /** The state after running the loop over `samples`, in order. */
  function Run<D>(s: WandState<D>, charWidth: nat, samples: seq<Sample<D>>): (t: WandState<D>)
    requires |s.jerkHistory| == JerkWindow
    ensures |t.jerkHistory| == JerkWindow
    decreases |samples|
  {
    if |samples| == 0 then s
    else
      var x := samples[0];
      Run(Step(s, charWidth, x.now, x.accel, x.jerk, x.sign).state, charWidth, samples[1..])
  }

  /** Every state the loop reaches from a valid one is valid. */
  lemma {:induction false} RunPreservesValid<D>(s: WandState<D>, charWidth: nat, samples: seq<Sample<D>>)
    requires charWidth > 0
    requires Valid(s, charWidth)
    ensures Valid(Run(s, charWidth, samples), charWidth)
    decreases |samples|
  {
    if |samples| > 0 {
      var x := samples[0];
      StepPreservesValid(s, charWidth, x.now, x.accel, x.jerk, x.sign);
      RunPreservesValid(Step(s, charWidth, x.now, x.accel, x.jerk, x.sign).state, charWidth, samples[1..]);
    }
  }

  /** The clock never runs backwards over a run of samples that starts at `t`. */
  predicate ClockFrom<D>(t: U64, samples: seq<Sample<D>>)
  {
    && (|samples| > 0 ==> t <= samples[0].now)
    && forall i :: 0 < i < |samples| ==> samples[i - 1].now <= samples[i].now
  }

  /** With a monotonic clock, the last movement is never later than the
      previous iteration's time. */
  lemma {:induction false} RunKeepsLastMovedPast<D>(s: WandState<D>, charWidth: nat, samples: seq<Sample<D>>)
    requires |s.jerkHistory| == JerkWindow
    requires s.lastMovedTimeUs <= s.prevNow
    requires ClockFrom(s.prevNow, samples)
    ensures var t := Run(s, charWidth, samples); t.lastMovedTimeUs <= t.prevNow
    decreases |samples|
  {
    if |samples| > 0 {
      var x := samples[0];
      assert s.prevNow <= x.now;
      var s' := Step(s, charWidth, x.now, x.accel, x.jerk, x.sign).state;
      assert ClockFrom(s'.prevNow, samples[1..]) by {
        forall i | 0 < i < |samples[1..]|
          ensures samples[1..][i - 1].now <= samples[1..][i].now
        {
          assert samples[1..][i - 1] == samples[i];
        }
      }
      RunKeepsLastMovedPast(s', charWidth, samples[1..]);
    }
  }

  /** Because `now - 500000` wraps around, an iteration without movement during
      the first half second always takes the timeout branch, provided the last
      movement is not in the future. */
  lemma EarlyStepTimesOut<D>(s: WandState<D>, charWidth: nat, now: U64, accel: D, jerk: D)
    requires |s.jerkHistory| == JerkWindow
    requires s.lastMovedTimeUs <= now < DirectionTimeoutUs
    ensures var r := Step(s, charWidth, now, accel, jerk, Zero);
      r.state.dir == 0 && r.state.messageIndex == -1 && r.fills == [RestColor]
  {
    TimedOutIff(s.lastMovedTimeUs, now);
  }
}
