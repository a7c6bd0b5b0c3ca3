/**
  sketch-02.js: a clock face. Each frame places `tickCount` ticks at evenly
  spaced angles on a ring and `arcCount` arcs around the centre, creating
  the ones a slot does not have yet and drawing every one. A tick waits
  invisibly until a random trial starts it (every start from rest narrows
  it again), then slides from the ring towards the centre while shrinking, and clears
  when its animation completes; with `withAnimationOverride` a running tick
  can be restarted. An arc starts on its first draw and never stops: it
  rotates at a constant rate.

  Sine and cosine are passed in as functions, the random samples as values.
*/
module ClockSketch {
  import opened Wrappers
  import opened Animation
  import opened Random
  import opened Slots

  /** The sketch's `params` object, read by every frame. */
  datatype Params = Params(
    tickCount: nat,
    tickRadius: real,
    tickLength: real,
    tickWidth: real,
    tickChance: real,
    animationLength: real,
    withAnimationOverride: bool,
    arcCount: nat,
    arcMinLength: real,
    arcMaxLength: real,
    arcWidth: real)

  /** The initial values of `params`. */
  const Defaults: Params := Params(81, 900.0, 0.2, 0.01, 0.5, 5.0, true, 10, 30.0, 270.0, 5.0)

  /** `Math.PI`. */
  const Pi: real := 3.141592653589793

  /** `deg2rad`: degrees to radians. */
  function Deg2Rad(deg: real): (rad: real)
    ensures rad * 180.0 == deg * Pi
  {
    (deg / 180.0) * Pi
  }

  // ---------------------------------------------------------------------
  // Ring layout
  // ---------------------------------------------------------------------

  /** The angle of tick `i`: `i` slices of `360 / tickCount` degrees. */
  function TickAngle(tickCount: nat, i: nat): real
    requires tickCount > 0
  {
    Deg2Rad(360.0 / tickCount as real) * i as real
  }

  /**
    The ticks are evenly spaced around the full circle: tick `i` sits at
    `2 * Pi * i / tickCount`, tick 0 at angle 0, and one step further than
    the last tick is a whole turn.
  */
  lemma RingEvenlySpaced(tickCount: nat, i: nat)
    requires tickCount > 0
    ensures TickAngle(tickCount, i) == 2.0 * Pi * i as real / tickCount as real
    ensures TickAngle(tickCount, i + 1) - TickAngle(tickCount, i) == 2.0 * Pi / tickCount as real
    ensures TickAngle(tickCount, 0) == 0.0 && TickAngle(tickCount, tickCount) == 2.0 * Pi
  {
    var n := tickCount as real;
    var slice := Deg2Rad(360.0 / n);
    assert 360.0 / n == 180.0 * (2.0 / n);
    assert slice == 2.0 * Pi / n;
    assert slice * i as real == 2.0 * Pi * i as real / n;
    assert slice * (i + 1) as real == slice * i as real + slice;
    assert slice * n == 2.0 * Pi;
  }

  // ---------------------------------------------------------------------
  // Ticks
  // ---------------------------------------------------------------------

  /** The samples one tick draw may use: for `random.chance` and for `random.range(0.3, 1)`. */
  datatype TickSample = TickSample(chance: real, scale: real)

  predicate IsTickSample(s: TickSample) {
    IsSample(s.chance) && IsSample(s.scale)
  }

  /**
    The start trial of `Tick.draw`: it is run only for an inactive tick or
    when `withAnimationOverride` is set, and succeeds with probability
    `tickChance / tickCount`.
  */
  predicate TickTriggered(t: Timer, u: real, p: Params)
    requires p.tickCount > 0
  {
    (!t.HasAnimation() || p.withAnimationOverride) && Chance(p.tickChance / p.tickCount as real, u)
  }

  /** A successful trial on a running tick happens only under `withAnimationOverride`. */
  lemma RestartNeedsOverride(t: Timer, u: real, p: Params)
    requires p.tickCount > 0 && TickTriggered(t, u, p) && t.HasAnimation()
    ensures p.withAnimationOverride
  {
  }

  /** With `tickChance` at 0 or below no trial succeeds. */
  lemma NoTriggerWithoutChance(t: Timer, u: real, p: Params)
    requires p.tickCount > 0 && p.tickChance <= 0.0 && IsSample(u)
    ensures !TickTriggered(t, u, p)
  {
    var n := p.tickCount as real;
    assert p.tickChance / n <= 0.0 by {
      assert (p.tickChance / n) * n == p.tickChance;
    }
  }

  /**
    The tick's width after a trial: scaled by a factor in [0.3, 1) only when
    the trial starts an inactive tick, so it never grows and never drops
    below 0.3 times what it was.
  */
  function TickWidthStep(w: real, t: Timer, hit: bool, u: real): (w': real)
    requires IsSample(u)
    ensures w' != w ==> hit && !t.HasAnimation()
    ensures w >= 0.0 ==> 0.3 * w <= w' <= w
    ensures w > 0.0 && hit && !t.HasAnimation() ==> w' < w
  {
    if hit && !t.HasAnimation() then ScaledDown(w, u) else w
  }

  /** `w * random.range(0.3, 1)`: between 0.3 times `w` and `w`. */
  function ScaledDown(w: real, u: real): (w': real)
    requires IsSample(u)
    ensures w >= 0.0 ==> 0.3 * w <= w' <= w
    ensures w > 0.0 ==> w' < w
  {
    var factor := Range(0.3, 1.0, u);
    ScaledBetween(w, factor);
    w * factor
  }

  lemma ScaledBetween(w: real, factor: real)
    requires 0.3 <= factor < 1.0
    ensures w >= 0.0 ==> 0.3 * w <= w * factor <= w
    ensures w > 0.0 ==> w * factor < w
  {
    assert w * factor - 0.3 * w == w * (factor - 0.3);
    assert w - w * factor == w * (1.0 - factor);
  }

  /** The timer once the trial is over: a success (re)starts it at `now`. */
  function TickTrigger(t: Timer, hit: bool, now: int): (t': Timer)
    ensures t'.HasAnimation() <==> hit || t.HasAnimation()
    ensures !hit ==> t' == t
    ensures hit ==> t'.HasAnimation() && t'.AnimationElapsed(now) == 0
  {
    if hit then t.StartAnimation(now) else t
  }

  /**
    The timer after one `Tick.draw`: triggered, then cleared if complete.
    A tick triggered this frame survives it; an inactive tick that was not
    triggered stays inactive; an active one is cleared exactly when its
    animation has run its length.
  */
  function TickTimerStep(t: Timer, hit: bool, now: int, p: Params): (t': Timer)
    requires p.animationLength > 0.0
    ensures hit ==> t' == Active(now)
    ensures !hit && !t.HasAnimation() ==> t' == Inactive
    ensures !hit && t.HasAnimation() ==> t' == t || t' == Inactive
    ensures !hit && t.HasAnimation() ==>
              (t' == Inactive <==> t.AnimationElapsed(now) as real >= p.animationLength * MillisPerSecond)
  {
    TickTrigger(t, hit, now).AnimationClearIfDone(now, p.animationLength)
  }

  /** The rectangle a tick draws: its centre, size and rotation. */
  datatype TickMark = TickMark(x: real, y: real, w: real, h: real, rotation: real)

  /**
    Where a running tick is drawn at elapsed fraction `f`: at distance
    `tickRadius * (1 - f)` from the centre along its angle (`sinA`, `cosA`
    being the sine and cosine of `angle`), with its height shrunk by the same
    factor, rotated by `-angle`.
  */
  function TickMarkAt(angle: real, sinA: real, cosA: real, w: real, h: real, f: real, p: Params): (m: TickMark)
    ensures m.w == w && m.rotation == -angle
    ensures f == 0.0 ==> m.x == p.tickRadius * sinA && m.y == p.tickRadius * cosA && m.h == h
    ensures f == 1.0 ==> m.x == 0.0 && m.y == 0.0 && m.h == 0.0
  {
    var step := 1.0 - f;
    TickMark(p.tickRadius * step * sinA, p.tickRadius * step * cosA, w, h * step, -angle)
  }

  /**
    The tick's distance from the centre is `tickRadius * (1 - f)` whenever
    `sinA` and `cosA` lie on the unit circle.
  */
  lemma TickMarkDistance(angle: real, sinA: real, cosA: real, w: real, h: real, f: real, p: Params)
    requires sinA * sinA + cosA * cosA == 1.0
    ensures var m := TickMarkAt(angle, sinA, cosA, w, h, f, p);
      m.x * m.x + m.y * m.y == (p.tickRadius * (1.0 - f)) * (p.tickRadius * (1.0 - f))
  {
    var r := p.tickRadius * (1.0 - f);
    var m := TickMarkAt(angle, sinA, cosA, w, h, f, p);
    assert m.x == r * sinA && m.y == r * cosA;
    assert m.x * m.x + m.y * m.y == (r * r) * (sinA * sinA + cosA * cosA);
  }

  /** Size, angle and timer of one cached tick. */
  datatype TickState = TickState(w: real, h: real, angle: real, timer: Timer)

  /** A tick: its size, its angle on the ring and its timer. */
  class Tick {
    var w: real
    var h: real
    var angle: real
    var timer: Timer

    function State(): TickState
      reads this
    {
      TickState(w, h, angle, timer)
    }

    /** A new tick, not animating. */
    constructor (w: real, h: real, angle: real)
      ensures this.w == w && this.h == h && this.angle == angle
      ensures timer == Inactive
    {
      this.w, this.h := w, h;
      this.angle := angle;
      timer := Inactive;
    }

    /** `setDimension`. */
    method SetDimension(w: real, h: real)
      modifies this`w, this`h
      ensures this.w == w && this.h == h
    {
      this.w, this.h := w, h;
    }

    /** `setAngle`. */
    method SetAngle(angle: real)
      modifies this`angle
      ensures this.angle == angle
    {
      this.angle := angle;
    }

    /**
      `draw`: run the start trial with the samples `s`, narrowing a tick
      that was inactive; then, if the tick is running, draw it at its
      elapsed fraction and clear a completed timer. An inactive tick draws
      nothing.
    */
    method Draw(now: int, s: TickSample, sin: real -> real, cos: real -> real, p: Params)
      returns (mark: Option<TickMark>)
      requires p.tickCount > 0 && p.animationLength > 0.0 && IsTickSample(s)
      modifies this`w, this`timer
      ensures State() == TickStep(old(State()), now, s, p)
      ensures mark == TickDrawn(old(State()), now, s, sin, cos, p)
    {
      var hit := TickTriggered(timer, s.chance, p);
      if hit {
        if !timer.HasAnimation() {
          w := ScaledDown(w, s.scale);
        }
        timer := timer.StartAnimation(now);
      }
      if timer.HasAnimation() {
        var f := timer.AnimationElapsedPercent(now, p.animationLength);
        mark := Some(TickMarkAt(angle, sin(angle), cos(angle), w, h, f, p));
        timer := timer.AnimationClearIfDone(now, p.animationLength);
      } else {
        mark := None;
      }
    }
  }

  // ---------------------------------------------------------------------
  // Arcs
  // ---------------------------------------------------------------------

  /** The five uniform samples an `Arc` is built from. */
  datatype ArcSample = ArcSample(radius: real, length: real, start: real, toAngle: real, speed: real)

  predicate IsArcSample(s: ArcSample) {
    IsSample(s.radius) && IsSample(s.length) && IsSample(s.start) && IsSample(s.toAngle) && IsSample(s.speed)
  }

  /** What an arc fixes when it is built. */
  datatype ArcShape = ArcShape(radius: real, length: real, start: real, toAngle: real, speed: real)

  /**
    The constructor's sampling: radius in [0.3, 1) of `tickRadius`, start
    in [0, 360), target angle in [-360, 360), speed in [0.01, 0.09), and a
    length drawn from the one-argument range of `arcMinLength * arcMaxLength`,
    that is from [0, arcMinLength * arcMaxLength).
  */
  function SampleArc(s: ArcSample, p: Params): (a: ArcShape)
    requires IsArcSample(s)
    ensures p.tickRadius >= 0.0 ==> 0.3 * p.tickRadius <= a.radius <= p.tickRadius
    ensures p.tickRadius > 0.0 ==> a.radius < p.tickRadius
    ensures 0.0 <= a.start < 360.0
    ensures -360.0 <= a.toAngle < 360.0
    ensures 0.01 <= a.speed < 0.09
    ensures p.arcMinLength * p.arcMaxLength > 0.0 ==> 0.0 <= a.length < p.arcMinLength * p.arcMaxLength
  {
    ArcShape(ScaledDown(p.tickRadius, s.radius),
             Range(0.0, p.arcMinLength * p.arcMaxLength, s.length),
             Range(0.0, 360.0, s.start),
             Range(-360.0, 360.0, s.toAngle),
             Range(0.01, 0.09, s.speed))
  }

  /**
    The length range is not [arcMinLength, arcMaxLength): with the default
    lengths 30 and 270, a middle sample gives 4050 degrees and the lowest
    sample gives 0.
  */
  lemma ArcLengthIsProductRange(s: ArcSample)
    requires IsArcSample(s)
    ensures s.length == 0.5 ==> SampleArc(s, Defaults).length == 4050.0 > Defaults.arcMaxLength
    ensures s.length == 0.0 ==> SampleArc(s, Defaults).length == 0.0 < Defaults.arcMinLength
  {
  }

  /** An arc starts on its first draw and is never cleared. */
  function ArcTimerStep(t: Timer, now: int): (t': Timer)
    ensures t'.HasAnimation()
    ensures t.HasAnimation() ==> t' == t
  {
    if !t.HasAnimation() then t.StartAnimation(now) else t
  }

  /** The timer after an arc is drawn on successive frames at `nows`. */
  function ArcTimerRun(t: Timer, nows: seq<int>): Timer
    decreases |nows|
  {
    if nows == [] then t else ArcTimerRun(ArcTimerStep(t, nows[0]), nows[1..])
  }

  /**
    Once drawn, an arc is active forever, with the start time of its first
    draw.
  */
  lemma {:induction false} ArcActiveForever(t: Timer, nows: seq<int>)
    requires nows != []
    decreases |nows|
    ensures ArcTimerRun(t, nows) == if t.HasAnimation() then t else Active(nows[0])
  {
    if |nows| > 1 {
      ArcActiveForever(ArcTimerStep(t, nows[0]), nows[1..]);
    }
  }

  /** The rotation an arc is drawn with: `toAngle * f * speed`. */
  function ArcRotation(a: ArcShape, t: Timer, now: int, p: Params): real
    requires t.HasAnimation() && p.animationLength > 0.0
  {
    a.toAngle * t.AnimationElapsedPercent(now, p.animationLength) * a.speed
  }

  /**
    An arc's rotation is 0 when the arc starts and grows in proportion to
    the elapsed time, i.e. at the constant rate
    `toAngle * speed / (animationLength * 1000)` per millisecond.
  */
  lemma ArcRotatesSteadily(a: ArcShape, t: Timer, now: int, p: Params)
    requires t.HasAnimation() && p.animationLength > 0.0
    ensures now == t.start ==> ArcRotation(a, t, now, p) == 0.0
    ensures ArcRotation(a, t, now, p) * (p.animationLength * MillisPerSecond)
         == a.toAngle * a.speed * t.AnimationElapsed(now) as real
  {
    var f := t.AnimationElapsedPercent(now, p.animationLength);
    RotationRate(a.toAngle, a.speed, f, p.animationLength * MillisPerSecond);
  }

  lemma RotationRate(toAngle: real, speed: real, f: real, len: real)
    ensures (toAngle * f * speed) * len == toAngle * speed * (f * len)
  {
  }

  /** Shape and timer of one cached arc. */
  datatype ArcState = ArcState(shape: ArcShape, timer: Timer)

  /** One `draw` of an arc in state `a`. */
  function ArcStep(a: ArcState, now: int): ArcState {
    a.(timer := ArcTimerStep(a.timer, now))
  }

  /** The rotation one `draw` of an arc in state `a` shows. */
  function ArcDrawn(a: ArcState, now: int, p: Params): real
    requires p.animationLength > 0.0
  {
    ArcRotation(a.shape, ArcStep(a, now).timer, now, p)
  }

  /** An arc: its sampled shape and its timer. */
  class Arc {
    const radius: real
    const length: real
    const start: real
    const toAngle: real
    const speed: real
    var timer: Timer

    function Shape(): ArcShape {
      ArcShape(radius, length, start, toAngle, speed)
    }

    function State(): ArcState
      reads this
    {
      ArcState(Shape(), timer)
    }

    /** A new arc from the samples `s`, not animating yet. */
    constructor (s: ArcSample, p: Params)
      requires IsArcSample(s)
      ensures Shape() == SampleArc(s, p)
      ensures timer == Inactive
    {
      var a := SampleArc(s, p);
      radius, length, start, toAngle, speed := a.radius, a.length, a.start, a.toAngle, a.speed;
      timer := Inactive;
    }

    /** `draw`: start the timer if it is not running, and rotate by the elapsed fraction. */
    method Draw(now: int, p: Params) returns (rotation: real)
      requires p.animationLength > 0.0
      modifies this`timer
      ensures State() == ArcStep(old(State()), now)
      ensures rotation == ArcDrawn(old(State()), now, p)
    {
      if !timer.HasAnimation() {
        timer := timer.StartAnimation(now);
      }
      rotation := toAngle * timer.AnimationElapsedPercent(now, p.animationLength) * speed;
    }
  }

  // ---------------------------------------------------------------------
  // The frame driver and its caches of ticks and arcs
  // ---------------------------------------------------------------------

  predicate AllTickSamples(samples: seq<TickSample>) {
    forall k :: 0 <= k < |samples| ==> IsTickSample(samples[k])
  }

  predicate AllArcSamples(samples: seq<ArcSample>) {
    forall k :: 0 <= k < |samples| ==> IsArcSample(samples[k])
  }

  /**
    The tick slot `k` is drawn with: the cached one turned to `angle`, its
    size left as it was, or a new `w` x `h` tick.
  */
  function SlotTick(before: map<nat, TickState>, k: nat, w: real, h: real, angle: real): TickState {
    if k in before then before[k].(angle := angle) else TickState(w, h, angle, Inactive)
  }

  /**
    The tick slot `k` is drawn with in a frame on a `width` x `height`
    canvas: the new size is the canvas scaled by `tickWidth` and
    `tickLength`, and the angle is the slot's on the ring.
  */
  function TickPrior(before: map<nat, TickState>, k: nat, width: real, height: real, p: Params): TickState
    requires p.tickCount > 0
  {
    SlotTick(before, k, width * p.tickWidth, height * p.tickLength, TickAngle(p.tickCount, k))
  }

  /** One `draw` of a tick in state `t` with the samples `s`. */
  function TickStep(t: TickState, now: int, s: TickSample, p: Params): TickState
    requires p.tickCount > 0 && p.animationLength > 0.0 && IsTickSample(s)
  {
    var hit := TickTriggered(t.timer, s.chance, p);
    t.(w := TickWidthStep(t.w, t.timer, hit, s.scale), timer := TickTimerStep(t.timer, hit, now, p))
  }

  /** What one `draw` of a tick in state `t` shows: as `Tick.Draw` states. */
  function TickDrawn(t: TickState, now: int, s: TickSample, sin: real -> real, cos: real -> real, p: Params)
    : Option<TickMark>
    requires p.tickCount > 0 && p.animationLength > 0.0 && IsTickSample(s)
  {
    var running := TickTrigger(t.timer, TickTriggered(t.timer, s.chance, p), now);
    if running.HasAnimation() then
      Some(TickMarkAt(t.angle, sin(t.angle), cos(t.angle), TickStep(t, now, s, p).w, t.h,
                      running.AnimationElapsedPercent(now, p.animationLength), p))
    else None
  }

  /**
    A tick shows exactly while it is running after its trial: an inactive
    tick whose trial fails draws nothing and is left as it was. A running
    tick is drawn with its own width and angle, at distance
    `tickRadius * (1 - f)`, for its elapsed fraction `f`.
  */
  lemma TickShowsWhileRunning(t: TickState, now: int, s: TickSample, sin: real -> real, cos: real -> real, p: Params)
    requires p.tickCount > 0 && p.animationLength > 0.0 && IsTickSample(s)
    ensures TickDrawn(t, now, s, sin, cos, p).Some?
        <==> t.timer.HasAnimation() || TickTriggered(t.timer, s.chance, p)
    ensures !t.timer.HasAnimation() && !TickTriggered(t.timer, s.chance, p) ==> TickStep(t, now, s, p) == t
    ensures TickDrawn(t, now, s, sin, cos, p).Some? ==>
              var m := TickDrawn(t, now, s, sin, cos, p).value;
              m.w == TickStep(t, now, s, p).w && m.rotation == -t.angle
  {
  }

  /** The state frame step `k` leaves tick slot `k` in. */
  function TickSlotStep(before: map<nat, TickState>, k: nat, width: real, height: real,
                        now: int, samples: seq<TickSample>, p: Params): TickState
    requires p.animationLength > 0.0 && k < |samples| == p.tickCount && AllTickSamples(samples)
  {
    TickStep(TickPrior(before, k, width, height, p), now, samples[k], p)
  }

  /** The state every tick slot a frame visits is left in, slot by slot. */
  ghost function TickFrameStates(before: map<nat, TickState>, width: real, height: real,
                                 now: int, samples: seq<TickSample>, p: Params): (e: seq<TickState>)
    requires p.animationLength > 0.0 && |samples| == p.tickCount && AllTickSamples(samples)
    ensures |e| == |samples|
    ensures forall k :: 0 <= k < |e| ==> e[k] == TickSlotStep(before, k, width, height, now, samples, p)
  {
    seq(|samples|, k requires 0 <= k < |samples| => TickSlotStep(before, k, width, height, now, samples, p))
  }

  /** What every tick slot a frame visits shows, slot by slot. */
  ghost function TickFrameMarks(before: map<nat, TickState>, width: real, height: real, now: int,
                                samples: seq<TickSample>, sin: real -> real, cos: real -> real, p: Params)
    : (e: seq<Option<TickMark>>)
    requires p.animationLength > 0.0 && |samples| == p.tickCount && AllTickSamples(samples)
    ensures |e| == |samples|
    ensures forall k :: 0 <= k < |e| ==> e[k] == TickDrawn(TickPrior(before, k, width, height, p), now, samples[k], sin, cos, p)
  {
    seq(|samples|, k requires 0 <= k < |samples| =>
      TickDrawn(TickPrior(before, k, width, height, p), now, samples[k], sin, cos, p))
  }

  /** The arc slot `k` is drawn with: the cached one, or one built from the samples `s`. */
  function ArcPrior(before: map<nat, ArcState>, k: nat, s: ArcSample, p: Params): ArcState
    requires IsArcSample(s)
  {
    if k in before then before[k] else ArcState(SampleArc(s, p), Inactive)
  }

  /** The state frame step `k` leaves arc slot `k` in. */
  function ArcSlotStep(before: map<nat, ArcState>, k: nat, now: int, samples: seq<ArcSample>, p: Params): ArcState
    requires k < |samples| && AllArcSamples(samples)
  {
    ArcStep(ArcPrior(before, k, samples[k], p), now)
  }

  /** The state every arc slot a frame visits is left in, slot by slot. */
  ghost function ArcFrameStates(before: map<nat, ArcState>, now: int, samples: seq<ArcSample>, p: Params)
    : (e: seq<ArcState>)
    requires AllArcSamples(samples)
    ensures |e| == |samples|
    ensures forall k :: 0 <= k < |e| ==> e[k] == ArcSlotStep(before, k, now, samples, p)
  {
    seq(|samples|, k requires 0 <= k < |samples| => ArcSlotStep(before, k, now, samples, p))
  }

  /** The rotation every arc slot a frame visits shows, slot by slot. */
  ghost function ArcFrameRotations(before: map<nat, ArcState>, now: int, samples: seq<ArcSample>, p: Params)
    : (e: seq<real>)
    requires p.animationLength > 0.0 && AllArcSamples(samples)
    ensures |e| == |samples|
    ensures forall k :: 0 <= k < |e| ==> e[k] == ArcDrawn(ArcPrior(before, k, samples[k], p), now, p)
  {
    seq(|samples|, k requires 0 <= k < |samples| => ArcDrawn(ArcPrior(before, k, samples[k], p), now, p))
  }

  /**
    A cached tick keeps its size across a resize: what a frame does to it
    does not depend on the canvas size, its height is never changed, and
    its width changes only by the narrowing of a start trial.
  */
  lemma ResizeKeepsTickSize(before: map<nat, TickState>, k: nat, width: real, height: real,
                            width': real, height': real, now: int, samples: seq<TickSample>, p: Params)
    requires p.animationLength > 0.0 && k < |samples| == p.tickCount && AllTickSamples(samples)
    requires k in before && before[k].w >= 0.0
    ensures TickSlotStep(before, k, width, height, now, samples, p)
         == TickSlotStep(before, k, width', height', now, samples, p)
    ensures TickSlotStep(before, k, width, height, now, samples, p).h == before[k].h
    ensures 0.3 * before[k].w <= TickSlotStep(before, k, width, height, now, samples, p).w <= before[k].w
  {
  }

  /**
    A tick created by a frame has the frame's size, narrowed at most once
    by its first start trial, and the slot's angle on the ring.
  */
  lemma NewTickSize(before: map<nat, TickState>, k: nat, width: real, height: real,
                    now: int, samples: seq<TickSample>, p: Params)
    requires p.animationLength > 0.0 && k < |samples| == p.tickCount && AllTickSamples(samples)
    requires k !in before && width * p.tickWidth >= 0.0
    ensures var t := TickSlotStep(before, k, width, height, now, samples, p);
      && t.h == height * p.tickLength
      && 0.3 * (width * p.tickWidth) <= t.w <= width * p.tickWidth
      && t.angle == TickAngle(p.tickCount, k)
      && (t.timer.HasAnimation() <==> TickTriggered(Inactive, samples[k].chance, p))
  {
  }

  /**
    An arc is sampled once, when its slot is first filled: a cached arc
    keeps its shape whatever the samples and the parameters of later frames,
    and it is running after every frame that draws it.
  */
  lemma ArcShapeFixed(before: map<nat, ArcState>, k: nat, now: int, samples: seq<ArcSample>,
                      samples': seq<ArcSample>, p: Params, p': Params)
    requires k < |samples| && k < |samples'| && AllArcSamples(samples) && AllArcSamples(samples')
    requires k in before
    ensures ArcSlotStep(before, k, now, samples, p).shape == before[k].shape
    ensures ArcSlotStep(before, k, now, samples, p) == ArcSlotStep(before, k, now, samples', p')
    ensures ArcSlotStep(before, k, now, samples, p).timer.HasAnimation()
  {
  }

  /**
    The closure returned by `sketch`: the `ticks` and `arcs` arrays, filled
    lazily and never rebuilt, and the per-frame drawing.
  */
  class Face {
    var ticks: map<nat, Tick>
    var arcs: map<nat, Arc>

    /** No tick and no arc is cached in two slots. */
    ghost predicate Valid()
      reads this
    {
      && (forall k, k' :: k in ticks && k' in ticks && k != k' ==> ticks[k] != ticks[k'])
      && (forall k, k' :: k in arcs && k' in arcs && k != k' ==> arcs[k] != arcs[k'])
    }

    /** The state of every cached tick. */
    ghost function TickStates(): (m: map<nat, TickState>)
      reads this`ticks, ticks.Values
      ensures m.Keys == ticks.Keys
    {
      map k | k in ticks :: ticks[k].State()
    }

    /** The state of every cached arc. */
    ghost function ArcStates(): (m: map<nat, ArcState>)
      reads this`arcs, arcs.Values
      ensures m.Keys == arcs.Keys
    {
      map k | k in arcs :: arcs[k].State()
    }

    /** `let ticks = []; let arcs = []`. */
    constructor ()
      ensures Valid() && ticks == map[] && arcs == map[]
    {
      ticks, arcs := map[], map[];
    }

    /**
      One tick of a frame: turn the tick at slot `k` to `angle`, or create
      a `w` x `h` tick there if the slot is empty; then draw it.
    */
    method DrawTick(k: nat, w: real, h: real, angle: real, ghost prior: TickState, now: int, s: TickSample,
                    sin: real -> real, cos: real -> real, p: Params)
      returns (mark: Option<TickMark>)
      requires Valid() && p.tickCount > 0 && p.animationLength > 0.0 && IsTickSample(s)
      requires prior == SlotTick(TickStates(), k, w, h, angle)
      modifies this`ticks, if k in ticks then {ticks[k]} else {}
      ensures Valid()
      ensures arcs == old(arcs) && unchanged(arcs.Values)
      ensures ticks.Keys == old(ticks).Keys + {k}
      ensures forall k' :: k' in old(ticks) ==> ticks[k'] == old(ticks)[k']
      ensures k !in old(ticks) ==> fresh(ticks[k])
      ensures TickStates()[k] == TickStep(prior, now, s, p)
      ensures forall k' :: k' in old(ticks) && k' != k ==> TickStates()[k'] == old(TickStates())[k']
      ensures mark == TickDrawn(prior, now, s, sin, cos, p)
    {
      var t: Tick;
      if k in ticks {
        t := ticks[k];
        t.SetAngle(angle);
      } else {
        t := new Tick(w, h, angle);
        ticks := ticks[k := t];
      }
      mark := t.Draw(now, s, sin, cos, p);
    }

    /**
      One arc of a frame: build an arc from the samples `s` if slot `k` is
      empty, then draw the slot's arc.
    */
    method DrawArc(k: nat, ghost prior: ArcState, now: int, s: ArcSample, p: Params) returns (rotation: real)
      requires Valid() && p.animationLength > 0.0 && IsArcSample(s)
      requires prior == ArcPrior(ArcStates(), k, s, p)
      modifies this`arcs, if k in arcs then {arcs[k]} else {}
      ensures Valid()
      ensures ticks == old(ticks) && unchanged(ticks.Values)
      ensures arcs.Keys == old(arcs).Keys + {k}
      ensures forall k' :: k' in old(arcs) ==> arcs[k'] == old(arcs)[k']
      ensures k !in old(arcs) ==> fresh(arcs[k])
      ensures ArcStates()[k] == ArcStep(prior, now)
      ensures forall k' :: k' in old(arcs) && k' != k ==> ArcStates()[k'] == old(ArcStates())[k']
      ensures rotation == ArcDrawn(prior, now, p)
    {
      var a: Arc;
      if k in arcs {
        a := arcs[k];
      } else {
        a := new Arc(s, p);
        arcs := arcs[k := a];
      }
      rotation := a.Draw(now, p);
    }

    /**
      One step of the tick loop: slot `i` gets the angle `360 / tickCount * i`
      in radians and is drawn, its mark appended to the frame's `marks`
      (`before`, `expected` and `expectedMarks` being the slot states when the
      frame began, the states the frame leaves and the marks it draws).
    */
    method DrawTickSlot(i: nat, w: real, h: real, width: real, height: real, now: int, samples: seq<TickSample>,
                        sin: real -> real, cos: real -> real, p: Params, ghost before: map<nat, TickState>,
                        ghost expected: seq<TickState>, ghost expectedMarks: seq<Option<TickMark>>,
                        marks: seq<Option<TickMark>>)
      returns (marks': seq<Option<TickMark>>)
      requires Valid() && p.animationLength > 0.0
      requires |samples| == p.tickCount && AllTickSamples(samples) && i < p.tickCount
      requires w == width * p.tickWidth && h == height * p.tickLength
      requires expected == TickFrameStates(before, width, height, now, samples, p)
      requires expectedMarks == TickFrameMarks(before, width, height, now, samples, sin, cos, p)
      requires VisitedUpTo(before, TickStates(), expected, i)
      requires |marks| == i && marks == expectedMarks[..i]
      modifies this`ticks, ticks.Values
      ensures Valid()
      ensures arcs == old(arcs) && unchanged(arcs.Values)
      ensures forall k :: k in old(ticks) ==> k in ticks && ticks[k] == old(ticks)[k]
      ensures forall k :: k in ticks && k !in old(ticks) ==> fresh(ticks[k])
      ensures VisitedUpTo(before, TickStates(), expected, i + 1)
      ensures |marks'| == i + 1 && marks' == expectedMarks[..i + 1]
    {
      var slice := Deg2Rad(360.0 / p.tickCount as real);
      var angle := slice * i as real;
      assert angle == TickAngle(p.tickCount, i);
      ghost var mid := TickStates();
      NextSlotUntouched(before, mid, expected, i);
      ghost var prior := TickPrior(before, i, width, height, p);
      var mark := DrawTick(i, w, h, angle, prior, now, samples[i], sin, cos, p);
      VisitNext(before, mid, TickStates(), expected, i);
      AppendNext(marks, expectedMarks, mark, i);
      marks' := marks + [mark];
    }

    /**
      One step of the arc loop: slot `i` is drawn, its rotation appended to
      the frame's `rotations` (`before`, `expected` and `expectedRotations`
      being the slot states when the frame began, the states the frame
      leaves and the rotations it draws).
    */
    method DrawArcSlot(i: nat, now: int, samples: seq<ArcSample>, p: Params, ghost before: map<nat, ArcState>,
                       ghost expected: seq<ArcState>, ghost expectedRotations: seq<real>, rotations: seq<real>)
      returns (rotations': seq<real>)
      requires Valid() && p.animationLength > 0.0
      requires AllArcSamples(samples) && i < |samples|
      requires expected == ArcFrameStates(before, now, samples, p)
      requires expectedRotations == ArcFrameRotations(before, now, samples, p)
      requires VisitedUpTo(before, ArcStates(), expected, i)
      requires |rotations| == i && rotations == expectedRotations[..i]
      modifies this`arcs, arcs.Values
      ensures Valid()
      ensures ticks == old(ticks) && unchanged(ticks.Values)
      ensures forall k :: k in old(arcs) ==> k in arcs && arcs[k] == old(arcs)[k]
      ensures forall k :: k in arcs && k !in old(arcs) ==> fresh(arcs[k])
      ensures VisitedUpTo(before, ArcStates(), expected, i + 1)
      ensures |rotations'| == i + 1 && rotations' == expectedRotations[..i + 1]
    {
      ghost var mid := ArcStates();
      NextSlotUntouched(before, mid, expected, i);
      ghost var prior := ArcPrior(before, i, samples[i], p);
      var rotation := DrawArc(i, prior, now, samples[i], p);
      VisitNext(before, mid, ArcStates(), expected, i);
      AppendNext(rotations, expectedRotations, rotation, i);
      rotations' := rotations + [rotation];
    }

    /**
      The tick loop of a frame on a `width` x `height` canvas at time `now`,
      with the start-trial samples of every tick slot: every slot below
      `tickCount` gets its angle and one draw step (new ticks take the
      current size, cached ones keep theirs); slots beyond stay as they were.
    */
    method DrawTicks(width: real, height: real, now: int, samples: seq<TickSample>,
                     sin: real -> real, cos: real -> real, p: Params)
      returns (marks: seq<Option<TickMark>>)
      requires Valid() && p.animationLength > 0.0
      requires |samples| == p.tickCount && AllTickSamples(samples)
      modifies this`ticks, ticks.Values
      ensures Valid()
      ensures arcs == old(arcs) && unchanged(arcs.Values)
      ensures forall k :: k in old(ticks) ==> k in ticks && ticks[k] == old(ticks)[k]
      ensures forall k :: k in ticks && k !in old(ticks) ==> fresh(ticks[k])
      ensures VisitedUpTo(old(TickStates()), TickStates(),
                          TickFrameStates(old(TickStates()), width, height, now, samples, p), p.tickCount)
      ensures |marks| == p.tickCount
      ensures forall k :: 0 <= k < p.tickCount ==>
                marks[k] == TickDrawn(TickPrior(old(TickStates()), k, width, height, p), now, samples[k], sin, cos, p)
    {
      var w := width * p.tickWidth;
      var h := height * p.tickLength;
      ghost var before := TickStates();
      ghost var expected := TickFrameStates(before, width, height, now, samples, p);
      ghost var expectedMarks := TickFrameMarks(before, width, height, now, samples, sin, cos, p);
      marks := [];
      for i: nat := 0 to p.tickCount
        invariant Valid()
        invariant arcs == old(arcs) && unchanged(arcs.Values)
        invariant |marks| == i
        invariant forall k :: k in old(ticks) ==> k in ticks && ticks[k] == old(ticks)[k]
        invariant forall k :: k in ticks && k !in old(ticks) ==> fresh(ticks[k])
        invariant VisitedUpTo(before, TickStates(), expected, i)
        invariant marks == expectedMarks[..i]
      {
        marks := DrawTickSlot(i, w, h, width, height, now, samples, sin, cos, p, before, expected, expectedMarks, marks);
      }
      assert marks == expectedMarks;
    }

    /**
      The arc loop of a frame at time `now`, with the construction samples
      of every arc slot: every slot below `arcCount` gets one draw step (new
      arcs are sampled, cached ones keep their shape); slots beyond stay as
      they were.
    */
    method DrawArcs(now: int, samples: seq<ArcSample>, p: Params) returns (rotations: seq<real>)
      requires Valid() && p.animationLength > 0.0
      requires |samples| == p.arcCount && AllArcSamples(samples)
      modifies this`arcs, arcs.Values
      ensures Valid()
      ensures ticks == old(ticks) && unchanged(ticks.Values)
      ensures forall k :: k in old(arcs) ==> k in arcs && arcs[k] == old(arcs)[k]
      ensures forall k :: k in arcs && k !in old(arcs) ==> fresh(arcs[k])
      ensures VisitedUpTo(old(ArcStates()), ArcStates(), ArcFrameStates(old(ArcStates()), now, samples, p), p.arcCount)
      ensures |rotations| == p.arcCount
      ensures forall k :: 0 <= k < p.arcCount ==>
                rotations[k] == ArcDrawn(ArcPrior(old(ArcStates()), k, samples[k], p), now, p)
    {
      ghost var before := ArcStates();
      ghost var expected := ArcFrameStates(before, now, samples, p);
      ghost var expectedRotations := ArcFrameRotations(before, now, samples, p);
      rotations := [];
      for i: nat := 0 to p.arcCount
        invariant Valid()
        invariant ticks == old(ticks) && unchanged(ticks.Values)
        invariant |rotations| == i
        invariant forall k :: k in old(arcs) ==> k in arcs && arcs[k] == old(arcs)[k]
        invariant forall k :: k in arcs && k !in old(arcs) ==> fresh(arcs[k])
        invariant VisitedUpTo(before, ArcStates(), expected, i)
        invariant rotations == expectedRotations[..i]
      {
        rotations := DrawArcSlot(i, now, samples, p, before, expected, expectedRotations, rotations);
      }
      assert rotations == expectedRotations;
    }

    /**
      One frame: the tick loop, then the arc loop. Neither loop touches
      what the other one draws.
    */
    method Frame(width: real, height: real, now: int,
                 tickSamples: seq<TickSample>, arcSamples: seq<ArcSample>,
                 sin: real -> real, cos: real -> real, p: Params)
      returns (marks: seq<Option<TickMark>>, rotations: seq<real>)
      requires Valid() && p.animationLength > 0.0
      requires |tickSamples| == p.tickCount && AllTickSamples(tickSamples)
      requires |arcSamples| == p.arcCount && AllArcSamples(arcSamples)
      modifies this, ticks.Values, arcs.Values
      ensures Valid()
      ensures forall k :: k in old(ticks) ==> k in ticks && ticks[k] == old(ticks)[k]
      ensures forall k :: k in old(arcs) ==> k in arcs && arcs[k] == old(arcs)[k]
      ensures VisitedUpTo(old(TickStates()), TickStates(),
                          TickFrameStates(old(TickStates()), width, height, now, tickSamples, p), p.tickCount)
      ensures VisitedUpTo(old(ArcStates()), ArcStates(), ArcFrameStates(old(ArcStates()), now, arcSamples, p), p.arcCount)
      ensures |marks| == p.tickCount
      ensures forall k :: 0 <= k < p.tickCount ==>
                marks[k] == TickDrawn(TickPrior(old(TickStates()), k, width, height, p), now, tickSamples[k], sin, cos, p)
      ensures |rotations| == p.arcCount
      ensures forall k :: 0 <= k < p.arcCount ==>
                rotations[k] == ArcDrawn(ArcPrior(old(ArcStates()), k, arcSamples[k], p), now, p)
    {
      marks := DrawTicks(width, height, now, tickSamples, sin, cos, p);
      rotations := DrawArcs(now, arcSamples, p);
    }
  }
}
