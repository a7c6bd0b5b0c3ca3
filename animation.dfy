/** The optional value used for "nothing drawn this frame". */
module Wrappers {
  datatype Option<+T> = None | Some(value: T)
}

/**
  The animation timer that every animated shape carries: the timer methods of
  `Box` in sketch-01.js and the `animatedObject` base class of sketch-02.js,
  which are the same code. Its whole state is an optional start time; here
  `Inactive` stands for a missing `animationStart` and `Active(start)` for a
  recorded one. Time is an integer number of milliseconds passed in by the
  caller, and the configured animation length is in seconds.
*/
module Animation {

  /** Milliseconds per second: `animationLength` is given in seconds. */
  const MillisPerSecond: real := 1000.0

  datatype Timer = Inactive | Active(start: int)
  {
    /** `hasAnimation`: a start time is recorded. */
    predicate HasAnimation() {
      Active?
    }

    /** `startAnimation`: record `now` as the start, whatever the state was. */
    function StartAnimation(now: int): (t: Timer)
      ensures t.HasAnimation()
      ensures t.AnimationElapsed(now) == 0
    {
      Active(now)
    }

    /** `animationElapsed`: milliseconds since the recorded start. */
    function AnimationElapsed(now: int): (ms: int)
      requires HasAnimation()
      ensures start + ms == now
    {
      now - start
    }

    /**
      `animationElapsedPercent`: the elapsed time as a fraction of the
      animation length; 1 or more means the animation is complete.
    */
    function AnimationElapsedPercent(now: int, animationLength: real): (f: real)
      requires HasAnimation() && animationLength > 0.0
      ensures f * (animationLength * MillisPerSecond) == AnimationElapsed(now) as real
      ensures f >= 1.0 <==> AnimationElapsed(now) as real >= animationLength * MillisPerSecond
      ensures f >= 0.0 <==> now >= start
      ensures f == 0.0 <==> now == start
    {
      var len := animationLength * MillisPerSecond;
      var d := AnimationElapsed(now) as real;
      FractionFacts(d, len);
      d / len
    }

    /** `animationClear`: forget the start time. */
    function AnimationClear(): (t: Timer)
      ensures !t.HasAnimation()
    {
      Inactive
    }

    /**
      `animationClearIfDone`: clear the timer once the elapsed fraction has
      reached 1, otherwise leave it as it is. An inactive timer stays inactive.
    */
    function AnimationClearIfDone(now: int, animationLength: real): (t: Timer)
      requires animationLength > 0.0
      ensures t == this || t == Inactive
      ensures HasAnimation() ==>
                (!t.HasAnimation() <==> AnimationElapsed(now) as real >= animationLength * MillisPerSecond)
      ensures !HasAnimation() ==> !t.HasAnimation()
    {
      if HasAnimation() && AnimationElapsedPercent(now, animationLength) >= 1.0 then AnimationClear() else this
    }
  }

  /** Division by a positive length, stated the way the timer uses it. */
  lemma FractionFacts(d: real, len: real)
    requires len > 0.0
    ensures (d / len) * len == d
    ensures d / len >= 1.0 <==> d >= len
    ensures d / len >= 0.0 <==> d >= 0.0
    ensures d / len == 0.0 <==> d == 0.0
  {
    var f := d / len;
    assert f * len == d;
    if f >= 1.0 {
      assert f * len >= 1.0 * len;
    } else {
      assert f * len < 1.0 * len;
    }
    if f >= 0.0 {
      assert f * len >= 0.0;
    } else {
      assert f * len < 0.0;
    }
  }

  /** A timer started at `now` survives the frame it was started in. */
  lemma StartedTimerSurvivesItsFrame(t: Timer, now: int, animationLength: real)
    requires animationLength > 0.0
    ensures t.StartAnimation(now).AnimationElapsedPercent(now, animationLength) == 0.0
    ensures t.StartAnimation(now).AnimationClearIfDone(now, animationLength) == Active(now)
  {
  }

  /** The elapsed fraction never decreases as time goes on. */
  lemma ElapsedPercentMonotone(t: Timer, now: int, later: int, animationLength: real)
    requires t.HasAnimation() && animationLength > 0.0 && now <= later
    ensures t.AnimationElapsedPercent(now, animationLength) <= t.AnimationElapsedPercent(later, animationLength)
  {
    var len := animationLength * MillisPerSecond;
    var f, g := t.AnimationElapsedPercent(now, animationLength), t.AnimationElapsedPercent(later, animationLength);
    assert f * len == (now - t.start) as real;
    assert g * len == (later - t.start) as real;
    if f > g {
      assert f * len > g * len;
    }
  }
}

/**
  The random utilities the sketches call, with the uniform sample `u` in
  [0, 1) passed in: `random.range(min, max)` is `min + u * (max - min)` (with
  one argument `x`, the range is [0, x)), and `random.chance(p)` succeeds when
  `u < p`.
*/
module Random {

  /** A uniform sample of the unit interval [0, 1). */
  predicate IsSample(u: real) {
    0.0 <= u < 1.0
  }

  /** `random.range(min, max)`: lies in [min, max) when min < max. */
  function Range(min: real, max: real, u: real): (v: real)
    requires IsSample(u)
    ensures min <= max ==> min <= v <= max
    ensures min < max ==> v < max
    ensures u == 0.0 ==> v == min
  {
    var span := max - min;
    ScaledBelow(u, span);
    min + u * span
  }

  /** A sample scales a positive span to something strictly below it. */
  lemma ScaledBelow(u: real, span: real)
    requires IsSample(u)
    ensures span >= 0.0 ==> 0.0 <= u * span <= span
    ensures span > 0.0 ==> u * span < span
  {
    if span > 0.0 {
      assert u * span < 1.0 * span;
    }
  }

  /** `random.chance(probability)`. */
  predicate Chance(probability: real, u: real) {
    u < probability
  }
}
