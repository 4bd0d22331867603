/** The animated circle component: its long-lived state and the two updates
    that change it, the colour-prop effect and the per-frame step.
 */
module AnimatedCircle {
  import opened HexColor
  import opened Easing

  /** The uniform block created once and handed to the shader material:
      `uTime.value` and `uColor.value.x`, `.y`, `.z`. Every frame writes these
      fields in place; the block itself is never replaced. */
  class Uniforms {
    var time: real
    var x: real
    var y: real
    var z: real

    constructor (time: real, x: real, y: real, z: real)
      ensures this.time == time && this.x == x && this.y == y && this.z == z
    {
      this.time, this.x, this.y, this.z := time, x, y, z;
    }
  }

  predicate UnitInterval(v: real) {
    0.0 <= v <= 1.0
  }

  /** The state the component keeps in refs. `uniforms` is a `const`: the
      block's identity never changes for the life of the component.
      `origin` and `frames` are proof-only: the current colour when the target
      last changed, and the number of frames since. */
  class Circle {
    var current: Color
    var target: Rgb
    const uniforms: Uniforms
    ghost var origin: Color
    ghost var frames: nat

    /** Channels stay in 0..255, published channels in [0, 1], the current
        colour is the origin eased `frames` times toward the target, and once a
        frame has run since the last colour change the block shows the current
        colour. */
    ghost predicate Valid()
      reads this, uniforms
    {
      InRange(current) && IsByteTriple(target) && InRange(origin)
      && current == IterateColor(origin, target, frames)
      && UnitInterval(uniforms.x) && UnitInterval(uniforms.y) && UnitInterval(uniforms.z)
      && (frames > 0 ==> Published())
    }

    /** The published colour is the current colour divided by 255. */
    predicate Published()
      reads this, uniforms
    {
      uniforms.x == current.r / 255.0 && uniforms.y == current.g / 255.0 && uniforms.z == current.b / 255.0
    }

    /** Mounting: the three starting values are the component's own, and they
        disagree (the current green is 194, the target green 154, and the
        published colour is not the current colour over 255). */
    constructor ()
      ensures Valid() && fresh(uniforms)
      ensures current == Color(103.0, 194.0, 192.0) && target == Rgb(103, 154, 192)
      ensures uniforms.time == 0.0 && uniforms.x == 0.6 && uniforms.y == 0.8 && uniforms.z == 0.95
      ensures !Published()
      ensures current != ToColor(target)
    {
      current := Color(103.0, 194.0, 192.0);
      target := Rgb(103, 154, 192);
      uniforms := new Uniforms(0.0, 0.6, 0.8, 0.95);
      origin := Color(103.0, 194.0, 192.0);
      frames := 0;
    }

    /** The effect run once after mount and again whenever the colour prop
        changes: the target becomes the decoded prop; the current colour and
        the uniforms are left alone. */
    method SetColor(color: string)
      requires Valid()
      modifies this
      ensures Valid()
      ensures target == HexToRgb(color)
      ensures current == old(current)
      ensures unchanged(uniforms)
      ensures origin == current && frames == 0
    {
      target := HexToRgb(color);
      origin := current;
      frames := 0;
    }

    /** One frame: the scaled time is recomputed from the clock, the current
        colour moves 1% of the way to the target, and the block is updated in
        place with the new colour over 255. The target does not change. */
    method Frame(elapsed: real, speed: real)
      requires Valid()
      modifies this, uniforms
      ensures Valid() && Published()
      ensures uniforms.time == elapsed * speed
      ensures current == Step(old(current), target)
      ensures target == old(target)
      ensures origin == old(origin) && frames == old(frames) + 1
    {
      uniforms.time := elapsed * speed;
      var next := Step(current, target);
      current := next;
      uniforms.x := next.r / 255.0;
      uniforms.y := next.g / 255.0;
      uniforms.z := next.b / 255.0;
      frames := frames + 1;
    }
  }

  /** Mounting as React does it: the refs get their starting values, then the
      colour effect runs once with the initial prop before any frame. */
  method Mount(color: string) returns (circle: Circle)
    ensures fresh(circle) && fresh(circle.uniforms) && circle.Valid()
    ensures circle.target == HexToRgb(color)
    ensures circle.current == Color(103.0, 194.0, 192.0)
    ensures circle.uniforms.time == 0.0
    ensures circle.uniforms.x == 0.6 && circle.uniforms.y == 0.8 && circle.uniforms.z == 0.95
    ensures circle.frames == 0
  {
    circle := new Circle();
    circle.SetColor(color);
  }

  /** A thousand frames after the last colour change the published colour is
      within 0.001 of the target over 255, on every channel. */
  lemma Converged(circle: Circle)
    requires circle.Valid() && circle.frames >= 1000
    ensures Abs(circle.uniforms.x - circle.target.r as real / 255.0) < 0.001
    ensures Abs(circle.uniforms.y - circle.target.g as real / 255.0) < 0.001
    ensures Abs(circle.uniforms.z - circle.target.b as real / 255.0) < 0.001
  {
    var o, t, k := circle.origin, circle.target, circle.frames;
    Converges(o.r, t.r as real, k);
    Converges(o.g, t.g as real, k);
    Converges(o.b, t.b as real, k);
  }

  /** With a fixed speed that is not negative, a later clock reading never
      gives a smaller scaled time. */
  lemma TimeMonotone(e1: real, e2: real, speed: real, t1: real, t2: real)
    requires 0.0 <= speed && e1 <= e2
    requires t1 == e1 * speed && t2 == e2 * speed
    ensures t1 <= t2
    ensures 0.0 < speed && e1 < e2 ==> t1 < t2
  {
    var gap := e2 - e1;
    assert t2 - t1 == gap * speed;
    if 0.0 < speed && e1 < e2 {
      assert gap * speed > 0.0 * speed;
    }
  }

  /** Two successive frames at the same speed, on a clock that does not go
      back, from any reachable state: the published time does not go down. */
  method SameSpeedFrames(circle: Circle, e1: real, e2: real, speed: real) returns (t1: real, t2: real)
    requires circle.Valid()
    requires 0.0 <= speed && e1 <= e2
    modifies circle, circle.uniforms
    ensures circle.Valid() && circle.target == old(circle.target)
    ensures t1 == e1 * speed && t2 == e2 * speed && t2 == circle.uniforms.time
    ensures t1 <= t2
    ensures 0.0 < speed && e1 < e2 ==> t1 < t2
  {
    circle.Frame(e1, speed);
    t1 := circle.uniforms.time;
    circle.Frame(e2, speed);
    t2 := circle.uniforms.time;
    TimeMonotone(e1, e2, speed, t1, t2);
  }

  /** The time is recomputed, not accumulated: lowering the speed between two
      frames can make the published time go down although the clock went on. */
  method SpeedDropRewindsTime() returns (t1: real, t2: real)
    ensures t2 < t1
  {
    var circle := new Circle();
    circle.Frame(1.0, 2.0);
    t1 := circle.uniforms.time;
    circle.Frame(1.5, 1.0);
    t2 := circle.uniforms.time;
  }

  /** A colour change followed by a frame, from any reachable state: the
      decoded prop is the target, and the colour moves one step toward it from
      where it was. */
  method ChangeThenFrame(circle: Circle, color: string, elapsed: real, speed: real) returns (before: Color, after: Color)
    requires circle.Valid()
    modifies circle, circle.uniforms
    ensures circle.Valid() && circle.target == HexToRgb(color)
    ensures before == old(circle.current) && after == circle.current
    ensures after == Step(before, HexToRgb(color))
    ensures InRange(before) && InRange(after)
  {
    circle.SetColor(color);
    before := circle.current;
    circle.Frame(elapsed, speed);
    after := circle.current;
  }
}
