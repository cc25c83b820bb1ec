/** The naive O(n²) engine: a front buffer holding the current frame and a
    back buffer that Tick fills with the next one.

    A Go slice is a view (backing array, length) whose capacity is the
    array's length; here each buffer is an array field and a length field.
    swapBuffers hands the back's backing array to the front and truncates
    the back to length 0 while keeping that same array, so from the first
    swap on the two buffers share one backing array (`front == back`) until
    an Add outgrows it. While they share it, Tick overwrites the frame it is
    reading: see NaiveStep.Sweep for what each mass then sees. */
module Naive {
  import opened Vector
  import opened Simulation
  import opened NaiveStep

  /** Go's built-in append of one mass to the slice (a, len): it writes into
      the backing array when there is room, and otherwise copies the slice
      into a fresh, larger array. */
  method Append(a: array<Mass>, len: nat, x: Mass) returns (b: array<Mass>, newLen: nat)
    requires len <= a.Length
    modifies a
    ensures newLen == len + 1 <= b.Length
    ensures b[..newLen] == old(a[..len]) + [x]
    ensures len < a.Length ==> b == a && a[..] == old(a[..])[len := x]
    ensures len == a.Length ==> fresh(b) && unchanged(a)
  {
    if len < a.Length {
      a[len] := x;
      b := a;
      assert b[..len + 1] == old(a[..len]) + [x];
      assert a[..] == old(a[..])[len := x];
    } else {
      b := new Mass[if a.Length == 0 then 1 else 2 * a.Length];
      var k := 0;
      while k < len
        invariant 0 <= k <= len
        invariant b[..k] == a[..k] && unchanged(a)
      {
        b[k] := a[k];
        k := k + 1;
      }
      b[len] := x;
      assert b[..len + 1] == b[..len] + [x];
    }
    newLen := len + 1;
  }

  class NaiveSimulation {
    /** The front buffer: the current frame is front[..frontLen]. */
    var front: array<Mass>
    var frontLen: nat
    /** The back buffer: back[..backLen] is the part of the next frame
        written so far. */
    var back: array<Mass>
    var backLen: nat
    /** Gravitational constant. */
    const g: real
    /** Partners closer than this radius do not attract each other. */
    const radius: real

    /** Between operations the back buffer is empty and the front's length
        is within its capacity. */
    ghost predicate Valid()
      reads this
    {
      frontLen <= front.Length && backLen == 0
    }

    /** The current frame, in order. */
    ghost function Contents(): seq<Mass>
      reads this, front
      requires Valid()
    {
      front[..frontLen]
    }

    /** An engine with no masses and two separate buffers of the given
        capacity. */
    constructor (capacity: nat, g: real, radius: real)
      ensures Valid() && Contents() == []
      ensures fresh(front) && fresh(back) && front != back
      ensures front.Length == capacity && back.Length == capacity
      ensures this.g == g && this.radius == radius
    {
      front := new Mass[capacity];
      frontLen := 0;
      back := new Mass[capacity];
      backLen := 0;
      this.g := g;
      this.radius := radius;
    }

    /** Promotes the back buffer to the front and truncates the back to
        length 0 over the same backing array. */
    method SwapBuffers()
      modifies this
      ensures front == old(back) && frontLen == old(backLen)
      ensures back == old(back) && backLen == 0
    {
      front := back;
      frontLen := backLen;
      backLen := 0;
    }

    /** One turn of Tick's outer loop: mass i of the frame src[..n], unless
        it is static, takes the pull of every mass of that frame in order
        (itself included, which the radius skips), and then moves by its
        velocity times dt. */
    method StepMass(src: array<Mass>, n: nat, i: nat, dt: real, sqrt: real -> real) returns (m1: Mass)
      requires i < n <= src.Length && TickDefined(Gravity(g, radius, sqrt), src[i])
      ensures m1 == Step(Gravity(g, radius, sqrt), src[..n], src[i], dt)
    {
      var law := Gravity(g, radius, sqrt);
      ghost var view := src[..n];
      m1 := src[i];
      if !m1.isStatic {
        var j := 0;
        while j < n
          invariant 0 <= j <= n
          invariant m1 == Attract(law, src[i], view[..j], dt)
        {
          var m2 := src[j];
          ghost var before := m1;
          assert m2 == view[j] && view[..j + 1][..j] == view[..j];
          var displacement := m2.pos.Sub(m1.pos);
          var r := displacement.Norm(sqrt);
          if r >= radius {
            assert 0.0 < r * r;
            var angle := displacement.Normalize(sqrt);
            var magFg := g * (m1.mass * m2.mass) / (r * r);
            assert magFg == Gravitation(law, m1, m2, r);
            var fg := angle.Scale(magFg);
            var a := fg.Div(m1.mass);
            m1 := m1.(vel := m1.vel.Add(a.Scale(dt)));
            assert m1 == Pull(law, before, m2, dt);
          }
          j := j + 1;
        }
        assert view[..n] == view;
      }
      m1 := m1.(pos := m1.pos.Add(m1.vel.Scale(dt)));
    }

    /** One frame: every mass is stepped in order and appended to the back
        buffer, which then becomes the front. The next frame is the sweep of
        the current one, in place exactly when the buffers shared their
        backing array; afterwards they always do. */
    method Tick(dt: real, sqrt: real -> real)
      requires Valid() && Integrable(Gravity(g, radius, sqrt), Contents())
      modifies this, back
      ensures Valid() && front == back && frontLen == old(frontLen)
      ensures Contents() == Sweep(Gravity(g, radius, sqrt), old(Contents()), old(front == back), dt)
      ensures old(frontLen) <= old(back.Length) ==> back == old(back)
      ensures old(back.Length) < old(frontLen) ==> fresh(back)
      ensures old(front == back) ==> front == old(front)
      ensures dt == 0.0 ==> Contents() == old(Contents())
      ensures StaticAtRest(old(Contents())) ==> StaticAtRest(Contents())
    {
      var law := Gravity(g, radius, sqrt);
      ghost var s := Contents();
      ghost var inPlace := front == back;
      // `range` evaluates the front slice once, before the first turn.
      var src, n := front, frontLen;
      var i := 0;
      while i < n
        invariant 0 <= i <= n == |s| <= src.Length
        invariant front == src && frontLen == n && Integrable(law, s)
        invariant backLen == i <= back.Length
        invariant i <= old(back.Length) ==> back == old(back)
        invariant old(back.Length) < i ==> fresh(back)
        invariant back[..i] == Swept(law, s, inPlace, dt, i)
        invariant inPlace ==> back == src && src[i..n] == s[i..]
        invariant !inPlace ==> back != src && src[..n] == s
      {
        assert src[..n] == if inPlace then Swept(law, s, inPlace, dt, i) + s[i..] else s;
        var m1 := StepMass(src, n, i, dt, sqrt);
        back, backLen := Append(back, backLen, m1);
        i := i + 1;
      }
      SwapBuffers();
      SweepNoTime(law, s, inPlace);
      if StaticAtRest(s) {
        SweepKeepsStaticAtRest(law, s, inPlace, dt);
      }
    }

    /** Appends one mass to the front buffer. The back buffer is untouched;
        when the front has no room left it moves to a fresh array, which
        ends any sharing with the back. */
    method Add(m: Mass)
      requires Valid()
      modifies this, front
      ensures Valid() && Contents() == old(Contents()) + [m]
      ensures back == old(back) && backLen == 0
      ensures old(frontLen < front.Length) ==> front == old(front)
      ensures old(frontLen == front.Length) ==> fresh(front)
      ensures (front == back) == old(front == back && frontLen < front.Length)
    {
      front, frontLen := Append(front, frontLen, m);
    }

    /** Shows the current frame to the visitor in order, stopping after the
        first mass it refuses. Returns the masses shown; nothing changes. */
    method WriteFrame(visitor: Visitor) returns (shown: seq<Mass>)
      requires Valid()
      ensures shown == Shown(Contents(), visitor)
    {
      ghost var frame := Contents();
      shown := [];
      var i := 0;
      while i < frontLen
        invariant 0 <= i <= frontLen == |frame|
        invariant shown == frame[..i]
        invariant forall j :: 0 <= j < i ==> visitor(frame[..j], frame[j])
      {
        var mass := front[i];
        var goOn := visitor(shown, mass);
        shown := shown + [mass];
        if !goOn {
          ShownUnique(frame, visitor, i);
          return;
        }
        i := i + 1;
      }
      ShownUnique(frame, visitor, i);
    }
  }

  /** A new engine with G = 1 and radius 2 to which the two masses of
      PairFrame are added; its buffers are separate arrays. */
  method NewPairEngine() returns (sim: NaiveSimulation)
    ensures fresh(sim) && sim.Valid() && sim.Contents() == PairFrame
    ensures sim.g == 1.0 && sim.radius == 2.0
    ensures fresh(sim.front) && fresh(sim.back) && sim.front != sim.back
  {
    sim := new NaiveSimulation(2, 1.0, 2.0);
    sim.Add(PairFrame[0]);
    sim.Add(PairFrame[1]);
    assert sim.Contents() == PairFrame;
  }

  /** A fresh PairFrame engine takes its first Tick(1) against the old
      frame: the second mass keeps velocity {0,0}. */
  method FirstTickOfPair(sqrt: real -> real) returns (vel: Vec2)
    requires PairRoots(sqrt)
    ensures vel == Zero
  {
    PairIntegrable(sqrt);
    PairDetached(sqrt);
    var sim := NewPairEngine();
    sim.Tick(1.0, sqrt);
    vel := sim.front[1].vel;
  }

  /** A PairFrame engine after a Tick(0): no mass has changed, but the
      buffers now share one backing array. */
  method ZeroTickedPairEngine(sqrt: real -> real) returns (sim: NaiveSimulation)
    ensures fresh(sim) && sim.Valid() && sim.Contents() == PairFrame
    ensures sim.g == 1.0 && sim.radius == 2.0
    ensures fresh(sim.back) && sim.front == sim.back
  {
    PairIntegrable(sqrt);
    sim := NewPairEngine();
    sim.Tick(0.0, sqrt);
  }

  /** The same engine after a Tick(0) takes its Tick(1) in place, and the
      second mass is pulled towards the first, which has already moved
      away. */
  method TickAfterZeroTickOfPair(sqrt: real -> real) returns (vel: Vec2)
    requires PairRoots(sqrt)
    ensures vel == Vec2(-1.0 / 9.0, 0.0)
  {
    PairIntegrable(sqrt);
    PairInPlace(sqrt);
    var sim := ZeroTickedPairEngine(sqrt);
    sim.Tick(1.0, sqrt);
    vel := sim.front[1].vel;
  }

  /** The sharing made by the first swap is observable: the same masses and
      the same Tick(1) give the second mass a different velocity depending
      on whether a Tick(0) came first. */
  method ZeroTickChangesNextTick(sqrt: real -> real) returns (separate: Vec2, shared: Vec2)
    requires IsSqrt(sqrt)
    ensures separate == Zero && shared == Vec2(-1.0 / 9.0, 0.0)
    ensures separate != shared
  {
    PairRootsOf(sqrt);
    separate := FirstTickOfPair(sqrt);
    shared := TickAfterZeroTickOfPair(sqrt);
  }
}
