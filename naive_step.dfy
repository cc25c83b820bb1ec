/** What one Tick of the naive engine computes, stated as functions on the
    frame: the pairwise pull (inner loop), the velocity a mass accumulates
    over the frame it sees, the Euler step of one mass, and the sweep over
    the whole frame.

    The sweep takes a flag `inPlace`. When the engine's front and back
    buffers share one backing array, each updated mass is written over the
    frame while the loop is still reading it, so mass i sees the updated
    masses 0..i-1 and the old masses i..n-1. When they do not share it, every
    mass sees the old frame. */
module NaiveStep {
  import opened Vector
  import opened Simulation

  /** The engine's gravitational constant and cut-off radius, and the
      square-root routine that distances are computed with. */
  datatype Gravity = Gravity(g: real, radius: real, sqrt: real -> real)

  /** A Tick keeps this mass within the reals: a moving mass needs a
      non-zero mass (Tick divides by it) and a positive radius (otherwise
      the mass's pairing with itself, at distance 0, is not skipped and Tick
      divides by that distance). */
  predicate TickDefined(law: Gravity, m: Mass) {
    !m.isStatic ==> 0.0 < law.radius && m.mass != 0.0
  }

  predicate Integrable(law: Gravity, frame: seq<Mass>) {
    forall i :: 0 <= i < |frame| ==> TickDefined(law, frame[i])
  }

  /** The distance from m1 to m2. */
  function Distance(law: Gravity, m1: Mass, m2: Mass): real {
    m2.pos.Sub(m1.pos).Norm(law.sqrt)
  }

  /** Newton's law of universal gravitation: the magnitude G m1 m2 / r² of
      the force between m1 and m2 at distance r, positive (attractive) for a
      positive G and positive masses. */
  function Gravitation(law: Gravity, m1: Mass, m2: Mass, r: real): (f: real)
    requires r != 0.0
    ensures 0.0 < law.g && 0.0 < m1.mass && 0.0 < m2.mass ==> 0.0 < f
  {
    law.g * (m1.mass * m2.mass) / (r * r)
  }

  /** One turn of the inner loop: m1 after taking the velocity change that
      m2's gravity causes over dt. A partner closer than the radius is
      skipped. Only the velocity is assigned. */
  function Pull(law: Gravity, m1: Mass, m2: Mass, dt: real): (pulled: Mass)
    requires 0.0 < law.radius && m1.mass != 0.0
    ensures pulled.pos == m1.pos && pulled.mass == m1.mass && pulled.isStatic == m1.isStatic
  {
    var displacement := m2.pos.Sub(m1.pos);
    var r := displacement.Norm(law.sqrt);
    if r < law.radius then m1
    else
      assert 0.0 < r * r;
      var angle := displacement.Normalize(law.sqrt);
      var magFg := Gravitation(law, m1, m2, r);
      var a := angle.Scale(magFg).Div(m1.mass);
      m1.(vel := m1.vel.Add(a.Scale(dt)))
  }

  /** The inner loop: m1 after pulls from every mass of the view, in order. */
  function Attract(law: Gravity, m1: Mass, view: seq<Mass>, dt: real): (attracted: Mass)
    requires 0.0 < law.radius && m1.mass != 0.0
    ensures attracted.pos == m1.pos && attracted.mass == m1.mass
    ensures attracted.isStatic == m1.isStatic
    decreases |view|
  {
    if view == [] then m1
    else Pull(law, Attract(law, m1, view[..|view| - 1], dt), view[|view| - 1], dt)
  }

  /** One turn of the outer loop: a static mass keeps its velocity, any
      other is attracted by the view; then the position moves by vel * dt. */
  function Step(law: Gravity, view: seq<Mass>, m1: Mass, dt: real): (stepped: Mass)
    requires TickDefined(law, m1)
    ensures stepped.mass == m1.mass && stepped.isStatic == m1.isStatic
    ensures m1.isStatic ==> stepped.vel == m1.vel
  {
    var m := if m1.isStatic then m1 else Attract(law, m1, view, dt);
    m.(pos := m.pos.Add(m.vel.Scale(dt)))
  }

  /** The first k masses the outer loop has written to the back buffer. */
  function Swept(law: Gravity, s: seq<Mass>, inPlace: bool, dt: real, k: nat): (done: seq<Mass>)
    requires k <= |s| && Integrable(law, s)
    ensures |done| == k
    decreases k
  {
    if k == 0 then []
    else
      var done := Swept(law, s, inPlace, dt, k - 1);
      done + [Step(law, if inPlace then done + s[k - 1..] else s, s[k - 1], dt)]
  }

  /** The frame after one Tick over s. */
  function Sweep(law: Gravity, s: seq<Mass>, inPlace: bool, dt: real): (next: seq<Mass>)
    requires Integrable(law, s)
    ensures |next| == |s|
  {
    Swept(law, s, inPlace, dt, |s|)
  }

  /** The first k updated masses: mass i was stepped against the old frame,
      or, in place, against the i masses updated before it followed by the
      old masses from i on. */
  lemma {:induction false} SweptAt(law: Gravity, s: seq<Mass>, inPlace: bool, dt: real, k: nat)
    requires k <= |s| && Integrable(law, s)
    ensures var done := Swept(law, s, inPlace, dt, k);
      && |done| == k
      && forall i :: 0 <= i < k ==>
           done[i] == Step(law, if inPlace then done[..i] + s[i..] else s, s[i], dt)
  {
    if k > 0 {
      SweptAt(law, s, inPlace, dt, k - 1);
      var prev := Swept(law, s, inPlace, dt, k - 1);
      var done := Swept(law, s, inPlace, dt, k);
      assert done == prev + [done[k - 1]];
      forall i | 0 <= i < k
        ensures done[i] == Step(law, if inPlace then done[..i] + s[i..] else s, s[i], dt)
      {
        if i < k - 1 {
          assert done[..i] == prev[..i];
        } else {
          assert done[..i] == prev;
        }
      }
    }
  }

  /** Tick as a whole: one entry per mass, in the same order, entry i being
      mass i stepped against the frame it sees. */
  lemma SweepAt(law: Gravity, s: seq<Mass>, inPlace: bool, dt: real)
    requires Integrable(law, s)
    ensures var r := Sweep(law, s, inPlace, dt);
      && |r| == |s|
      && forall i :: 0 <= i < |s| ==>
           r[i] == Step(law, if inPlace then r[..i] + s[i..] else s, s[i], dt)
  {
    SweptAt(law, s, inPlace, dt, |s|);
  }

  /** Tick keeps the number and order of the masses and never assigns a
      mass's Mass or Static field. */
  lemma SweepKeepsMasses(law: Gravity, s: seq<Mass>, inPlace: bool, dt: real)
    requires Integrable(law, s)
    ensures var r := Sweep(law, s, inPlace, dt);
      && |r| == |s|
      && forall i :: 0 <= i < |s| ==> r[i].mass == s[i].mass && r[i].isStatic == s[i].isStatic
  {
    SweepAt(law, s, inPlace, dt);
  }

  /** What Tick is defined on it keeps being defined on. */
  lemma SweepKeepsIntegrable(law: Gravity, s: seq<Mass>, inPlace: bool, dt: real)
    requires Integrable(law, s)
    ensures Integrable(law, Sweep(law, s, inPlace, dt))
  {
    SweepKeepsMasses(law, s, inPlace, dt);
  }

  /** A static mass keeps its velocity exactly and moves by vel * dt; so a
      static mass at rest does not change at all. */
  lemma SweepStatic(law: Gravity, s: seq<Mass>, inPlace: bool, dt: real, i: nat)
    requires Integrable(law, s) && i < |s| && s[i].isStatic
    ensures var r := Sweep(law, s, inPlace, dt);
      && |r| == |s|
      && r[i].vel == s[i].vel
      && r[i].pos == s[i].pos.Add(s[i].vel.Scale(dt))
      && (s[i].vel == Zero ==> r[i] == s[i])
  {
    SweepAt(law, s, inPlace, dt);
  }

  /** Tick keeps every static mass at rest when all of them were. */
  lemma SweepKeepsStaticAtRest(law: Gravity, s: seq<Mass>, inPlace: bool, dt: real)
    requires Integrable(law, s) && StaticAtRest(s)
    ensures StaticAtRest(Sweep(law, s, inPlace, dt))
  {
    var r := Sweep(law, s, inPlace, dt);
    SweepKeepsMasses(law, s, inPlace, dt);
    forall i | 0 <= i < |r|
      ensures AtRest(r[i])
    {
      if s[i].isStatic {
        SweepStatic(law, s, inPlace, dt, i);
      }
    }
  }

  /** A partner closer than the radius contributes nothing. */
  lemma PullCutoff(law: Gravity, m1: Mass, m2: Mass, dt: real)
    requires 0.0 < law.radius && m1.mass != 0.0
    requires Distance(law, m1, m2) < law.radius
    ensures Pull(law, m1, m2, dt) == m1
  {
  }

  /** A partner at the same position (the mass itself, in particular)
      contributes nothing: its distance is the square root of 0, inside a
      positive radius. */
  lemma NoSelfPull(law: Gravity, m: Mass, partner: Mass, dt: real)
    requires law.sqrt(0.0) == 0.0 && 0.0 < law.radius && m.mass != 0.0
    requires partner.pos == m.pos
    ensures Pull(law, m, partner, dt) == m
  {
    DistanceSelf(law, m);
  }

  /** When every mass of the view is within the radius, the velocity is
      unchanged. */
  lemma {:induction false} AttractAllNear(law: Gravity, m1: Mass, view: seq<Mass>, dt: real)
    requires 0.0 < law.radius && m1.mass != 0.0
    requires forall j :: 0 <= j < |view| ==> Distance(law, m1, view[j]) < law.radius
    ensures Attract(law, m1, view, dt) == m1
    decreases |view|
  {
    if view != [] {
      var init := view[..|view| - 1];
      AttractAllNear(law, m1, init, dt);
      PullCutoff(law, m1, view[|view| - 1], dt);
    }
  }

  /** A mass the view does not pull only drifts by vel * dt. */
  lemma StepUnpulled(law: Gravity, view: seq<Mass>, m: Mass, dt: real)
    requires TickDefined(law, m)
    requires !m.isStatic ==> Attract(law, m, view, dt) == m
    ensures Step(law, view, m, dt) == m.(pos := m.pos.Add(m.vel.Scale(dt)))
  {
  }

  /** With no time passing the inner loop changes nothing. */
  lemma {:induction false} AttractNoTime(law: Gravity, m1: Mass, view: seq<Mass>)
    requires 0.0 < law.radius && m1.mass != 0.0
    ensures Attract(law, m1, view, 0.0) == m1
    decreases |view|
  {
    if view != [] {
      AttractNoTime(law, m1, view[..|view| - 1]);
      ScaleZeroOne(m1.vel);
    }
  }

  /** Tick(0) leaves every mass exactly as it was. */
  lemma SweepNoTime(law: Gravity, s: seq<Mass>, inPlace: bool)
    requires Integrable(law, s)
    ensures Sweep(law, s, inPlace, 0.0) == s
  {
    var r := Sweep(law, s, inPlace, 0.0);
    SweepAt(law, s, inPlace, 0.0);
    forall i | 0 <= i < |s|
      ensures r[i] == s[i]
    {
      if !s[i].isStatic {
        AttractNoTime(law, s[i], if inPlace then r[..i] + s[i..] else s);
      }
    }
  }

  /** The first mass sees the old frame whether the buffers share storage
      or not; only later masses can tell the difference. */
  lemma SweepFirstAgrees(law: Gravity, s: seq<Mass>, dt: real)
    requires Integrable(law, s) && s != []
    ensures Sweep(law, s, true, dt)[0] == Sweep(law, s, false, dt)[0]
  {
    SweepAt(law, s, true, dt);
    SweepAt(law, s, false, dt);
    assert Sweep(law, s, true, dt)[..0] + s[0..] == s;
  }

  /** Two unit masses one apart, the first moving away from the second at
      speed 2. */
  const PairFrame := [Mass(Zero, Vec2(-2.0, 0.0), 1.0, false), Mass(Vec2(1.0, 0.0), Zero, 1.0, false)]

  /** G = 1 and radius 2. */
  function PairLaw(sqrt: real -> real): Gravity {
    Gravity(1.0, 2.0, sqrt)
  }

  /** Tick is defined on PairFrame. */
  lemma PairIntegrable(sqrt: real -> real)
    ensures Integrable(PairLaw(sqrt), PairFrame)
  {
  }

  /** What the PairFrame scenario needs of the square root. */
  predicate PairRoots(sqrt: real -> real) {
    sqrt(0.0) == 0.0 && sqrt(1.0) == 1.0 && sqrt(9.0) == 3.0
  }

  /** The second mass of PairFrame is at distance 1 from the first. */
  lemma PairSecondNear(sqrt: real -> real)
    requires sqrt(1.0) == 1.0
    ensures Distance(PairLaw(sqrt), PairFrame[1], PairFrame[0]) == 1.0
  {
    var d := PairFrame[0].pos.Sub(PairFrame[1].pos);
    assert d == Vec2(-1.0, 0.0);
    assert d.SquaredNorm() == 1.0;
  }

  /** Both masses of PairFrame are within the radius of the second. */
  lemma PairSecondAllNear(sqrt: real -> real)
    requires sqrt(0.0) == 0.0 && sqrt(1.0) == 1.0
    ensures forall j :: 0 <= j < |PairFrame| ==> Distance(PairLaw(sqrt), PairFrame[1], PairFrame[j]) < 2.0
  {
    var law, s := PairLaw(sqrt), PairFrame;
    forall j | 0 <= j < |s|
      ensures Distance(law, s[1], s[j]) < 2.0
    {
      if j == 0 {
        PairSecondNear(sqrt);
      } else {
        DistanceSelf(law, s[1]);
      }
    }
  }

  /** Against the old frame the second mass of PairFrame is not pulled. */
  lemma PairSecondStep(sqrt: real -> real)
    requires PairRoots(sqrt)
    ensures Step(PairLaw(sqrt), PairFrame, PairFrame[1], 1.0).vel == Zero
  {
    var law, s := PairLaw(sqrt), PairFrame;
    PairSecondAllNear(sqrt);
    AttractAllNear(law, s[1], s, 1.0);
    StepUnpulled(law, s, s[1], 1.0);
  }

  /** A true square root has the roots the PairFrame scenario needs. */
  lemma PairRootsOf(sqrt: real -> real)
    requires IsSqrt(sqrt)
    ensures PairRoots(sqrt)
  {
    SqrtUnique(sqrt, 0.0, 0.0);
    SqrtUnique(sqrt, 1.0, 1.0);
    SqrtUnique(sqrt, 9.0, 3.0);
  }

  /** Against the old frame the second mass of PairFrame has both partners
      within the radius and keeps its velocity. */
  lemma PairDetached(sqrt: real -> real)
    requires PairRoots(sqrt)
    ensures Sweep(PairLaw(sqrt), PairFrame, false, 1.0)[1].vel == Zero
  {
    PairSecondStep(sqrt);
    PairIntegrable(sqrt);
    SweepAt(PairLaw(sqrt), PairFrame, false, 1.0);
  }

  /** The first mass of PairFrame after it has moved. */
  const PairMoved := Mass(Vec2(-2.0, 0.0), Vec2(-2.0, 0.0), 1.0, false)

  /** A mass is at distance 0 from itself. */
  lemma DistanceSelf(law: Gravity, m: Mass)
    requires law.sqrt(0.0) == 0.0
    ensures Distance(law, m, m) == 0.0
  {
    assert m.pos.Sub(m.pos).SquaredNorm() == 0.0;
  }

  /** Both masses of PairFrame are within the radius of the first. */
  lemma PairFirstNear(sqrt: real -> real)
    requires sqrt(0.0) == 0.0 && sqrt(1.0) == 1.0
    ensures forall j :: 0 <= j < |PairFrame| ==> Distance(PairLaw(sqrt), PairFrame[0], PairFrame[j]) < 2.0
  {
    var law, s := PairLaw(sqrt), PairFrame;
    DistanceSelf(law, s[0]);
    assert Distance(law, s[0], s[1]) == 1.0 by {
      assert s[1].pos.Sub(s[0].pos).SquaredNorm() == 1.0;
    }
  }

  /** The first mass of PairFrame has its partner within the radius, so
      its velocity is kept and it moves to (-2, 0). */
  lemma PairFirstStep(sqrt: real -> real)
    requires PairRoots(sqrt)
    ensures Step(PairLaw(sqrt), PairFrame, PairFrame[0], 1.0) == PairMoved
  {
    var law, s := PairLaw(sqrt), PairFrame;
    PairFirstNear(sqrt);
    AttractAllNear(law, s[0], s, 1.0);
    StepUnpulled(law, s, s[0], 1.0);
  }

  /** In place, the first mass of PairFrame is updated first, against the
      old frame as always. */
  lemma PairFirstMoves(sqrt: real -> real)
    requires PairRoots(sqrt)
    ensures Sweep(PairLaw(sqrt), PairFrame, true, 1.0)[0] == PairMoved
  {
    var law, s := PairLaw(sqrt), PairFrame;
    PairFirstStep(sqrt);
    PairIntegrable(sqrt);
    SweepFirstAgrees(law, s, 1.0);
    SweepAt(law, s, false, 1.0);
  }

  /** A unit mass at (1, 0) is pulled by a unit mass at (-2, 0), at
      distance 3, by G * 1 * 1 / 3² towards it. */
  lemma PairPull(sqrt: real -> real)
    requires sqrt(9.0) == 3.0
    ensures Pull(PairLaw(sqrt), PairFrame[1], PairMoved, 1.0).vel == Vec2(-1.0 / 9.0, 0.0)
  {
    var d := PairMoved.pos.Sub(PairFrame[1].pos);
    assert d.SquaredNorm() == 9.0;
    assert d.Normalize(sqrt) == Vec2(-1.0, 0.0);
  }

  /** The inner loop over a view of two masses. */
  lemma AttractTwo(law: Gravity, m1: Mass, a: Mass, b: Mass, dt: real)
    requires 0.0 < law.radius && m1.mass != 0.0
    ensures Attract(law, m1, [a, b], dt) == Pull(law, Pull(law, m1, a, dt), b, dt)
  {
    assert [a, b][..1] == [a];
    assert [a][..0] == [];
    assert Attract(law, m1, [], dt) == m1;
    assert Attract(law, m1, [a], dt) == Pull(law, m1, a, dt);
  }

  /** Over a view of a partner followed by the mass itself, the inner loop
      takes the partner's pull only. */
  lemma AttractThenSelf(law: Gravity, m1: Mass, a: Mass, dt: real)
    requires law.sqrt(0.0) == 0.0 && 0.0 < law.radius && m1.mass != 0.0
    ensures Attract(law, m1, [a, m1], dt) == Pull(law, m1, a, dt)
  {
    AttractTwo(law, m1, a, m1, dt);
    NoSelfPull(law, Pull(law, m1, a, dt), m1, dt);
  }

  /** The second mass of PairFrame, seeing the moved first mass and itself,
      takes the pull of the first and not its own. */
  lemma PairSecondPulled(sqrt: real -> real)
    requires sqrt(0.0) == 0.0 && sqrt(9.0) == 3.0
    ensures Attract(PairLaw(sqrt), PairFrame[1], [PairMoved, PairFrame[1]], 1.0).vel == Vec2(-1.0 / 9.0, 0.0)
  {
    AttractThenSelf(PairLaw(sqrt), PairFrame[1], PairMoved, 1.0);
    PairPull(sqrt);
  }

  /** In place, the second mass of PairFrame is stepped against the moved
      first mass and itself. */
  lemma PairInPlace(sqrt: real -> real)
    requires PairRoots(sqrt)
    ensures Sweep(PairLaw(sqrt), PairFrame, true, 1.0)[1].vel == Vec2(-1.0 / 9.0, 0.0)
  {
    var law, s := PairLaw(sqrt), PairFrame;
    var r := Sweep(law, s, true, 1.0);
    PairFirstMoves(sqrt);
    SweepAt(law, s, true, 1.0);
    assert r[..1] + s[1..] == [PairMoved, s[1]];
    PairSecondPulled(sqrt);
  }

  /** Sharing the backing array is observable: in place, the second mass of
      PairFrame sees the first already moved out to distance 3 and is pulled
      towards it; against the old frame it sees it at distance 1, inside the
      radius, and keeps its velocity. */
  lemma InPlaceSeesMovedPartner(sqrt: real -> real)
    requires IsSqrt(sqrt)
    ensures Sweep(PairLaw(sqrt), PairFrame, false, 1.0)[1].vel == Zero
    ensures Sweep(PairLaw(sqrt), PairFrame, true, 1.0)[1].vel == Vec2(-1.0 / 9.0, 0.0)
  {
    PairRootsOf(sqrt);
    PairDetached(sqrt);
    PairInPlace(sqrt);
  }
}
