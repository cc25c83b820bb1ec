/** The Mass record and the contract every simulation engine offers:
    Tick advances time, Add admits one mass, and WriteFrame shows the current
    masses to a visitor, one call per mass, stopping once it answers false. */
module Simulation {
  import opened Vector

  /** A point mass. A plain value: two masses are equal when their fields are. */
  datatype Mass = Mass(pos: Vec2, vel: Vec2, mass: real, isStatic: bool)

  /** The documented convention that a static mass has velocity {0,0}. */
  predicate AtRest(m: Mass) {
    m.isStatic ==> m.vel == Zero
  }

  /** Every static mass of the frame is at rest. */
  predicate StaticAtRest(frame: seq<Mass>) {
    forall i :: 0 <= i < |frame| ==> AtRest(frame[i])
  }

  /** A WriteFrame visitor. Its answer may depend on the masses it has
      already been shown (the first argument), which covers a closure that
      keeps its own state between calls; true means "go on". */
  type Visitor = (seq<Mass>, Mass) -> bool

  /** The index of the first mass, from k on, that the visitor refuses, or
      |frame| when it refuses none. */
  function FirstRefusal(frame: seq<Mass>, visitor: Visitor, k: nat): (stop: nat)
    requires k <= |frame|
    ensures k <= stop <= |frame|
    decreases |frame| - k
  {
    if k == |frame| then k
    else if !visitor(frame[..k], frame[k]) then k
    else FirstRefusal(frame, visitor, k + 1)
  }

  /** The masses a visitor is shown, in order: the frame up to and including
      the first one it refuses, or the whole frame. */
  function Shown(frame: seq<Mass>, visitor: Visitor): (s: seq<Mass>)
    ensures |s| <= |frame| && s == frame[..|s|]
    ensures frame != [] ==> s != []
  {
    var stop := FirstRefusal(frame, visitor, 0);
    if stop < |frame| then frame[..stop + 1] else frame
  }

  /** FirstRefusal finds the first refusal at or after k: every mass before
      it is accepted, and it is refused unless it is the end of the frame. */
  lemma {:induction false} FirstRefusalIsFirst(frame: seq<Mass>, visitor: Visitor, k: nat)
    requires k <= |frame|
    ensures k <= FirstRefusal(frame, visitor, k) <= |frame|
    ensures forall j :: k <= j < FirstRefusal(frame, visitor, k) ==> visitor(frame[..j], frame[j])
    ensures FirstRefusal(frame, visitor, k) < |frame| ==>
              var r := FirstRefusal(frame, visitor, k); !visitor(frame[..r], frame[r])
    decreases |frame| - k
  {
    if k < |frame| && visitor(frame[..k], frame[k]) {
      FirstRefusalIsFirst(frame, visitor, k + 1);
    }
  }

  /** Shown is a prefix of the frame; every mass in it but the last was
      accepted, the last was refused unless the whole frame was shown, and a
      non-empty frame always shows at least its first mass. */
  lemma ShownIsPrefix(frame: seq<Mass>, visitor: Visitor)
    ensures var s := Shown(frame, visitor);
      && |s| <= |frame| && s == frame[..|s|]
      && (frame != [] ==> 1 <= |s|)
      && (forall j :: 0 <= j < |s| - 1 ==> visitor(frame[..j], frame[j]))
      && (|s| < |frame| ==> !visitor(frame[..|s| - 1], frame[|s| - 1]))
  {
    FirstRefusalIsFirst(frame, visitor, 0);
  }

  /** Shown is the only prefix with that shape: if the visitor accepts the
      first n masses, the frame shown is the first n, plus the next one when
      there is one (which is then refused or not, whichever the visitor says). */
  lemma ShownUnique(frame: seq<Mass>, visitor: Visitor, n: nat)
    requires n <= |frame|
    requires forall j :: 0 <= j < n ==> visitor(frame[..j], frame[j])
    ensures n == |frame| ==> Shown(frame, visitor) == frame
    ensures n < |frame| && !visitor(frame[..n], frame[n]) ==> Shown(frame, visitor) == frame[..n + 1]
  {
    FirstRefusalIsFirst(frame, visitor, 0);
  }
}
