# nbody: the naive gravity engine, modelled in Dafny

This project models the simulation core of the `nbody` program. The program advances a set of point masses through time under pairwise Newtonian gravity. It lets a front end read each frame through a visitor callback.

The model has four modules.

- `Vector` (`vec2.dfy`) models the immutable 2D vector `Vec2` and its operations `Add`, `Sub`, `Scale`, `Div`, `Norm` and `Normalize`. `float64` is modelled as `real`. `math.Sqrt` cannot be defined over Dafny's reals, so `Norm` takes the square-root routine as a parameter `sqrt`. The predicate `IsSqrt(sqrt)` says what a square root is, and the lemmas that need it require it.
- `Simulation` (`simulation.dfy`) models the `Mass` record as a datatype, so two masses are equal exactly when their position, velocity, mass and static flag are. It also models the contract of the `Simulation` interface for `WriteFrame`. `Shown(frame, visitor)` is the prefix of the frame that a visitor is shown: everything up to and including the first mass it refuses.
- `NaiveStep` (`naive_step.dfy`) states what one `Tick` computes, as functions on the frame:
  - `Pull` is one turn of the inner loop, including the radius cut-off.
  - `Attract` is the whole inner loop.
  - `Step` is one turn of the outer loop.
  - `Sweep` is the whole tick.
- `Naive` (`naive.dfy`) models the engine itself: the class `NaiveSimulation` with its two buffers, and Go's `append`. Each Go slice is a backing `array<Mass>` plus a length field; its capacity is the array's length.

## Buffer sharing

`swapBuffers` sets the front slice to the back slice and truncates the back slice to length 0. The truncated back keeps the same backing array. So after the first `Tick` the two buffers share one array (`front == back` in the model). The old front is dropped, not recycled as the new back as a strict double buffer would do. Here the model follows the code.

While the buffers share an array, the `append` in `Tick`'s outer loop writes updated mass `i` over `front[i]` before the inner loops of masses `i+1..n-1` read the frame. `Sweep(law, s, inPlace, dt)` captures this.

- **In place (Gauss–Seidel).** When `inPlace` holds, mass `i` is stepped against the frame `r[..i] + s[i..]`: the masses already updated, followed by the old ones.
- **Not in place (Jacobi).** Otherwise mass `i` is stepped against the old frame `s`.

`Tick` is specified as `Sweep` with `inPlace` equal to whether the buffers shared their array before the tick. Afterwards they always share it.

`Add` keeps the sharing when the front has room. When the front has no room, `append` moves it to a fresh array, and that ends the sharing until the next swap.

`InPlaceSeesMovedPartner` and `ZeroTickChangesNextTick` exhibit the difference on two masses. A `Tick(0)` changes no mass, yet it changes how the next `Tick` integrates.

## Model

| member | source | states |
|---|---|---|
| Vector.Vec2.Add | sim/vec2.go:19-25 | adding the zero vector changes nothing |
| Vector.Vec2.Sub | sim/vec2.go:27-33 | the difference is the zero vector exactly when the two vectors are equal |
| Vector.Vec2.Scale | sim/vec2.go:35-41 | scaling by 0 gives the zero vector; scaling by 1 changes nothing |
| Vector.Vec2.Div | sim/vec2.go:43-49 | defined for a non-zero divisor; scaling the quotient back by the divisor gives the original vector |
| Vector.Vec2.Norm | sim/vec2.go:51-54 | for a true square root, the norm is the non-negative r with r² = x² + y² |
| Vector.Vec2.Normalize | sim/vec2.go:56-59 | defined when the norm is non-zero; for a true square root the result has norm 1 |
| Vector.ScaledToUnit | sim/vec2.go:56-59 | a vector with non-zero norm, scaled by the reciprocal of its norm, has norm 1 |
| Vector.AddSubInverse | sim/vec2.go:19-33 | `Sub` undoes `Add` and `Add` undoes `Sub` |
| Vector.AddZero | sim/vec2.go:19-25 | the zero vector is the identity of `Add`, and `Add` is commutative |
| Vector.ScaleZeroOne | sim/vec2.go:35-41 | `Scale(0)` is the zero vector; `Scale(1)` is the identity |
| Vector.ScaleDivInverse | sim/vec2.go:35-49 | for a non-zero scalar, `Div` undoes `Scale` and `Scale` undoes `Div` |
| Vector.SqrtUnique | sim/vec2.go:51-54 | any non-negative r with r·r = a is the square root of a |
| Vector.NormIs | sim/vec2.go:51-54 | a non-negative r with r² = x² + y² is the norm of (x, y) |
| Vector.SquaredNormZero | sim/vec2.go:51-54 | x² + y² is never negative, and it is 0 exactly for the zero vector |
| Vector.NormNonNegative | sim/vec2.go:51-54 | a norm is never negative |
| Vector.NormOfZero | sim/vec2.go:51-54 | the zero vector has norm 0 |
| Vector.NormPositive | sim/vec2.go:51-54 | every other vector has a positive norm |
| Vector.NormalizeUnit | sim/vec2.go:56-59 | `Normalize` (defined when the norm is non-zero) gives a vector of norm 1, which scaled back by the norm is the original |
| Simulation.FirstRefusal | sim/simulation.go:12-13 | the stopping index lies between where the search starts and the end of the frame |
| Simulation.Shown | sim/simulation.go:12-13 | what a visitor is shown is a prefix of the frame, and at least one mass when the frame is not empty |
| Simulation.FirstRefusalIsFirst | sim/simulation.go:12-13 | the stopping index is the first mass the visitor refuses, or the end of the frame |
| Simulation.ShownIsPrefix | sim/simulation.go:12-13 | the visitor is shown a prefix of the frame in order; all but the last mass were accepted; the last was refused unless the whole frame was shown; a non-empty frame shows at least one mass |
| Simulation.ShownUnique | sim/simulation.go:12-13 | a visitor that accepts the first n masses is shown the whole frame when n is its length, and otherwise the first n + 1 masses when it refuses mass n |
| NaiveStep.Pull | sim/naive.go:49-61 | one pair: only the velocity of m1 is assigned; position, mass and the static flag are kept |
| NaiveStep.Attract | sim/naive.go:47-62 | the inner loop keeps the position, mass and static flag of m1 |
| NaiveStep.Gravitation | sim/naive.go:58 | G·m1·m2 / r² is positive (attractive) for a positive G and positive masses |
| NaiveStep.Step | sim/naive.go:45-66 | one outer turn keeps the mass and the static flag, and a static mass keeps its velocity |
| NaiveStep.Swept | sim/naive.go:44-70 | after k outer turns the back buffer holds k masses |
| NaiveStep.Sweep | sim/naive.go:44-70 | a tick yields exactly as many masses as it read |
| NaiveStep.SweptAt | sim/naive.go:44-70 | entry i of the first k is mass i stepped against the old frame, or in place against the updated masses 0..i-1 followed by the old masses from i on |
| NaiveStep.SweepAt | sim/naive.go:44-70 | the same characterisation for the whole tick: count and order preserved, entry i from mass i |
| NaiveStep.SweepKeepsMasses | sim/naive.go:44-70 | a tick keeps the count, the order, and every entry's `Mass` and `Static` fields |
| NaiveStep.SweepKeepsIntegrable | sim/naive.go:44-70 | what a tick is defined on stays so after it, so ticks can be repeated |
| NaiveStep.SweepStatic | sim/naive.go:46-66 | a static mass keeps its velocity exactly and moves to `Pos + Vel*dt`, so a static mass at rest does not change |
| NaiveStep.SweepKeepsStaticAtRest | sim/simulation.go:21-28 | if every static mass has velocity {0,0} before a tick, that stays true after it |
| NaiveStep.PullCutoff | sim/naive.go:51-56 | a partner closer than the radius contributes nothing |
| NaiveStep.DistanceSelf | sim/naive.go:49-51 | a mass is at distance 0 from itself |
| NaiveStep.NoSelfPull | sim/naive.go:49-56 | with a positive radius, a partner at the same position (the mass itself in particular) contributes nothing |
| NaiveStep.AttractAllNear | sim/naive.go:47-62 | when every partner is within the radius, the velocity is unchanged |
| NaiveStep.AttractNoTime | sim/naive.go:47-62 | with dt = 0 the inner loop changes nothing |
| NaiveStep.AttractTwo | sim/naive.go:47-62 | over two partners, the inner loop applies their pulls in order |
| NaiveStep.StepUnpulled | sim/naive.go:45-66 | a mass that no partner pulls only moves by `Vel*dt` |
| NaiveStep.SweepNoTime | sim/naive.go:44-70 | `Tick(0)` leaves every mass exactly as it was, in place or not |
| NaiveStep.SweepFirstAgrees | sim/naive.go:44-69 | the first mass is stepped the same whether or not the buffers share storage |
| NaiveStep.PairIntegrable | sim/naive.go:44-70 | the two-mass example frame is within the tick's domain |
| NaiveStep.PairRootsOf | sim/vec2.go:51-54 | a true square root gives sqrt(0) = 0, sqrt(1) = 1 and sqrt(9) = 3, the roots the two-mass example needs |
| NaiveStep.PairSecondNear | sim/naive.go:49-51 | the second example mass is at distance 1 from the first |
| NaiveStep.PairSecondAllNear | sim/naive.go:49-56 | both example masses are within the radius of the second |
| NaiveStep.PairSecondStep | sim/naive.go:45-66 | against the old frame, the second example mass keeps velocity {0,0} |
| NaiveStep.PairDetached | sim/naive.go:44-70 | against the old frame, the second example mass has both partners within the radius and keeps velocity {0,0} |
| NaiveStep.PairFirstNear | sim/naive.go:49-56 | both example masses are within the radius of the first |
| NaiveStep.PairFirstStep | sim/naive.go:45-66 | the first example mass keeps its velocity and moves to (-2, 0) |
| NaiveStep.PairFirstMoves | sim/naive.go:44-69 | in place, the first example mass is updated to (-2, 0) before the second is stepped |
| NaiveStep.PairPull | sim/naive.go:49-61 | a unit mass at distance 3 with G = 1 changes the other's velocity by (-1/9, 0) over dt = 1 |
| NaiveStep.AttractThenSelf | sim/naive.go:47-62 | over a partner followed by the mass itself, the inner loop takes only the partner's pull |
| NaiveStep.PairSecondPulled | sim/naive.go:47-62 | seeing the moved first mass and itself, the second example mass gets velocity (-1/9, 0) |
| NaiveStep.PairInPlace | sim/naive.go:44-70 | in place, the second example mass ends the tick with velocity (-1/9, 0) |
| NaiveStep.InPlaceSeesMovedPartner | sim/naive.go:34-69 | shared buffers change the result: the second example mass keeps {0,0} against the old frame but gets (-1/9, 0) in place |
| Naive.Append | sim/naive.go:69 | `append` yields the old slice plus the new mass; it writes into the same array when there is room and otherwise leaves the array untouched and uses a fresh, larger one |
| Naive.NaiveSimulation.constructor | sim/naive.go:23-30 | a new engine has an empty front and an empty back, in two separate fresh arrays of the given capacity, with the given G and radius |
| Naive.NaiveSimulation.SwapBuffers | sim/naive.go:33-36 | the back becomes the front, and the back is truncated to length 0 over the same array |
| Naive.NaiveSimulation.StepMass | sim/naive.go:45-66 | one outer turn computes exactly `Step` of mass i against the frame as it is read at that moment |
| Naive.NaiveSimulation.Tick | sim/naive.go:39-73 | the new frame is the sweep of the old one, in place exactly when the buffers shared an array, which they always do afterwards; the count is kept and the back is empty; the back keeps its array when the frame fits in it and is a fresh array otherwise; `Tick(0)` changes no mass; static masses at rest stay at rest |
| Naive.NaiveSimulation.Add | sim/naive.go:76-80 | the frame becomes the old frame plus m; the back is untouched; sharing with the back survives exactly when the front had room |
| Naive.NaiveSimulation.WriteFrame | sim/naive.go:83-92 | the visitor is called on the frame's masses in order, up to and including the first it refuses; nothing changes |
| Naive.NewPairEngine | sim/naive.go:23-30 | adding the two example masses to a new engine gives a frame of exactly those masses, with separate fresh buffers |
| Naive.FirstTickOfPair | sim/naive.go:39-72 | the first `Tick(1)` of that engine leaves the second mass with velocity {0,0} |
| Naive.ZeroTickedPairEngine | sim/naive.go:33-36 | after a `Tick(0)` the engine holds the same masses, but its buffers share one array |
| Naive.TickAfterZeroTickOfPair | sim/naive.go:39-72 | that engine's `Tick(1)` gives the second mass velocity (-1/9, 0) |
| Naive.ZeroTickChangesNextTick | sim/naive.go:34-69 | two engines with the same masses take the same `Tick(1)`; one had taken a `Tick(0)` first and ends with a different velocity for the second mass |

## Left out

- Naive.NaiveSimulation.Tick: it requires a positive radius and a non-zero mass for every non-static mass. With a radius of 0 or less, the self-pair at distance 0 is not skipped and the code divides by 0. A zero mass is divided by at `Fg.Div(m1.Mass)`, but only when some partner is at or beyond the radius. The requirement still excludes a moving mass of zero whose partners are all within the radius, although the code would not divide then. IEEE-754 NaN and Inf results are not modelled.
- The `Normalize` of the displacement is computed before the cut-off check. At distance 0 that value is NaN and is discarded. The model computes `Normalize` only for partners it keeps, which gives the same result over the reals.
- `float64` rounding, including that of `math.Pow` and `math.Sqrt`: numbers are reals, and `math.Sqrt` is a parameter `sqrt` described by `IsSqrt`.
- Naive.Append: when the slice is full, the model picks a fresh array of twice the capacity (1 when it was 0). Go's own growth policy is not modelled: it doubles below 256 elements, then grows by about 1.25 times, rounded up to allocation size classes. The contracts only rely on the new array being fresh and large enough.
- The `sync.RWMutex` and the concurrency it guards: every operation is modelled as atomic.
- Naive.NaiveSimulation.WriteFrame: the visitor is a pure function of the masses already shown and the current mass, which covers a closure keeping its own state. Effects the visitor has elsewhere are not modelled.
- `NewNaiveSimulation` with a negative capacity makes Go panic; the model's capacity is a `nat`.
- `Vec2.String` (sim/vec2.go:14-17) is formatting only.
- `sim/demo.go` and the `gui` package (rendering, timing, randomness and the goroutine driving the engine) are not part of this model.
- Physical claims (conservation of momentum, two-body symmetry) are not stated.
- A strict double buffer does two things the code does not. It recycles the old front as the new back, and it never moves a static mass. In the code, a static mass is still moved by `Pos + Vel*dt`, so it stays put only while its velocity is {0,0}. Both points are modelled as the code does them.
