# pfsspy field-line tracing: a Dafny model

pfsspy computes Potential-Field Source-Surface (PFSS) extrapolations of a
solar magnetic field and traces field lines through the result. A field
line is traced from a seed point in two halves. The forward half follows
the field (direction +1) and the backward half runs against it
(direction -1). An adaptive ODE solver (SciPy's `solve_ivp` with LSODA)
produces each half. The event function `finish_integration` has the value
`(r - 1) * (r - rss)` at radius `r`. The solver stops at the first sign
change of that event it detects between two steps, at t = 10000, or when
a step fails. For every seed, the batch routine `_integrate_seeds` flips
the backward half and puts it in front of the forward half. The result is
one list of points per seed, in seed order.

This project models that bookkeeping in one module, `Trace` (`trace.dfy`):

- The solver is a parameter `solveIvp: Ivp -> Result<HalfTrace>`. It
  stands for `solve_ivp` together with the field sampler `bTrace` that the
  source closes over. It either returns the recorded states or raises an
  `Exception`. `Ivp` records everything the source hands to the solver:
  the start point, the direction sign, the time span `(0, 10000)`, the
  source-surface radius `rss` used by the event, and the tolerances.
- A `HalfTrace` is the solver's recorded states in time order, as a
  non-empty `seq<Point>`. It is never empty because the solver always
  records the initial state. Nothing else is assumed about it: not that it
  starts at the seed, nor that it ends on a boundary.
- The solver returns an array with one column per point. The model keeps
  the points as a sequence, which is that array's transpose. So
  `np.flip(..., axis=1)` becomes `Flip`, and `np.row_stack` of the
  transposes becomes sequence concatenation.
- `FinishIntegration` takes the radius `r` as a real number. The Euclidean
  norm that computes it is left out.
- `_integrate_seeds` is a method with a loop that appends to a list of
  lines. It is proved against the specification function `TraceAll`,
  whose properties are proved as lemmas.
- `_integrate_seeds` returns bare point lists. It has no polarity label,
  no check that a seed lies inside the shell and no per-seed failure
  report. An exception raised by either run of any seed propagates out
  of the whole batch, and every line already traced is lost. The forward
  run of a seed is requested first, so the backward run is never
  requested when the forward run raises.

## Model

| member | source | states |
|---|---|---|
| `Trace.Sign` | pfsspy/trace.py:6 | The direction is -1, 0 or +1. It is positive exactly when the step is positive and negative exactly when the step is negative. |
| `Trace.Abs` | pfsspy/trace.py:7 | The step's magnitude is non-negative and equals either the step or its negation. |
| `Trace.SignAbs` | pfsspy/trace.py:6-7 | Sign times magnitude gives back the step, so splitting `dt` into direction and `abs(dt)` loses nothing. The sign's magnitude is at most 1. |
| `Trace.OneWayProblem` | pfsspy/trace.py:5-27 | The problem handed to the solver has direction +1 exactly for a positive step, -1 exactly for a negative one and 0 for a zero step. It starts at the given point with the given rss and tolerances, over a time span that starts at 0 and ends later. |
| `Trace.IntegrateOneWay` | pfsspy/trace.py:5-30 | A half-trace is the solver's result, or its exception, for the problem built from the step's sign alone. Replacing `dt` by `sign(dt)` changes nothing. |
| `Trace.OnlySignMatters` | pfsspy/trace.py:5-27 | Two steps with the same sign give the same half-trace or the same exception, for every solver. The magnitude of `dt` never reaches the solver. |
| `Trace.FinishIntegration` | pfsspy/trace.py:11-14 | The event value is zero exactly on the inner sphere (r = 1) or the source surface (r = rss). When rss > 1 it is negative exactly strictly inside the shell, and positive exactly below 1 or above rss. |
| `Trace.Flip` | pfsspy/trace.py:40 | The flip keeps the number of points; where each point goes is stated by `FlipAt`. |
| `Trace.FlipAt` | pfsspy/trace.py:40 | After the flip, position k holds the original point at position len - 1 - k. |
| `Trace.FlipAppend` | pfsspy/trace.py:40 | Flipping a concatenation flips both parts and swaps their order. |
| `Trace.FlipFlip` | pfsspy/trace.py:40 | Flipping twice restores the original order, so the flip loses no point. |
| `Trace.Stitch` | pfsspy/trace.py:40-41 | A line's length is the backward length plus the forward length. Its first len(back) points are the backward points in reverse order, and the forward points follow them in their own order. |
| `Trace.StitchJoin` | pfsspy/trace.py:40-41 | A line has at least two points. It starts at the backward half's last point and ends at the forward half's last point. Index len(back)-1 holds back[0] and index len(back) holds forw[0]. |
| `Trace.StitchSwap` | pfsspy/trace.py:38-41 | Swapping the roles of the two halves yields the same line run in the opposite direction (forward/backward symmetry). |
| `Trace.TraceSeed` | pfsspy/trace.py:37-41 | A seed's outcome comes from two solver runs from that seed with the same rss and tolerances over (0, 10000): direction +1 first, then -1. A forward exception is the outcome; otherwise a backward exception is; otherwise the line is the stitch of the backward and forward runs and has at least two points. |
| `Trace.TraceAll` | pfsspy/trace.py:33-43 | A batch that succeeds has exactly one line per seed. |
| `Trace.TraceAllAt` | pfsspy/trace.py:35-43 | A batch succeeds exactly when every seed does, and then line i is the line of seed i alone. Otherwise it raises the exception of the first seed that failed, all earlier seeds having succeeded. |
| `Trace.TraceAllAppend` | pfsspy/trace.py:35-43 | Seeds are traced independently and in order. Tracing two batches together gives the first batch's lines followed by the second's, or the first exception in that order. |
| `Trace.FailureAborts` | pfsspy/trace.py:36-43 | An exception at seed n is the outcome of the whole batch: the lines already traced and the seeds after n are dropped. |
| `Trace.IntegrateSeeds` | pfsspy/trace.py:33-43 | The loop's outcome equals `TraceAll` of the seeds. It succeeds exactly when every seed does, and then returns one line per seed, in seed order, each the line of its own seed. Otherwise it returns the exception of the first seed that failed. |

## Left out

- The ODE solve (`scipy.integrate.solve_ivp` with LSODA, pfsspy/trace.py:25-27) is not modelled. It is a foreign adaptive floating-point integrator with event root-finding, and here it is a function parameter. Nothing is claimed about step sizes, accuracy, where the trace starts, or that it ends on a boundary. The options that the source fixes for every call (`method='LSODA'`, `terminal = True` on the event) belong to that parameter and are not fields of `Ivp`.
- The field sampler `bTrace` is not part of this model. It is folded into the solver parameter.
- The radius `np.linalg.norm(coord)` (pfsspy/trace.py:12) is not modelled. It is a floating-point square root; `FinishIntegration` takes the radius as an input instead.
- Floating-point arithmetic is not modelled. Coordinates, radii and tolerances are Dafny `real`s, so the event's sign analysis is exact.
- The dead assignments of `t` and `xout` (pfsspy/trace.py:8-9) are not modelled. `xout` is overwritten at line 29 before it is used, and neither has an observable effect. Likewise, the value of `abs(dt)` (line 7) is computed but never used; `Abs` and `SignAbs` model it and `OnlySignMatters` states that it is unused.
- The `None` defaults of `rss`, `bTrace`, `rtol` and `atol` (pfsspy/trace.py:33-34) are not modelled: the model always takes real values and a solver. A call that leaves them `None` fails inside the solver, which is the `Err` outcome of the solver parameter.
- `Trace.IntegrateSeeds`: the solver parameter is a mathematical function, so the same problem always gives the same outcome. Any state kept by the field sampler or the solver between calls is not modelled.
- The demo script examples/plot_dipole.py is not part of this model. It covers plotting, the PFSS solver, input construction and a separate tracer API.
