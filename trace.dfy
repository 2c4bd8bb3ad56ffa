/**
 * Field-line tracing bookkeeping of pfsspy (pfsspy/trace.py).
 *
 * A field line is traced from a seed by two half-traces, one run forward
 * along the field (direction +1) and one backward (direction -1). Each
 * half-trace is produced by an adaptive ODE solver, which stops at the first
 * sign change of the event function FinishIntegration that it detects
 * between two steps, at the end of the time span, or when a step fails; it
 * may also raise an exception. The solver itself is a parameter of this
 * model (`solveIvp`). What is modelled exactly is the rest: the direction
 * handling, the meaning of the stopping rule, how the two half-traces of
 * every seed are stitched into one line, and how an exception ends a batch.
 */
module Trace {

  /** A point of the 3-D Cartesian domain, in units of the inner radius. */
  datatype Point = Point(x: real, y: real, z: real)

  /**
   * The output of one solver run: the states it recorded, in order of
   * increasing integration time. The solver always records the initial
   * state, so there is at least one point.
   */
  type HalfTrace = s: seq<Point> | |s| > 0 witness [Point(0.0, 0.0, 0.0)]

  /** An exception raised by the solver or by the field sampler it calls. */
  datatype Exception = Exception(message: string)

  /** Either a value or the exception that was raised instead of computing it. */
  datatype Result<T> = Ok(value: T) | Err(error: Exception)

  /**
   * One initial-value problem as the source hands it to the solver: where
   * to start, the sign that multiplies the field vector, the time span, the
   * outer radius that the event function uses, and the tolerances.
   */
  datatype Ivp = Ivp(start: Point, direction: int, tStart: real, tEnd: real,
                     rss: real, rtol: real, atol: real)

  /** End of the integration time span. It is deliberately large, so that the event ends the run. */
  const TSpanEnd: real := 10000.0

  // ---------------------------------------------------------------------
  // Direction handling
  // ---------------------------------------------------------------------

  /** The sign of a step, as numpy's `sign`: -1, 0 or +1. */
  function Sign(dt: int): (s: int)
    ensures -1 <= s <= 1
    ensures s > 0 <==> dt > 0
    ensures s < 0 <==> dt < 0
  {
    if dt > 0 then 1 else if dt < 0 then -1 else 0
  }

  /** The magnitude of a step, as numpy's `abs`. */
  function Abs(dt: int): (a: nat)
    ensures a == dt || a == -dt
  {
    if dt < 0 then -dt else dt
  }

  /** Sign and magnitude together lose nothing of the step. */
  lemma SignAbs(dt: int)
    ensures Sign(dt) * Abs(dt) == dt
    ensures Abs(Sign(dt)) <= 1
  {
  }

  /** The problem that one half-trace solves for a step `dt`: only its sign reaches the solver. */
  function OneWayProblem(dt: int, start: Point, rss: real, rtol: real, atol: real): (p: Ivp)
    ensures p.direction == 1 <==> dt > 0
    ensures p.direction == -1 <==> dt < 0
    ensures p.direction == 0 <==> dt == 0
    ensures p.start == start && p.rss == rss && p.rtol == rtol && p.atol == atol
    ensures p.tStart == 0.0 < p.tEnd
  {
    Ivp(start, Sign(dt), 0.0, TSpanEnd, rss, rtol, atol)
  }

  /**
   * One half-trace from `start`, forward for a positive step and backward
   * for a negative one, or the exception the solver raised. Replacing the
   * step by its sign changes nothing.
   */
  function IntegrateOneWay(dt: int, start: Point, rss: real, rtol: real, atol: real,
                           solveIvp: Ivp -> Result<HalfTrace>): (r: Result<HalfTrace>)
    ensures r == solveIvp(OneWayProblem(Sign(dt), start, rss, rtol, atol))
  {
    solveIvp(OneWayProblem(dt, start, rss, rtol, atol))
  }

  /**
   * The magnitude of the step is discarded: two steps with the same sign
   * give the same half-trace whatever the solver does.
   */
  lemma OnlySignMatters(dt1: int, dt2: int, start: Point, rss: real, rtol: real, atol: real,
                        solveIvp: Ivp -> Result<HalfTrace>)
    requires Sign(dt1) == Sign(dt2)
    ensures IntegrateOneWay(dt1, start, rss, rtol, atol, solveIvp)
         == IntegrateOneWay(dt2, start, rss, rtol, atol, solveIvp)
  {
  }

  // ---------------------------------------------------------------------
  // Stopping rule
  // ---------------------------------------------------------------------

  /**
   * The terminal event value at a point of radius `r`. The solver stops when
   * it detects a change of its sign between two steps. Its sign says where the point is relative to the shell
   * between the inner sphere (radius 1) and the source surface (radius rss).
   */
  function FinishIntegration(r: real, rss: real): (g: real)
    ensures g == 0.0 <==> r == 1.0 || r == rss
    ensures rss > 1.0 ==> (g < 0.0 <==> 1.0 < r < rss)
    ensures rss > 1.0 ==> (g > 0.0 <==> r < 1.0 || r > rss)
  {
    ProductSign(r - 1.0, r - rss);
    (r - 1.0) * (r - rss)
  }

  /** The sign of a product from the signs of its factors. */
  lemma ProductSign(a: real, b: real)
    ensures a * b == 0.0 <==> a == 0.0 || b == 0.0
    ensures a * b < 0.0 <==> (a < 0.0 && b > 0.0) || (a > 0.0 && b < 0.0)
    ensures a * b > 0.0 <==> (a < 0.0 && b < 0.0) || (a > 0.0 && b > 0.0)
  {
  }

  // ---------------------------------------------------------------------
  // Stitching half-traces into field lines
  // ---------------------------------------------------------------------

  /** The points of `s` in the opposite order, as numpy's `flip` along the point axis. */
  function Flip(s: seq<Point>): (f: seq<Point>)
    ensures |f| == |s|
  {
    if s == [] then [] else Flip(s[1..]) + [s[0]]
  }

  /** Position `k` of the flipped sequence holds position `|s| - 1 - k` of the original. */
  lemma {:induction false} FlipAt(s: seq<Point>, k: nat)
    requires k < |s|
    ensures Flip(s)[k] == s[|s| - 1 - k]
  {
    if k < |s| - 1 {
      FlipAt(s[1..], k);
    }
  }

  lemma FlipIndexes(s: seq<Point>)
    ensures forall k :: 0 <= k < |s| ==> Flip(s)[k] == s[|s| - 1 - k]
  {
    forall k | 0 <= k < |s|
      ensures Flip(s)[k] == s[|s| - 1 - k]
    {
      FlipAt(s, k);
    }
  }

  /** Flipping a concatenation flips both parts and swaps them. */
  lemma {:induction false} FlipAppend(a: seq<Point>, b: seq<Point>)
    ensures Flip(a + b) == Flip(b) + Flip(a)
  {
    if a == [] {
      assert a + b == b;
    } else {
      assert (a + b)[1..] == a[1..] + b;
      FlipAppend(a[1..], b);
    }
  }

  /** Flipping twice gives back the original order. */
  lemma {:induction false} FlipFlip(s: seq<Point>)
    ensures Flip(Flip(s)) == s
  {
    if s != [] {
      FlipAppend(Flip(s[1..]), [s[0]]);
      FlipFlip(s[1..]);
      assert Flip([s[0]]) == [s[0]] by {
        assert [s[0]][1..] == [];
      }
    }
  }

  /**
   * One field line from its backward and forward half-traces: the backward
   * points in reverse order, then the forward points.
   */
  function Stitch(back: seq<Point>, forw: seq<Point>): (line: seq<Point>)
    ensures |line| == |back| + |forw|
    ensures forall k :: 0 <= k < |back| ==> line[k] == back[|back| - 1 - k]
    ensures forall k :: 0 <= k < |forw| ==> line[|back| + k] == forw[k]
  {
    FlipIndexes(back);
    Flip(back) + forw
  }

  /**
   * Where the two half-traces meet, and where the line ends: the line runs
   * from the backward terminus, through the two starting states, to the
   * forward terminus, and holds at least two points.
   */
  lemma StitchJoin(back: HalfTrace, forw: HalfTrace)
    ensures |Stitch(back, forw)| >= 2
    ensures Stitch(back, forw)[0] == back[|back| - 1]
    ensures Stitch(back, forw)[|back| - 1] == back[0]
    ensures Stitch(back, forw)[|back|] == forw[0]
    ensures Stitch(back, forw)[|back| + |forw| - 1] == forw[|forw| - 1]
  {
  }

  /**
   * Exchanging the roles of the two half-traces gives the same line run in
   * the opposite direction.
   */
  lemma StitchSwap(back: seq<Point>, forw: seq<Point>)
    ensures Flip(Stitch(back, forw)) == Stitch(forw, back)
  {
    FlipAppend(Flip(back), forw);
    FlipFlip(back);
  }

  /**
   * The field line traced from one seed, or the exception that ended it.
   * The forward run comes first: when it raises, the backward run is never
   * requested.
   */
  function TraceSeed(seed: Point, rss: real, rtol: real, atol: real,
                     solveIvp: Ivp -> Result<HalfTrace>): (r: Result<seq<Point>>)
    ensures var forw := solveIvp(Ivp(seed, 1, 0.0, 10000.0, rss, rtol, atol));
            var back := solveIvp(Ivp(seed, -1, 0.0, 10000.0, rss, rtol, atol));
            && (forw.Err? ==> r == Err(forw.error))
            && (forw.Ok? && back.Err? ==> r == Err(back.error))
            && (forw.Ok? && back.Ok? ==>
                  r == Ok(Stitch(back.value, forw.value)) && |r.value| >= 2)
  {
    var forw := IntegrateOneWay(1, seed, rss, rtol, atol, solveIvp);
    if forw.Err? then Err(forw.error)
    else
      var back := IntegrateOneWay(-1, seed, rss, rtol, atol, solveIvp);
      if back.Err? then Err(back.error)
      else Ok(Stitch(back.value, forw.value))
  }

  /**
   * The lines of a whole batch, one per seed in seed order, or the first
   * exception raised, in which case the lines already traced are lost.
   */
  function TraceAll(seeds: seq<Point>, rss: real, rtol: real, atol: real,
                    solveIvp: Ivp -> Result<HalfTrace>): (r: Result<seq<seq<Point>>>)
    ensures r.Ok? ==> |r.value| == |seeds|
  {
    if seeds == [] then Ok([])
    else
      var done := TraceAll(seeds[..|seeds| - 1], rss, rtol, atol, solveIvp);
      if done.Err? then done
      else
        var line := TraceSeed(seeds[|seeds| - 1], rss, rtol, atol, solveIvp);
        if line.Err? then Err(line.error) else Ok(done.value + [line.value])
  }

  /**
   * A batch succeeds exactly when every seed does; then line `i` is traced
   * from seed `i` alone. Otherwise the batch raises the exception of the
   * first seed that failed.
   */
  lemma {:induction false} TraceAllAt(seeds: seq<Point>, rss: real, rtol: real, atol: real,
                                      solveIvp: Ivp -> Result<HalfTrace>)
    ensures var r := TraceAll(seeds, rss, rtol, atol, solveIvp);
            && (r.Ok? <==> forall i :: 0 <= i < |seeds| ==> TraceSeed(seeds[i], rss, rtol, atol, solveIvp).Ok?)
            && (r.Ok? ==>
                  && |r.value| == |seeds|
                  && (forall i :: 0 <= i < |seeds| ==>
                        TraceSeed(seeds[i], rss, rtol, atol, solveIvp) == Ok(r.value[i])))
            && (r.Err? ==>
                  exists i ::
                    && 0 <= i < |seeds|
                    && TraceSeed(seeds[i], rss, rtol, atol, solveIvp) == Err(r.error)
                    && (forall j :: 0 <= j < i ==> TraceSeed(seeds[j], rss, rtol, atol, solveIvp).Ok?))
  {
    if seeds != [] {
      var last := |seeds| - 1;
      var init := seeds[..last];
      TraceAllAt(init, rss, rtol, atol, solveIvp);
      assert forall i :: 0 <= i < |init| ==> init[i] == seeds[i];
      var done := TraceAll(init, rss, rtol, atol, solveIvp);
      if done.Err? {
        var i :| 0 <= i < |init| && TraceSeed(init[i], rss, rtol, atol, solveIvp) == Err(done.error) &&
                 forall j :: 0 <= j < i ==> TraceSeed(init[j], rss, rtol, atol, solveIvp).Ok?;
        assert TraceSeed(seeds[i], rss, rtol, atol, solveIvp) == Err(done.error);
      } else if TraceSeed(seeds[last], rss, rtol, atol, solveIvp).Err? {
        assert forall j :: 0 <= j < last ==> TraceSeed(seeds[j], rss, rtol, atol, solveIvp).Ok?;
      }
    }
  }

  /**
   * Seeds are traced independently and in order: tracing two batches
   * together gives the lines of the first followed by those of the second,
   * and the first exception in that order.
   */
  lemma {:induction false} TraceAllAppend(a: seq<Point>, b: seq<Point>, rss: real, rtol: real, atol: real,
                                          solveIvp: Ivp -> Result<HalfTrace>)
    ensures var ra, rb := TraceAll(a, rss, rtol, atol, solveIvp), TraceAll(b, rss, rtol, atol, solveIvp);
            TraceAll(a + b, rss, rtol, atol, solveIvp)
              == if ra.Err? then ra else if rb.Err? then rb else Ok(ra.value + rb.value)
  {
    if b == [] {
      assert a + b == a;
      var ra := TraceAll(a, rss, rtol, atol, solveIvp);
      if ra.Ok? {
        assert ra.value + [] == ra.value;
      }
    } else {
      var init := b[..|b| - 1];
      assert (a + b)[..|a + b| - 1] == a + init;
      assert (a + b)[|a + b| - 1] == b[|b| - 1];
      TraceAllAppend(a, init, rss, rtol, atol, solveIvp);
      var ra := TraceAll(a, rss, rtol, atol, solveIvp);
      var ri := TraceAll(init, rss, rtol, atol, solveIvp);
      if ra.Ok? && ri.Ok? {
        var line := TraceSeed(b[|b| - 1], rss, rtol, atol, solveIvp);
        if line.Ok? {
          assert ra.value + ri.value + [line.value] == ra.value + (ri.value + [line.value]);
        }
      }
    }
  }

  /**
   * An exception at seed `n` ends the whole batch with that exception: the
   * lines already traced and the seeds after `n` are dropped.
   */
  lemma FailureAborts(seeds: seq<Point>, n: nat, rss: real, rtol: real, atol: real,
                      solveIvp: Ivp -> Result<HalfTrace>)
    requires n < |seeds|
    requires TraceAll(seeds[..n + 1], rss, rtol, atol, solveIvp).Err?
    ensures TraceAll(seeds, rss, rtol, atol, solveIvp) == TraceAll(seeds[..n + 1], rss, rtol, atol, solveIvp)
  {
    TraceAllAppend(seeds[..n + 1], seeds[n + 1..], rss, rtol, atol, solveIvp);
    assert seeds[..n + 1] + seeds[n + 1..] == seeds;
  }

  /**
   * Traces every seed in turn: for each, a forward and a backward half-trace,
   * and the line made of the flipped backward points followed by the forward
   * points. An exception from either run leaves the loop and the batch.
   */
  method IntegrateSeeds(seeds: seq<Point>, rss: real, rtol: real, atol: real,
                        solveIvp: Ivp -> Result<HalfTrace>)
    returns (out: Result<seq<seq<Point>>>)
    ensures out == TraceAll(seeds, rss, rtol, atol, solveIvp)
    ensures out.Ok? <==> forall i :: 0 <= i < |seeds| ==> TraceSeed(seeds[i], rss, rtol, atol, solveIvp).Ok?
    ensures out.Ok? ==>
              && |out.value| == |seeds|
              && (forall i :: 0 <= i < |seeds| ==>
                    TraceSeed(seeds[i], rss, rtol, atol, solveIvp) == Ok(out.value[i]))
    ensures out.Err? ==>
              exists i ::
                && 0 <= i < |seeds|
                && TraceSeed(seeds[i], rss, rtol, atol, solveIvp) == Err(out.error)
                && (forall j :: 0 <= j < i ==> TraceSeed(seeds[j], rss, rtol, atol, solveIvp).Ok?)
  {
    var lines: seq<seq<Point>> := [];
    for n := 0 to |seeds|
      invariant TraceAll(seeds[..n], rss, rtol, atol, solveIvp) == Ok(lines)
    {
      var startPoint := seeds[n];
      assert seeds[..n + 1][..n] == seeds[..n];
      var xforw := IntegrateOneWay(1, startPoint, rss, rtol, atol, solveIvp);
      if xforw.Err? {
        out := Err(xforw.error);
        FailureAborts(seeds, n, rss, rtol, atol, solveIvp);
        TraceAllAt(seeds, rss, rtol, atol, solveIvp);
        return;
      }
      var xback := IntegrateOneWay(-1, startPoint, rss, rtol, atol, solveIvp);
      if xback.Err? {
        out := Err(xback.error);
        FailureAborts(seeds, n, rss, rtol, atol, solveIvp);
        TraceAllAt(seeds, rss, rtol, atol, solveIvp);
        return;
      }
      var flipped := Flip(xback.value);
      var xout := flipped + xforw.value;
      lines := lines + [xout];
    }
    assert seeds[..|seeds|] == seeds;
    out := Ok(lines);
    TraceAllAt(seeds, rss, rtol, atol, solveIvp);
  }
}
