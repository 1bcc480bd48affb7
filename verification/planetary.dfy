/**
 * PlanetarySystem.cs without its force evaluation: the bodies, the history
 * recorder with its decimating countdown, and the structure of a forward and a
 * backward simulation step around the swept-box collision test. Accelerations
 * come from GetAccelerations, which is not part of this model; each step takes
 * them as an input, one per body.
 */
module Planetary {
  import opened Outcomes
  import V = Vectors
  import B = Bodies
  import R = BodyRecords
  import C = Collision
  import T = TimeSpans
  import A = Arith

  const DefaultTimeStep: real := 60.0
  /** SimulateStepBack scales the velocity change by time * 1E-8 ... */
  const BackAccelerationFactor: real := 0.00000001
  /** ... and the radius of its swept boxes by 1E-3. */
  const BackRadiusFactor: real := 0.001

  /**
   * The state of a PlanetarySystem. `timeStep` is RecommendedTimeStep,
   * `interval` the history interval, `countdown` and `lastTime` the recorder's
   * private counters, `times` the recorded timestamps in TimeSpan ticks and
   * `histories` one list of samples per body.
   */
  datatype System = System(
    bodies: seq<B.Body>,
    timeStep: real,
    interval: int,
    countdown: int,
    lastTime: real,
    times: seq<int>,
    histories: seq<seq<R.BodyRecord>>)

  /** The recorder keeps one sample list per body, each as long as the timestamp list. */
  predicate HistoryAligned(s: System)
  {
    |s.histories| == |s.bodies| && forall i | 0 <= i < |s.histories| :: |s.histories[i]| == |s.times|
  }

  predicate KeepHistory(s: System)
  {
    s.interval > 0
  }

  /** History is on but some body has no log: the next sampling call of
      RecordBodies indexes past the end of the log list. */
  predicate MissingLogs(s: System)
  {
    KeepHistory(s) && |s.histories| < |s.bodies|
  }

  /** `new PlanetarySystem()`: no bodies, a 60 s time step, history off and initialised. */
  function New(): (s: System)
    ensures s.bodies == [] && s.timeStep == DefaultTimeStep
    ensures !KeepHistory(s) && HistoryAligned(s) && s.times == []
  {
    InitializeHistory(System([], DefaultTimeStep, 0, 0, 0.0, [], []))
  }

  /** The HistoryInterval setter: a new value restarts the countdown, the same value changes nothing. */
  function SetHistoryInterval(s: System, value: int): (r: System)
    ensures r.interval == value && KeepHistory(r) == (value > 0)
    ensures s.interval != value ==> r.countdown == 0
    ensures s.interval == value ==> r == s
    ensures r.(interval := s.interval, countdown := s.countdown) == s
  {
    if s.interval != value then s.(interval := value, countdown := 0) else s
  }

  /** InitializeHistory: no timestamps, one empty sample list per body, counters at zero. */
  function InitializeHistory(s: System): (r: System)
    ensures HistoryAligned(r) && r.times == []
    ensures forall i | 0 <= i < |r.histories| :: r.histories[i] == []
    ensures r.countdown == 0 && r.lastTime == 0.0
    ensures r.bodies == s.bodies && r.timeStep == s.timeStep && r.interval == s.interval
  {
    s.(times := [], histories := seq(|s.bodies|, _ => []), countdown := 0, lastTime := 0.0)
  }

  /** ClearHistory: empties the existing lists, keeping their number, and zeroes the counters. */
  function ClearHistory(s: System): (r: System)
    ensures r.times == [] && |r.histories| == |s.histories|
    ensures forall i | 0 <= i < |r.histories| :: r.histories[i] == []
    ensures r.countdown == 0 && r.lastTime == 0.0
    ensures r.bodies == s.bodies && r.timeStep == s.timeStep && r.interval == s.interval
  {
    s.(times := [], histories := seq(|s.histories|, _ => []), countdown := 0, lastTime := 0.0)
  }

  /** On an aligned system clearing the history is the same as initialising it. */
  lemma ClearIsInitialize(s: System)
    requires HistoryAligned(s)
    ensures ClearHistory(s) == InitializeHistory(s)
  {
  }

  /** Appends a sample of body i to history list i, for every body. */
  function AppendSnapshots(hs: seq<seq<R.BodyRecord>>, bodies: seq<B.Body>): (r: seq<seq<R.BodyRecord>>)
    requires |bodies| <= |hs|
    ensures |r| == |hs|
    ensures forall i | 0 <= i < |bodies| :: r[i] == hs[i] + [R.Snapshot(bodies[i])]
    ensures forall i | |bodies| <= i < |hs| :: r[i] == hs[i]
  {
    seq(|hs|, i requires 0 <= i < |hs| => if i < |bodies| then hs[i] + [R.Snapshot(bodies[i])] else hs[i])
  }

  /**
   * RecordBodies(time). With history off nothing changes, not even the time
   * accumulator. Otherwise, when the countdown has run out, the accumulator is
   * recorded as a timestamp with one sample per body and the countdown restarts
   * at interval - 1; else the countdown is decremented. Either way the
   * accumulator then grows by `time`. A body without a history list makes
   * `BodyHistories[i]` throw.
   */
  function RecordBodies(s: System, time: real): (r: Result<System>)
    ensures !KeepHistory(s) ==> r == Ok(s)
    ensures r.Err? <==> KeepHistory(s) && s.countdown <= 0 && |s.histories| < |s.bodies|
    ensures r.Err? ==> r.fault == IndexOutOfRange
    ensures HistoryAligned(s) ==> r.Ok? && HistoryAligned(r.value)
    ensures r.Ok? && KeepHistory(s) ==>
      && r.value.lastTime == s.lastTime + time
      && r.value.bodies == s.bodies && r.value.interval == s.interval && r.value.timeStep == s.timeStep
      && |r.value.histories| == |s.histories|
      && (s.countdown <= 0 ==> |s.bodies| <= |s.histories|)
      && (s.countdown <= 0 ==> r.value.times == s.times + [T.FromSeconds(s.lastTime)] && r.value.countdown == s.interval - 1)
      && (s.countdown <= 0 ==> forall i | 0 <= i < |s.bodies| :: r.value.histories[i] == s.histories[i] + [R.Snapshot(s.bodies[i])])
      && (s.countdown > 0 ==> r.value.times == s.times && r.value.histories == s.histories && r.value.countdown == s.countdown - 1)
  {
    if !KeepHistory(s) then Ok(s)
    else if s.countdown <= 0 then
      if |s.histories| < |s.bodies| then Err(IndexOutOfRange)
      else
        Ok(s.(times := s.times + [T.FromSeconds(s.lastTime)],
              histories := AppendSnapshots(s.histories, s.bodies),
              countdown := s.interval - 1,
              lastTime := s.lastTime + time))
    else
      Ok(s.(countdown := s.countdown - 1, lastTime := s.lastTime + time))
  }

  /** `n` successive calls of RecordBodies with the same time. */
  function RecordMany(s: System, time: real, n: nat): Result<System>
    decreases n
  {
    if n == 0 then Ok(s)
    else
      var s1 :- RecordBodies(s, time);
      RecordMany(s1, time, n - 1)
  }

  /** n steps of t are n - 1 steps and one more. */
  lemma OneMoreStep(n: nat, t: real)
    requires n >= 1
    ensures n as real * t == (n - 1) as real * t + t
  {
    var m := (n - 1) as real;
    assert n as real == m + 1.0;
    assert (m + 1.0) * t == m * t + t;
  }

  /** How many of n calls record a sample, starting from countdown c with interval k. */
  function Samples(c: int, k: int, n: nat): int
    requires k >= 1
  {
    if n <= c then 0 else (n - c - 1) / k + 1
  }

  /** One call moves the countdown one step down, cyclically modulo the interval. */
  lemma CountdownStep(c: int, c1: int, k: int, n: nat)
    requires k >= 1 && 0 <= c < k && n >= 1
    requires c1 == if c == 0 then k - 1 else c - 1
    ensures (c1 - (n - 1)) % k == (c - n) % k
    ensures Samples(c, k, n) == (if c == 0 then 1 else 0) + Samples(c1, k, n - 1)
  {
    var q := (c - n) / k;
    var m := (c - n) % k;
    assert c - n == k * q + m;
    if c == 0 {
      A.DivModUnique(c - n + k, k, q + 1, m);
      if n - 1 < k {
        A.DivModUnique(n - 1, k, 0, n - 1);
      } else {
        var q' := (n - 1 - k) / k;
        var m' := (n - 1 - k) % k;
        assert n - 1 - k == k * q' + m';
        A.DivModUnique(n - 1, k, q' + 1, m');
      }
    }
  }

  /**
   * Decimation: from a countdown c in [0, k) with interval k >= 1, n calls
   * succeed, keep the history aligned, leave the countdown at (c - n) mod k
   * and record Samples(c, k, n) timestamps.
   */
  lemma {:induction false} Decimation(s: System, time: real, n: nat)
    requires HistoryAligned(s) && s.interval >= 1 && 0 <= s.countdown < s.interval
    ensures RecordMany(s, time, n).Ok?
    ensures var r := RecordMany(s, time, n).value;
      && HistoryAligned(r) && r.bodies == s.bodies && r.interval == s.interval
      && r.countdown == (s.countdown - n) % s.interval
      && |r.times| == |s.times| + Samples(s.countdown, s.interval, n)
    decreases n
  {
    var k := s.interval;
    if n == 0 {
      A.DivModUnique(s.countdown, k, 0, s.countdown);
    } else {
      var s1 := RecordBodies(s, time).value;
      assert s1.countdown == if s.countdown == 0 then k - 1 else s.countdown - 1;
      assert |s1.times| == |s.times| + (if s.countdown == 0 then 1 else 0);
      Decimation(s1, time, n - 1);
      assert RecordMany(s, time, n) == RecordMany(s1, time, n - 1);
      var r := RecordMany(s1, time, n - 1).value;
      CountdownStep(s.countdown, s1.countdown, k, n);
      assert r.countdown == (s1.countdown - (n - 1)) % k;
      assert r.countdown == (s.countdown - n) % k;
      assert |r.times| == |s1.times| + Samples(s1.countdown, k, n - 1);
      assert |r.times| == |s.times| + Samples(s.countdown, k, n);
    }
  }

  /** With history on, n calls on an aligned system succeed and advance the
      time accumulator by n * time. */
  lemma {:induction false} RecordManyAccumulates(s: System, time: real, n: nat)
    requires HistoryAligned(s) && KeepHistory(s)
    ensures RecordMany(s, time, n).Ok?
    ensures RecordMany(s, time, n).value.lastTime == s.lastTime + n as real * time
    decreases n
  {
    if n == 0 {
      assert n as real * time == 0.0;
    } else {
      var s1 := RecordBodies(s, time).value;
      RecordManyAccumulates(s1, time, n - 1);
      OneMoreStep(n, time);
    }
  }

  /** From countdown 0, n calls record ceil(n / k) samples. */
  lemma SamplesFromZero(k: int, n: nat)
    requires k >= 1
    ensures Samples(0, k, n) == (n + k - 1) / k
  {
    if n == 0 {
      A.DivModUnique(k - 1, k, 0, k - 1);
    } else {
      var q := (n - 1) / k;
      var m := (n - 1) % k;
      assert n - 1 == k * q + m;
      A.DivModUnique(n + k - 1, k, q + 1, m);
    }
  }

  /** The countdown (0 - j) mod k has run out exactly when k divides j. */
  lemma NegatedModIsZero(j: nat, k: int)
    requires k >= 1
    ensures (0 - j) % k == 0 <==> j % k == 0
  {
    var q := j / k;
    var m := j % k;
    assert j == k * q + m;
    if m == 0 {
      A.DivModUnique(0 - j, k, -q, 0);
    } else {
      A.DivModUnique(0 - j, k, -q - 1, k - m);
    }
  }

  /** From countdown 0 the call with index j (0-based) records exactly when j is a multiple of k. */
  lemma RecordsOnMultiples(s: System, time: real, j: nat)
    requires HistoryAligned(s) && s.interval >= 1 && s.countdown == 0
    ensures RecordMany(s, time, j).Ok?
    ensures RecordMany(s, time, j).value.countdown <= 0 <==> j % s.interval == 0
  {
    Decimation(s, time, j);
    NegatedModIsZero(j, s.interval);
  }

  // ---------------------------------------------------------------------------
  // One body's step.
  // ---------------------------------------------------------------------------

  /** UpdatePosition: the position moved by velocity times time. */
  function UpdatePosition(pos: V.Vector, v: V.Vector, time: real): V.Vector
  {
    V.Add(pos, V.Scale(v, time))
  }

  /**
   * One body in SimulateStep: with a negligible acceleration it drifts at its
   * velocity; otherwise it moves at its velocity plus half the velocity change
   * acc * time, and then gains that change.
   */
  function StepBody(b: B.Body, acc: V.Vector, time: real): (r: B.Body)
    ensures r.mass == b.mass && r.radius == b.radius && r.argb == b.argb
    ensures V.IsZero(acc) ==> r.velocity == b.velocity && r.position == V.Add(b.position, V.Scale(b.velocity, time))
    ensures !V.IsZero(acc) ==> r.velocity == V.Add(b.velocity, V.Scale(acc, time))
  {
    if V.IsZero(acc) then b.(position := UpdatePosition(b.position, b.velocity, time))
    else
      var dv := V.Scale(acc, time);
      var tempv := V.Add(b.velocity, V.Scale(dv, 0.5));
      b.(position := UpdatePosition(b.position, tempv, time), velocity := V.Add(b.velocity, dv))
  }

  /**
   * One body in SimulateStepBack: the velocity change is acc * time * 1E-8, the
   * body moves by -time at its velocity plus half that change, and then loses
   * the change.
   */
  function StepBackBody(b: B.Body, acc: V.Vector, time: real): (r: B.Body)
    ensures r.mass == b.mass && r.radius == b.radius && r.argb == b.argb
    ensures V.IsZero(acc) ==> r.velocity == b.velocity && r.position == V.Sub(b.position, V.Scale(b.velocity, time))
    ensures !V.IsZero(acc) ==> r.velocity == V.Sub(b.velocity, V.Scale(acc, time * BackAccelerationFactor))
  {
    if V.IsZero(acc) then b.(position := UpdatePosition(b.position, b.velocity, -time))
    else
      var dv := V.Scale(acc, time * BackAccelerationFactor);
      var tempv := V.Add(b.velocity, V.Scale(dv, 0.5));
      b.(position := UpdatePosition(b.position, tempv, -time), velocity := V.Sub(b.velocity, dv))
  }

  /** One coordinate of a step: x + (v + a t / 2) t is x + v t + a t^2 / 2. */
  lemma KinematicsOnAxis(x: real, v: real, a: real, t: real)
    ensures x + (v + a * t * 0.5) * t == x + v * t + a * (t * t / 2.0)
  {
  }

  /** Moving at v + a t / 2 for time t lands at x + v t + a t^2 / 2. */
  lemma HalfStepKinematics(x: V.Vector, v: V.Vector, a: V.Vector, t: real)
    ensures UpdatePosition(x, V.Add(v, V.Scale(V.Scale(a, t), 0.5)), t)
         == V.Add(V.Add(x, V.Scale(v, t)), V.Scale(a, t * t / 2.0))
  {
    var lhs := UpdatePosition(x, V.Add(v, V.Scale(V.Scale(a, t), 0.5)), t);
    var rhs := V.Add(V.Add(x, V.Scale(v, t)), V.Scale(a, t * t / 2.0));
    assert lhs.x == rhs.x by { KinematicsOnAxis(x.x, v.x, a.x, t); }
    assert lhs.y == rhs.y by { KinematicsOnAxis(x.y, v.y, a.y, t); }
    assert lhs.z == rhs.z by { KinematicsOnAxis(x.z, v.z, a.z, t); }
  }

  /** Drifting for t and then for -t at the same velocity returns to the start. */
  lemma DriftThereAndBack(x: V.Vector, v: V.Vector, t: real)
    ensures UpdatePosition(UpdatePosition(x, v, t), v, -t) == x
  {
  }

  /** A step with a non-negligible acceleration is uniformly accelerated motion:
      x + v t + a t^2 / 2, and v + a t. */
  lemma StepIsUniformAcceleration(b: B.Body, acc: V.Vector, time: real)
    requires !V.IsZero(acc)
    ensures StepBody(b, acc, time).position
         == V.Add(V.Add(b.position, V.Scale(b.velocity, time)), V.Scale(acc, time * time / 2.0))
    ensures StepBody(b, acc, time).velocity == V.Add(b.velocity, V.Scale(acc, time))
  {
    HalfStepKinematics(b.position, b.velocity, acc, time);
  }

  /** A backward step with a non-negligible acceleration runs the same motion
      backwards with the acceleration scaled by 1E-8: x - v t - a 1E-8 t^2 / 2,
      and v - a 1E-8 t. */
  lemma StepBackIsScaledAcceleration(b: B.Body, acc: V.Vector, time: real)
    requires !V.IsZero(acc)
    ensures StepBackBody(b, acc, time).position
         == V.Sub(V.Sub(b.position, V.Scale(b.velocity, time)), V.Scale(acc, time * time * BackAccelerationFactor / 2.0))
    ensures StepBackBody(b, acc, time).velocity == V.Sub(b.velocity, V.Scale(acc, time * BackAccelerationFactor))
  {
    BackHalfStepKinematics(b.position, b.velocity, acc, time, BackAccelerationFactor);
  }

  /** Moving at v + a t k / 2 for time -t lands at x - v t - a t^2 k / 2. */
  lemma BackHalfStepKinematics(x: V.Vector, v: V.Vector, a: V.Vector, t: real, k: real)
    ensures UpdatePosition(x, V.Add(v, V.Scale(V.Scale(a, t * k), 0.5)), -t)
         == V.Sub(V.Sub(x, V.Scale(v, t)), V.Scale(a, t * t * k / 2.0))
  {
    var lhs := UpdatePosition(x, V.Add(v, V.Scale(V.Scale(a, t * k), 0.5)), -t);
    var rhs := V.Sub(V.Sub(x, V.Scale(v, t)), V.Scale(a, t * t * k / 2.0));
    assert lhs.x == rhs.x by { BackKinematicsOnAxis(x.x, v.x, a.x, t, k); }
    assert lhs.y == rhs.y by { BackKinematicsOnAxis(x.y, v.y, a.y, t, k); }
    assert lhs.z == rhs.z by { BackKinematicsOnAxis(x.z, v.z, a.z, t, k); }
  }

  /** One coordinate of a backward step: x + (v + a t k / 2) (-t) is x - v t - a t^2 k / 2. */
  lemma BackKinematicsOnAxis(x: real, v: real, a: real, t: real, k: real)
    ensures x + (v + a * (t * k) * 0.5) * -t == (x - v * t) - a * (t * t * k / 2.0)
  {
    assert (v + a * (t * k) * 0.5) * -t == -(v * t) - a * (t * k) * 0.5 * t;
    assert a * (t * k) * 0.5 * t == a * (t * t * k / 2.0);
  }

  /** With zero acceleration a body moves by velocity * time and keeps its velocity ... */
  lemma ZeroAccelerationDrifts(b: B.Body, time: real)
    ensures StepBody(b, V.Zero, time) == b.(position := V.Add(b.position, V.Scale(b.velocity, time)))
  {
    V.IsZeroBoundsComponents(V.Zero);
  }

  /** ... and the backward step moves it by velocity * -time. */
  lemma ZeroAccelerationDriftsBack(b: B.Body, time: real)
    ensures StepBackBody(b, V.Zero, time) == b.(position := V.Add(b.position, V.Scale(b.velocity, -time)))
  {
    V.IsZeroBoundsComponents(V.Zero);
  }

  /** With zero acceleration the backward step undoes the forward one. */
  lemma ZeroAccelerationReverses(b: B.Body, time: real)
    ensures StepBackBody(StepBody(b, V.Zero, time), V.Zero, time) == b
  {
    var moved := StepBody(b, V.Zero, time);
    ZeroAccelerationDrifts(b, time);
    ZeroAccelerationDriftsBack(moved, time);
    DriftThereAndBack(b.position, b.velocity, time);
  }

  // ---------------------------------------------------------------------------
  // The step loops.
  // ---------------------------------------------------------------------------

  /** The swept box of body i in SimulateStep: from its old to its new position, at its radius. */
  function ForwardEdges(bodies: seq<B.Body>, accs: seq<V.Vector>, time: real): seq<C.Edge>
    requires |accs| == |bodies|
  {
    seq(|bodies|, i requires 0 <= i < |bodies| =>
      C.Edge(bodies[i].position, StepBody(bodies[i], accs[i], time).position, bodies[i].radius))
  }

  /** The swept box of body i in SimulateStepBack, at a thousandth of its radius. */
  function BackEdges(bodies: seq<B.Body>, accs: seq<V.Vector>, time: real): seq<C.Edge>
    requires |accs| == |bodies|
  {
    seq(|bodies|, i requires 0 <= i < |bodies| =>
      C.Edge(bodies[i].position, StepBackBody(bodies[i], accs[i], time).position, bodies[i].radius * BackRadiusFactor))
  }

  /**
   * The body loop of SimulateStep from body |done| on: each body is moved, its
   * edge appended, and the edges so far checked; a clash clears `result` but
   * the loop goes on. Every body ends up moved, and the result is the check of
   * the complete edge list.
   */
  function ForwardLoop(bodies: seq<B.Body>, accs: seq<V.Vector>, time: real,
                       done: seq<B.Body>, edges: seq<C.Edge>, result: bool): (r: (seq<B.Body>, bool))
    requires |accs| == |bodies| && |done| <= |bodies|
    requires edges == ForwardEdges(bodies, accs, time)[..|done|]
    requires forall k | 0 <= k < |done| :: done[k] == StepBody(bodies[k], accs[k], time)
    requires result ==> C.NoClash(edges)
    ensures |r.0| == |bodies|
    ensures forall k | 0 <= k < |bodies| :: r.0[k] == StepBody(bodies[k], accs[k], time)
    ensures r.1 <==> result && C.NoClash(ForwardEdges(bodies, accs, time))
    decreases |bodies| - |done|
  {
    var all := ForwardEdges(bodies, accs, time);
    if |done| == |bodies| then
      assert edges == all;
      (done, result)
    else
      var i := |done|;
      var edges' := edges + [all[i]];
      assert edges' == all[..i + 1];
      C.NoClashOfPrefix(all, i + 1);
      ForwardLoop(bodies, accs, time, done + [StepBody(bodies[i], accs[i], time)], edges', result && C.CheckEdges(edges'))
  }

  /** The longest prefix of `es` whose boxes do not clash. */
  function ClearPrefix(es: seq<C.Edge>): (c: nat)
    ensures c <= |es| && C.NoClash(es[..c])
    ensures c < |es| ==> !C.NoClash(es[..c + 1])
  {
    if C.NoClash(es) then
      assert es[..|es|] == es;
      |es|
    else
      var c := ClearPrefix(es[..|es| - 1]);
      assert es[..|es| - 1][..c] == es[..c];
      if c < |es| - 1 then
        assert es[..|es| - 1][..c + 1] == es[..c + 1];
        c
      else
        assert es[..c + 1] == es;
        c
  }

  /** The clear prefix is the unique n with es[..n] clear and es[..n+1] clashing. */
  lemma ClearPrefixIsUnique(es: seq<C.Edge>, n: nat)
    requires n <= |es| && C.NoClash(es[..n])
    requires n < |es| ==> !C.NoClash(es[..n + 1])
    ensures ClearPrefix(es) == n
  {
    var c := ClearPrefix(es);
    if c < n {
      assert !C.NoClash(es[..c + 1]);
      C.ClashPersists(es, c + 1, n);
      assert false;
    } else if n < c {
      assert !C.NoClash(es[..n + 1]);
      C.ClashPersists(es, n + 1, c);
      assert false;
    }
  }

  /** The bodies after a backward step: those up to and including the first
      clashing edge moved back, the later ones where they were. */
  predicate BackMoved(bodies: seq<B.Body>, accs: seq<V.Vector>, time: real, res: seq<B.Body>)
    requires |accs| == |bodies|
  {
    && |res| == |bodies|
    && forall k | 0 <= k < |bodies| ::
         res[k] == if k <= ClearPrefix(BackEdges(bodies, accs, time)) then StepBackBody(bodies[k], accs[k], time) else bodies[k]
  }

  /** Where the backward loop stops at body i: bodies up to i moved, the rest as they were. */
  lemma StoppedAt(bodies: seq<B.Body>, accs: seq<V.Vector>, time: real, done: seq<B.Body>)
    requires |accs| == |bodies| && |done| < |bodies|
    requires forall k | 0 <= k < |done| :: done[k] == StepBackBody(bodies[k], accs[k], time)
    ensures var i := |done|;
      var res := done + [StepBackBody(bodies[i], accs[i], time)] + bodies[i + 1..];
      |res| == |bodies| &&
      forall k | 0 <= k < |bodies| :: res[k] == if k <= i then StepBackBody(bodies[k], accs[k], time) else bodies[k]
  {
  }

  /** When body |done| is the first whose edge clashes, the backward loop's result
      is the one BackLoop promises: the clear prefix ends just before it. */
  lemma StopsAtClash(bodies: seq<B.Body>, accs: seq<V.Vector>, time: real, done: seq<B.Body>)
    requires |accs| == |bodies| && |done| < |bodies|
    requires C.NoClash(BackEdges(bodies, accs, time)[..|done|])
    requires !C.NoClash(BackEdges(bodies, accs, time)[..|done| + 1])
    requires forall k | 0 <= k < |done| :: done[k] == StepBackBody(bodies[k], accs[k], time)
    ensures var i := |done|;
      var all := BackEdges(bodies, accs, time);
      var res := done + [StepBackBody(bodies[i], accs[i], time)] + bodies[i + 1..];
      !C.NoClash(all) && BackMoved(bodies, accs, time, res)
  {
    var all := BackEdges(bodies, accs, time);
    ClearPrefixIsUnique(all, |done|);
    C.NoClashOfPrefix(all, |done| + 1);
    StoppedAt(bodies, accs, time, done);
  }

  /**
   * The body loop of SimulateStepBack from body |done| on. It stops at the first
   * body whose edge clashes with an earlier one: that body has been moved, the
   * later ones are left where they are, and the result is false. What it
   * returns is stated by BackLoopResult.
   */
  function BackLoop(bodies: seq<B.Body>, accs: seq<V.Vector>, time: real,
                    done: seq<B.Body>, edges: seq<C.Edge>): (r: (seq<B.Body>, bool))
    requires |accs| == |bodies| && |done| <= |bodies|
    requires edges == BackEdges(bodies, accs, time)[..|done|] && C.NoClash(edges)
    ensures |r.0| == |bodies|
    decreases |bodies| - |done|
  {
    var all := BackEdges(bodies, accs, time);
    if |done| == |bodies| then
      (done, true)
    else
      var i := |done|;
      var moved := StepBackBody(bodies[i], accs[i], time);
      var edges' := edges + [all[i]];
      assert edges' == all[..i + 1];
      if !C.CheckEdges(edges') then
        (done + [moved] + bodies[i + 1..], false)
      else
        C.NoClashOfPrefix(all, i + 1);
        BackLoop(bodies, accs, time, done + [moved], edges')
  }

  /** Past the last body the backward loop has found no clash. */
  lemma BackLoopFinishes(bodies: seq<B.Body>, accs: seq<V.Vector>, time: real,
                         done: seq<B.Body>, edges: seq<C.Edge>)
    requires |accs| == |bodies| && |done| == |bodies|
    requires edges == BackEdges(bodies, accs, time)[..|done|] && C.NoClash(edges)
    ensures BackLoop(bodies, accs, time, done, edges) == (done, true)
    ensures C.NoClash(BackEdges(bodies, accs, time))
  {
    var all := BackEdges(bodies, accs, time);
    assert all[..|all|] == all;
  }

  /** When body |done|'s edge clashes, the loop returns false and so would a
      check of all the edges. */
  lemma BackLoopStops(bodies: seq<B.Body>, accs: seq<V.Vector>, time: real,
                      done: seq<B.Body>, edges: seq<C.Edge>)
    requires |accs| == |bodies| && |done| < |bodies|
    requires edges == BackEdges(bodies, accs, time)[..|done|] && C.NoClash(edges)
    requires !C.NoClash(BackEdges(bodies, accs, time)[..|done| + 1])
    ensures var i := |done|;
      BackLoop(bodies, accs, time, done, edges) == (done + [StepBackBody(bodies[i], accs[i], time)] + bodies[i + 1..], false)
    ensures !C.NoClash(BackEdges(bodies, accs, time))
  {
    var all := BackEdges(bodies, accs, time);
    var i := |done|;
    assert edges + [all[i]] == all[..i + 1];
    C.ClashPersists(all, i + 1, |all|);
    assert all[..|all|] == all;
  }

  /** When body |done|'s edge does not clash, the loop goes on with that body moved. */
  lemma BackLoopContinues(bodies: seq<B.Body>, accs: seq<V.Vector>, time: real,
                          done: seq<B.Body>, edges: seq<C.Edge>)
    requires |accs| == |bodies| && |done| < |bodies|
    requires edges == BackEdges(bodies, accs, time)[..|done|] && C.NoClash(edges)
    requires C.NoClash(BackEdges(bodies, accs, time)[..|done| + 1])
    ensures var i := |done|;
      var edges' := BackEdges(bodies, accs, time)[..i + 1];
      && edges' == edges + [BackEdges(bodies, accs, time)[i]]
      && BackLoop(bodies, accs, time, done, edges)
         == BackLoop(bodies, accs, time, done + [StepBackBody(bodies[i], accs[i], time)], edges')
  {
    var all := BackEdges(bodies, accs, time);
    var i := |done|;
    assert edges + [all[i]] == all[..i + 1];
  }

  /** The backward loop reports whether no two edges clash. */
  lemma {:induction false} BackLoopReports(bodies: seq<B.Body>, accs: seq<V.Vector>, time: real,
                                           done: seq<B.Body>, edges: seq<C.Edge>)
    requires |accs| == |bodies| && |done| <= |bodies|
    requires edges == BackEdges(bodies, accs, time)[..|done|] && C.NoClash(edges)
    ensures BackLoop(bodies, accs, time, done, edges).1 <==> C.NoClash(BackEdges(bodies, accs, time))
    decreases |bodies| - |done|
  {
    if |done| == |bodies| {
      BackLoopFinishes(bodies, accs, time, done, edges);
    } else if !C.NoClash(BackEdges(bodies, accs, time)[..|done| + 1]) {
      BackLoopStops(bodies, accs, time, done, edges);
    } else {
      var i := |done|;
      BackLoopContinues(bodies, accs, time, done, edges);
      BackLoopReports(bodies, accs, time, done + [StepBackBody(bodies[i], accs[i], time)], BackEdges(bodies, accs, time)[..i + 1]);
    }
  }

  /** The backward loop moves the bodies up to and including the first clash
      and leaves the later ones where they are. */
  lemma {:induction false} BackLoopMoves(bodies: seq<B.Body>, accs: seq<V.Vector>, time: real,
                                         done: seq<B.Body>, edges: seq<C.Edge>)
    requires |accs| == |bodies| && |done| <= |bodies|
    requires edges == BackEdges(bodies, accs, time)[..|done|] && C.NoClash(edges)
    requires forall k | 0 <= k < |done| :: done[k] == StepBackBody(bodies[k], accs[k], time)
    ensures BackMoved(bodies, accs, time, BackLoop(bodies, accs, time, done, edges).0)
    decreases |bodies| - |done|
  {
    var all := BackEdges(bodies, accs, time);
    if |done| == |bodies| {
      BackLoopFinishes(bodies, accs, time, done, edges);
      ClearPrefixIsUnique(all, |all|);
    } else if !C.NoClash(all[..|done| + 1]) {
      BackLoopStops(bodies, accs, time, done, edges);
      StopsAtClash(bodies, accs, time, done);
    } else {
      var i := |done|;
      var moved := StepBackBody(bodies[i], accs[i], time);
      BackLoopContinues(bodies, accs, time, done, edges);
      assert forall k | 0 <= k < |done| + 1 :: (done + [moved])[k] == StepBackBody(bodies[k], accs[k], time);
      BackLoopMoves(bodies, accs, time, done + [moved], all[..i + 1]);
    }
  }

  /**
   * SimulateStep(time): record, then move every body and report whether no
   * two swept boxes overlap. A clash does not stop the step.
   */
  function SimulateStep(s: System, time: real, accs: seq<V.Vector>): (r: Result<(System, bool)>)
    requires |accs| == |s.bodies|
    ensures r.Ok? <==> RecordBodies(s, time).Ok?
    ensures r.Err? ==> r.fault == IndexOutOfRange
    ensures r.Ok? ==> r.value.0 == RecordBodies(s, time).value.(bodies := r.value.0.bodies)
    ensures r.Ok? ==> |r.value.0.bodies| == |s.bodies|
    ensures r.Ok? ==> forall k | 0 <= k < |s.bodies| :: r.value.0.bodies[k] == StepBody(s.bodies[k], accs[k], time)
    ensures r.Ok? ==> (r.value.1 <==> C.CheckEdges(ForwardEdges(s.bodies, accs, time)))
  {
    var s1 :- RecordBodies(s, time);
    var (moved, ok) := ForwardLoop(s1.bodies, accs, time, [], [], true);
    Ok((s1.(bodies := moved), ok))
  }

  /**
   * SimulateStepBack(time): record with -time, then move the bodies backwards,
   * returning false at the first clash with the later bodies unmoved.
   */
  function SimulateStepBack(s: System, time: real, accs: seq<V.Vector>): (r: Result<(System, bool)>)
    requires |accs| == |s.bodies|
    ensures r.Ok? <==> RecordBodies(s, -time).Ok?
    ensures r.Err? ==> r.fault == IndexOutOfRange
    ensures r.Ok? ==> r.value.0 == RecordBodies(s, -time).value.(bodies := r.value.0.bodies)
    ensures r.Ok? ==> |r.value.0.bodies| == |s.bodies|
    ensures r.Ok? ==> (r.value.1 <==> C.CheckEdges(BackEdges(s.bodies, accs, time)))
    ensures r.Ok? ==> forall k | 0 <= k < |s.bodies| ::
      r.value.0.bodies[k] == if k <= ClearPrefix(BackEdges(s.bodies, accs, time)) then StepBackBody(s.bodies[k], accs[k], time) else s.bodies[k]
  {
    var s1 :- RecordBodies(s, -time);
    BackLoopReports(s1.bodies, accs, time, [], []);
    BackLoopMoves(s1.bodies, accs, time, [], []);
    var (moved, ok) := BackLoop(s1.bodies, accs, time, [], []);
    Ok((s1.(bodies := moved), ok))
  }

  /** A step keeps the recorder aligned, so an aligned system never fails to step. */
  lemma StepKeepsHistoryAligned(s: System, time: real, accs: seq<V.Vector>)
    requires |accs| == |s.bodies| && HistoryAligned(s)
    ensures SimulateStep(s, time, accs).Ok? && HistoryAligned(SimulateStep(s, time, accs).value.0)
    ensures SimulateStepBack(s, time, accs).Ok? && HistoryAligned(SimulateStepBack(s, time, accs).value.0)
  {
  }
}
