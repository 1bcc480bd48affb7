/**
 * The simulation engine of ThreeBodyForm: the five engine states, the user
 * commands that move between them, the temporal parameters derived from the
 * time step, and one pass of the engine thread's loop for each state — the
 * Running frame loop with its fractional step accumulation and catch-up clamp,
 * Loading, the GoingToTime loop over TimeSpan ticks, and Paused.
 *
 * The engine thread and the UI thread are modelled one command at a time.
 * Wall-clock readings, the scenario file's content and the moment the window
 * is closed are inputs; accelerations come from a function parameter.
 */
module Engine {
  import opened Outcomes
  import Xml
  import V = Vectors
  import B = Bodies
  import P = Planetary
  import SX = SystemXml
  import T = TimeSpans
  import A = Arith
  import C = Collision

  datatype State = Paused | Running | GoingToTime | Loading | Closing

  const InitialTimeStep: real := 10.0
  const InitialSimTimeRatio: real := 1.0
  /** World seconds per screen second at a time ratio of 1. */
  const SimTimeRatioFactor: real := 1000000.0
  const Fps: real := 30.0
  /** World seconds between history samples that UpdateTemporalParameters aims at. */
  const HistorySpacing: real := 100000.0
  /** How far the frame count may fall behind before frames are dropped. */
  const CatchUpLimit: int := 10
  /** Steps per frame below which a frame's step count always fits an int. */
  const MaxStepsPerFrame: real := 2147483647.0

  /**
   * The fields of the form the engine works on. `resume` is the manual-reset
   * resume event being set; `elapsed` and `gotoTime` are TimeSpan ticks;
   * `stepsPerFrame` and `frameWorldTime` are derived from the time step by
   * UpdateTemporalParameters.
   */
  datatype Form = Form(
    state: State,
    resume: bool,
    sys: P.System,
    timeStep: real,
    simTimeRatio: real,
    stepsPerFrame: real,
    frameWorldTime: real,
    elapsed: int,
    gotoTime: int,
    clashCount: int,
    lockIndex: int)

  /** The engine thread's own variables: the fractional steps carried over,
      the frame counters and whether the clash message has been shown. */
  datatype Pacing = Pacing(outstanding: real, framesDue: int, framesDone: int, clashShown: bool)

  /** Stands in for GetAccelerations: the acceleration of body `i` of `bodies` for a step of `time`. */
  type Gravity = (seq<B.Body>, nat, real) -> V.Vector

  function Accelerations(g: Gravity, bodies: seq<B.Body>, time: real): (accs: seq<V.Vector>)
    ensures |accs| == |bodies|
    ensures forall i | 0 <= i < |bodies| :: accs[i] == g(bodies, i, time)
  {
    seq(|bodies|, i requires 0 <= i < |bodies| => g(bodies, i, time))
  }

  // ---------------------------------------------------------------------------
  // Commands from the UI thread.
  // ---------------------------------------------------------------------------

  /** SetStateTo: the state always changes, and leaving Paused sets the resume event. */
  function SetStateTo(f: Form, st: State): (r: Form)
    ensures r.state == st
    ensures r.resume <==> f.resume || (f.state == Paused && st != Paused)
    ensures r.(state := f.state, resume := f.resume) == f
  {
    var r := f.(state := st);
    if st != Paused && f.state == Paused then r.(resume := true) else r
  }

  /** Double-clicking the view toggles Paused and Running and ignores the other states. */
  function DoubleClick(f: Form): (r: Form)
    ensures f.state == Paused ==> r.state == Running && r.resume
    ensures f.state == Running ==> r.state == Paused && r.resume == f.resume
    ensures f.state != Paused && f.state != Running ==> r == f
    ensures r.(state := f.state, resume := f.resume) == f
  {
    if f.state == Paused then SetStateTo(f, Running)
    else if f.state == Running then SetStateTo(f, Paused)
    else f
  }

  /** Two double-clicks bring Paused or Running back to where they were. */
  lemma DoubleClickTwice(f: Form)
    requires f.state == Paused || f.state == Running
    ensures DoubleClick(DoubleClick(f)).state == f.state
    ensures DoubleClick(DoubleClick(f)).(resume := f.resume) == f
  {
  }

  /** The lock index a key code selects: '0' unlocks, '1'..'9' lock bodies 0..8 and 'A'..'F' bodies 9..14. */
  function LockForKey(key: int): (r: Option<int>)
    ensures r.Some? ==> -1 <= r.value <= 14
    ensures r.Some? <==> '0' as int <= key <= '9' as int || 'A' as int <= key <= 'F' as int
  {
    if key == '0' as int then Some(-1)
    else if '0' as int < key <= '9' as int then Some(key - '0' as int - 1)
    else if 'A' as int <= key <= 'F' as int then Some(key - 'A' as int + 9)
    else None
  }

  /** The key that selects lock index `i`. */
  function KeyForLock(i: int): (key: int)
    requires -1 <= i <= 14
  {
    if i == -1 then '0' as int
    else if i <= 8 then '1' as int + i
    else 'A' as int + (i - 9)
  }

  /** Every lock index from -1 to 14 has exactly one key: the two maps are inverse. */
  lemma KeysAndLocksCorrespond(key: int, i: int)
    requires -1 <= i <= 14
    ensures LockForKey(KeyForLock(i)) == Some(i)
    ensures LockForKey(key).Some? ==> KeyForLock(LockForKey(key).value) == key
  {
  }

  /** SetLockIndex: an index below the body count is taken (the test for an unchanged index makes no difference). */
  function SetLockIndex(f: Form, index: int): (r: Form)
    ensures r.lockIndex == if index < |f.sys.bodies| then index else f.lockIndex
    ensures r.(lockIndex := f.lockIndex) == f
  {
    var same := index == f.lockIndex;
    if !same && index < |f.sys.bodies| then f.(lockIndex := index) else f
  }

  /** A key press that selects a lock index. Other keys drive the display and are not modelled. */
  function KeyDown(f: Form, key: int): (r: Form)
    ensures LockForKey(key).None? ==> r == f
    ensures LockForKey(key).Some? ==> r == SetLockIndex(f, LockForKey(key).value)
  {
    match LockForKey(key)
    case None => f
    case Some(i) => SetLockIndex(f, i)
  }

  /** The locked index stays -1 or a valid body index, whatever keys are pressed. */
  lemma KeysKeepLockValid(f: Form, key: int)
    requires -1 <= f.lockIndex < |f.sys.bodies|
    ensures var r := KeyDown(f, key); -1 <= r.lockIndex < |r.sys.bodies|
  {
  }

  /** Opening the go-to dialog: the target is stored and the engine is told to go there. */
  function GotoTime(f: Form, value: int): (r: Form)
    ensures r.gotoTime == value && r.state == GoingToTime
    ensures r.resume <==> f.resume || f.state == Paused
    ensures r.(state := f.state, resume := f.resume, gotoTime := f.gotoTime) == f
  {
    SetStateTo(f.(gotoTime := value), GoingToTime)
  }

  /** InvalidateView: a paused engine is woken to redraw. */
  function InvalidateView(f: Form): (r: Form)
    ensures r.resume <==> f.resume || f.state == Paused
    ensures r.(resume := f.resume) == f
  {
    if f.state == Paused then f.(resume := true) else f
  }

  /** ResetParameters: the clash count and the elapsed time go back to zero. */
  function ResetParameters(f: Form): (r: Form)
    ensures r.clashCount == 0 && r.elapsed == 0
    ensures r.(clashCount := f.clashCount, elapsed := f.elapsed) == f
  {
    f.(clashCount := 0, elapsed := 0)
  }

  /** The history interval UpdateTemporalParameters sets: Math.Round(100000 /
      timeStep) cast to int, or 1 when that is not positive. */
  function HistoryInterval(ts: real): (k: int)
    requires ts != 0.0
    ensures k >= 1
  {
    var hi := T.ToInt32(T.RoundHalfEven(HistorySpacing / ts) as real);
    if hi > 0 then hi else 1
  }

  /** The interval is the integer nearest 100000 / timeStep when that quotient
      lies between 1/2 and int.MaxValue + 1/2; below, it is 1, and above too,
      where the cast overflows to int.MinValue. */
  lemma HistoryIntervalRounds(ts: real)
    requires ts != 0.0
    ensures var x := HistorySpacing / ts;
      && (0.5 <= x < 2147483647.5 ==> -0.5 <= x - HistoryInterval(ts) as real <= 0.5)
      && (x < 0.5 || 2147483647.5 <= x ==> HistoryInterval(ts) == 1)
  {
    T.RoundingFixesIntegers(T.RoundHalfEven(HistorySpacing / ts));
  }

  /**
   * UpdateTemporalParameters(timeStep): the steps per frame follow from the
   * time ratio, the world time per frame is their product with the step, and
   * the history interval is set from the step. For a zero time step the
   * doubles become infinite, which the model reports as NonFinite.
   */
  function UpdateTemporalParameters(f: Form, ts: real): (r: Result<Form>)
    ensures r.Err? <==> ts == 0.0
    ensures r.Ok? ==> r.value.sys.interval >= 1 && P.KeepHistory(r.value.sys)
    ensures r.Ok? ==> r.value.sys == P.SetHistoryInterval(f.sys, HistoryInterval(ts))
    ensures r.Ok? ==> r.value.timeStep == ts
    ensures r.Ok? ==> r.value.stepsPerFrame * ts == r.value.frameWorldTime
    ensures r.Ok? ==> r.value.frameWorldTime == f.simTimeRatio * SimTimeRatioFactor / Fps
    ensures r.Ok? ==> r.value.(sys := f.sys, timeStep := f.timeStep, stepsPerFrame := f.stepsPerFrame,
                              frameWorldTime := f.frameWorldTime) == f
  {
    if ts == 0.0 then Err(NonFinite)
    else
      var spf := f.simTimeRatio * SimTimeRatioFactor / (ts * Fps);
      Ok(f.(timeStep := ts, stepsPerFrame := spf, frameWorldTime := spf * ts,
            sys := P.SetHistoryInterval(f.sys, HistoryInterval(ts))))
  }

  /** For a positive q, num lies within q/2 of n * q when num / q lies within 1/2 of n. */
  lemma ScaledRoundingError(num: real, q: real, n: int)
    requires q > 0.0 && -0.5 <= num / q - n as real <= 0.5
    ensures -0.5 * q <= num - n as real * q <= 0.5 * q
  {
    var m := n as real;
    A.QuotientBound(num, q, m + 0.5);
    A.QuotientBound(num, q, m - 0.5);
    assert (m + 0.5) * q == m * q + 0.5 * q;
    assert (m - 0.5) * q == m * q - 0.5 * q;
  }

  /** A time step between 0.0001 and 200000 s puts samples within half a step of 100000 world seconds apart. */
  lemma IntervalOfModerateStep(ts: real)
    requires 0.0001 <= ts < 200000.0
    ensures -0.5 * ts <= HistorySpacing - HistoryInterval(ts) as real * ts <= 0.5 * ts
  {
    var n := T.RoundHalfEven(HistorySpacing / ts);
    T.RoundingFixesIntegers(n);
    A.QuotientBound(HistorySpacing, ts, 0.5);
    A.QuotientBound(HistorySpacing, ts, 1000000000.0);
    assert 1 <= n <= 1000000001;
    ScaledRoundingError(HistorySpacing, ts, n);
  }

  /** A time step of 200000 s or more records every step. */
  lemma IntervalOfLongStep(ts: real)
    requires ts >= 200000.0
    ensures HistoryInterval(ts) == 1
  {
    var n := T.RoundHalfEven(HistorySpacing / ts);
    T.RoundingFixesIntegers(n);
    A.QuotientBound(HistorySpacing, ts, 0.5);
    assert n <= 0;
  }

  /** A negative time step records every step. */
  lemma IntervalOfNegativeStep(ts: real)
    requires ts < 0.0
    ensures HistoryInterval(ts) == 1
  {
    var x := HistorySpacing / ts;
    assert x * -ts == -HistorySpacing;
    A.ScaleInequality(0.0, x, -ts);
    assert x < 0.0;
    T.RoundingFixesIntegers(T.RoundHalfEven(x));
  }

  /** Alt + mouse wheel: the time step halves (while above 0.001) or doubles (while below 1000). */
  function WheelTimeStep(f: Form, delta: int): (r: Result<Form>)
    ensures f.timeStep > 0.0 ==> r.Ok? && r.value.timeStep > 0.0
    ensures 0.0005 < f.timeStep < 2000.0 ==> r.Ok? && 0.0005 < r.value.timeStep < 2000.0
    ensures r.Ok? && r.value.timeStep != f.timeStep ==> r.value.timeStep == f.timeStep * 0.5 || r.value.timeStep == f.timeStep * 2.0
  {
    if delta > 0 && f.timeStep > 0.001 then UpdateTemporalParameters(f, f.timeStep * 0.5)
    else if delta < 0 && f.timeStep < 1000.0 then UpdateTemporalParameters(f, f.timeStep * 2.0)
    else Ok(f)
  }

  /** Ctrl + mouse wheel: the time ratio doubles (while below 1000) or halves (while above 1E-6); the time step stays. */
  function WheelSpeed(f: Form, delta: int): (r: Result<Form>)
    ensures r.Err? <==> f.timeStep == 0.0 && ((delta > 0 && f.simTimeRatio < 1000.0) || (delta < 0 && f.simTimeRatio > 0.000001))
    ensures r.Ok? ==> r.value.timeStep == f.timeStep
    ensures r.Ok? ==> r.value.simTimeRatio == f.simTimeRatio || r.value.simTimeRatio == f.simTimeRatio * 2.0
                      || r.value.simTimeRatio == f.simTimeRatio / 2.0
  {
    if delta > 0 && f.simTimeRatio < 1000.0 then
      UpdateTemporalParameters(f.(simTimeRatio := f.simTimeRatio * 2.0), f.timeStep)
    else if delta < 0 && f.simTimeRatio > 0.000001 then
      UpdateTemporalParameters(f.(simTimeRatio := f.simTimeRatio / 2.0), f.timeStep)
    else Ok(f)
  }

  /** No UI command touches the recorder's lists, so none can misalign them. */
  lemma CommandsKeepRecorderAligned(f: Form, st: State, key: int, value: int, ts: real, delta: int)
    requires P.HistoryAligned(f.sys)
    ensures P.HistoryAligned(SetStateTo(f, st).sys) && P.HistoryAligned(DoubleClick(f).sys)
    ensures P.HistoryAligned(KeyDown(f, key).sys) && P.HistoryAligned(GotoTime(f, value).sys)
    ensures UpdateTemporalParameters(f, ts).Ok? ==> P.HistoryAligned(UpdateTemporalParameters(f, ts).value.sys)
    ensures WheelTimeStep(f, delta).Ok? ==> P.HistoryAligned(WheelTimeStep(f, delta).value.sys)
    ensures WheelSpeed(f, delta).Ok? ==> P.HistoryAligned(WheelSpeed(f, delta).value.sys)
  {
  }

  // ---------------------------------------------------------------------------
  // Loading.
  // ---------------------------------------------------------------------------

  /** Which PlanetarySystem.ReadXml a load uses: the method as written, or the
      corrected one of module SystemXml. */
  datatype Reader = AsWritten | Corrected

  /** The scenario file as a load sees it: its nodes, the number format
      double.Parse follows on the machine, and the reader. */
  datatype Scenario = Scenario(doc: seq<Xml.Token>, nf: Xml.NumberFormat, reader: Reader)

  /** `new PlanetarySystem()` read from the scenario file. */
  function ReadScenario(sc: Scenario): (P.System, Option<Fault>)
  {
    match sc.reader
    case AsWritten => SX.ReadXmlAsWritten(sc.nf, P.New(), sc.doc)
    case Corrected => SX.ReadXml(sc.nf, P.New(), sc.doc)
  }

  /** The load leaves history lists matching the bodies: always with the
      corrected reader, and with the reader as written when the read succeeds. */
  predicate LoadsClean(sc: Scenario)
  {
    sc.reader == Corrected || ReadScenario(sc).1.None?
  }

  /**
   * LoadFromXml with the scenario file: a new system is read from it, the
   * temporal parameters follow its TimeStep when the read succeeds, a failed
   * read is swallowed, and either way the clash count and the elapsed time are
   * reset. After a failed read by the reader as written the bodies read so far
   * have no history lists, with history switched off.
   */
  function LoadFromXml(f: Form, sc: Scenario): (r: Result<Form>)
    ensures var (sys, fault) := ReadScenario(sc);
      && (r.Err? <==> fault.None? && sys.timeStep == 0.0)
      && (r.Ok? ==> r.value.sys.bodies == sys.bodies && r.value.sys.times == [])
      && (r.Ok? && fault.None? ==> r.value.timeStep == sys.timeStep && r.value.sys.interval >= 1)
      && (r.Ok? && fault.Some? ==> r.value.sys == sys && r.value.timeStep == f.timeStep && !P.KeepHistory(r.value.sys))
    ensures r.Ok? && LoadsClean(sc) ==> P.HistoryAligned(r.value.sys)
    ensures r.Ok? && !LoadsClean(sc) ==> r.value.sys.histories == [] && !P.KeepHistory(r.value.sys)
    ensures r.Ok? ==> r.value.clashCount == 0 && r.value.elapsed == 0
    ensures r.Ok? ==> r.value.state == f.state && r.value.resume == f.resume && r.value.gotoTime == f.gotoTime
                      && r.value.lockIndex == f.lockIndex && r.value.simTimeRatio == f.simTimeRatio
  {
    var (sys, fault) := ReadScenario(sc);
    var f1 := f.(sys := sys);
    var f2 :- if fault.None? then UpdateTemporalParameters(f1, sys.timeStep) else Ok(f1);
    Ok(ResetParameters(f2))
  }

  /** What was loaded before makes no difference: the system comes from the file alone. */
  lemma LoadForgetsPreviousSystem(f1: Form, f2: Form, sc: Scenario)
    requires f1.simTimeRatio == f2.simTimeRatio
    ensures LoadFromXml(f1, sc).Ok? <==> LoadFromXml(f2, sc).Ok?
    ensures LoadFromXml(f1, sc).Ok? ==> LoadFromXml(f1, sc).value.sys == LoadFromXml(f2, sc).value.sys
  {
  }

  /** The form as the window's Load handler leaves it before the engine starts: unlocked view, paused. */
  const InitialForm: Form :=
    Form(Paused, false, P.New(), InitialTimeStep, InitialSimTimeRatio, 0.0, 0.0, 0, 0, 0, -1)

  /** Window load and thread start: the scenario is loaded, the engine starts paused with fresh counters. */
  function Startup(sc: Scenario): (r: Result<(Form, Pacing)>)
    ensures r.Err? <==> LoadFromXml(InitialForm, sc).Err?
    ensures r.Ok? ==> var (f, pace) := r.value;
      && f.state == Paused && !f.resume && f.lockIndex == -1
      && f.clashCount == 0 && f.elapsed == 0
      && (LoadsClean(sc) ==> P.HistoryAligned(f.sys))
      && (!LoadsClean(sc) ==> !P.KeepHistory(f.sys))
      && pace == Pacing(0.0, 1, 0, false)
  {
    var f :- LoadFromXml(InitialForm, sc);
    Ok((SetStateTo(f, Paused).(clashCount := 0), Pacing(0.0, 1, 0, false)))
  }

  // ---------------------------------------------------------------------------
  // Running: steps, frames and pacing.
  // ---------------------------------------------------------------------------

  /** What a run of steps changes: the system, the clash count and whether the message was shown. */
  datatype Stepper = Stepper(sys: P.System, clashCount: int, clashShown: bool)

  /** One call of SimulateStep(time): a clash it reports is counted and shows the message. */
  function StepOnce(st: Stepper, time: real, g: Gravity): (r: Result<Stepper>)
    ensures r.Ok? ==> |r.value.sys.bodies| == |st.sys.bodies|
    ensures r.Ok? ==>
      r.value.clashCount == st.clashCount +
        (if C.CheckEdges(P.ForwardEdges(st.sys.bodies, Accelerations(g, st.sys.bodies, time), time)) then 0 else 1)
    ensures r.Ok? ==> (r.value.clashShown <==> st.clashShown || r.value.clashCount > st.clashCount)
    ensures r.Ok? ==> r.value.sys.timeStep == st.sys.timeStep && r.value.sys.interval == st.sys.interval
    ensures P.HistoryAligned(st.sys) ==> r.Ok? && P.HistoryAligned(r.value.sys)
  {
    match P.SimulateStep(st.sys, time, Accelerations(g, st.sys.bodies, time))
    case Err(e) => Err(e)
    case Ok((s1, ok)) => Ok(Stepper(s1, if ok then st.clashCount else st.clashCount + 1, st.clashShown || !ok))
  }

  /** `n` calls of SimulateStep(time); each reported clash is counted and the message is shown once. */
  function RunSteps(st: Stepper, time: real, g: Gravity, n: int): (r: Result<Stepper>)
    decreases if n > 0 then n else 0, 1
    ensures r.Ok? ==> |r.value.sys.bodies| == |st.sys.bodies|
    ensures r.Ok? ==> st.clashCount <= r.value.clashCount <= st.clashCount + (if n > 0 then n else 0)
    ensures r.Ok? ==> (r.value.clashShown <==> st.clashShown || r.value.clashCount > st.clashCount)
    ensures r.Ok? ==> r.value.sys.timeStep == st.sys.timeStep && r.value.sys.interval == st.sys.interval
    ensures P.HistoryAligned(st.sys) ==> r.Ok? && P.HistoryAligned(r.value.sys)
  {
    if n <= 0 then Ok(st) else StepThenRun(st, time, g, n)
  }

  /** The first of n > 0 steps, then the other n - 1. */
  function StepThenRun(st: Stepper, time: real, g: Gravity, n: int): (r: Result<Stepper>)
    requires n > 0
    decreases n, 0
    ensures r.Ok? ==> |r.value.sys.bodies| == |st.sys.bodies|
    ensures r.Ok? ==> st.clashCount <= r.value.clashCount <= st.clashCount + n
    ensures r.Ok? ==> (r.value.clashShown <==> st.clashShown || r.value.clashCount > st.clashCount)
    ensures r.Ok? ==> r.value.sys.timeStep == st.sys.timeStep && r.value.sys.interval == st.sys.interval
    ensures P.HistoryAligned(st.sys) ==> r.Ok? && P.HistoryAligned(r.value.sys)
  {
    match StepOnce(st, time, g)
    case Err(e) => Err(e)
    case Ok(st1) => RunSteps(st1, time, g, n - 1)
  }

  /** Running a + b steps is running a steps, then b more. */
  lemma {:induction false} RunStepsSplits(st: Stepper, time: real, g: Gravity, a: nat, b: nat)
    decreases a
    ensures RunSteps(st, time, g, a).Err? ==> RunSteps(st, time, g, a + b) == RunSteps(st, time, g, a)
    ensures RunSteps(st, time, g, a).Ok? ==>
      RunSteps(st, time, g, a + b) == RunSteps(RunSteps(st, time, g, a).value, time, g, b)
  {
    if a > 0 {
      assert RunSteps(st, time, g, a) == StepThenRun(st, time, g, a);
      assert RunSteps(st, time, g, a + b) == StepThenRun(st, time, g, a + b);
      match StepOnce(st, time, g)
      case Err(e) =>
      case Ok(st1) =>
        RunStepsSplits(st1, time, g, a - 1, b);
    }
  }

  /** One frame's arithmetic: the outstanding steps grow by the steps per frame,
      their floor (as an int) is the number of steps to run, and a positive
      count is subtracted again. */
  function FrameSteps(outstanding: real, spf: real): (r: (int, real))
  {
    var o := outstanding + spf;
    var todo := T.ToInt32(o.Floor as real);
    (todo, if todo > 0 then o - todo as real else o)
  }

  /** Within the bounds the engine keeps, a frame runs the floor of the
      outstanding steps and keeps a remainder in [0, 1). */
  lemma FrameStepsTakeFloor(outstanding: real, spf: real)
    requires 0.0 <= outstanding < 1.0 && 0.0 <= spf < MaxStepsPerFrame
    ensures var r := FrameSteps(outstanding, spf);
      && r.0 == (outstanding + spf).Floor
      && r.0 as real + r.1 == outstanding + spf
      && 0.0 <= r.1 < 1.0
  {
  }

  /** The steps run over `frames` frames and the fraction left over. */
  function Accumulate(outstanding: real, spf: real, frames: nat): (r: (int, real))
    decreases frames
    ensures r.0 >= 0
  {
    if frames == 0 then (0, outstanding)
    else
      var (todo, rest) := FrameSteps(outstanding, spf);
      var (n, left) := Accumulate(rest, spf, frames - 1);
      ((if todo > 0 then todo else 0) + n, left)
  }

  /** n × x as a sum of n copies of x, which keeps the accumulation proof linear. */
  function Repeated(n: nat, x: real): (r: real)
    decreases n
  {
    if n == 0 then 0.0 else Repeated(n - 1, x) + x
  }

  lemma {:induction false} RepeatedIsProduct(n: nat, x: real)
    decreases n
    ensures Repeated(n, x) == n as real * x
  {
    if n > 0 {
      RepeatedIsProduct(n - 1, x);
      P.OneMoreStep(n, x);
    }
  }

  lemma {:induction false} AccumulateRepeated(outstanding: real, spf: real, frames: nat)
    requires 0.0 <= outstanding < 1.0 && 0.0 <= spf < MaxStepsPerFrame
    decreases frames
    ensures var total := outstanding + Repeated(frames, spf);
      Accumulate(outstanding, spf, frames) == (total.Floor, total - total.Floor as real)
  {
    if frames > 0 {
      var todo := FrameSteps(outstanding, spf).0;
      var rest := FrameSteps(outstanding, spf).1;
      FrameStepsTakeFloor(outstanding, spf);
      AccumulateRepeated(rest, spf, frames - 1);
      AccumulateFirstFrame(outstanding, spf, frames);
      var later := rest + Repeated(frames - 1, spf);
      assert outstanding + Repeated(frames, spf) == todo as real + later;
      A.FloorShift(todo, later);
    }
  }

  /** Nothing is lost to the fractions: over any number of frames the steps run
      are the floor of everything accumulated, and less than one step is left. */
  lemma FractionalAccumulation(outstanding: real, spf: real, frames: nat)
    requires 0.0 <= outstanding < 1.0 && 0.0 <= spf < MaxStepsPerFrame
    ensures var total := outstanding + frames as real * spf;
      && Accumulate(outstanding, spf, frames).0 == total.Floor
      && Accumulate(outstanding, spf, frames).1 == total - total.Floor as real
      && 0.0 <= Accumulate(outstanding, spf, frames).1 < 1.0
  {
    AccumulateRepeated(outstanding, spf, frames);
    RepeatedIsProduct(frames, spf);
  }

  /** The first frame's steps, when there are any, are added to those of the later frames. */
  lemma AccumulateFirstFrame(outstanding: real, spf: real, frames: nat)
    requires frames >= 1 && 0.0 <= outstanding < 1.0 && 0.0 <= spf < MaxStepsPerFrame
    ensures var (todo, rest) := FrameSteps(outstanding, spf);
      Accumulate(outstanding, spf, frames) == (todo + Accumulate(rest, spf, frames - 1).0, Accumulate(rest, spf, frames - 1).1)
  {
  }

  /** What the frame loop changes: the steps' state, the elapsed time, the outstanding fraction and the frames done. */
  datatype FrameRun = FrameRun(st: Stepper, elapsed: int, outstanding: real, framesDone: int)

  /** The Running case's frame loop for `frames` frames: each frame runs its
      steps of `timeStep` seconds and then advances the elapsed time by
      `frameTicks`, one frame of world time. */
  function RunFrames(fr: FrameRun, timeStep: real, spf: real, frameTicks: int, g: Gravity, frames: nat): (r: Result<FrameRun>)
    decreases frames
    ensures r.Ok? ==> r.value.framesDone == fr.framesDone + frames
    ensures r.Ok? ==> r.value.outstanding == Accumulate(fr.outstanding, spf, frames).1
    ensures P.HistoryAligned(fr.st.sys) ==> r.Ok? && P.HistoryAligned(r.value.st.sys)
  {
    if frames == 0 then Ok(fr)
    else
      var (todo, rest) := FrameSteps(fr.outstanding, spf);
      var st :- RunSteps(fr.st, timeStep, g, if todo > 0 then todo else 0);
      RunFrames(FrameRun(st, fr.elapsed + frameTicks, rest, fr.framesDone + 1), timeStep, spf, frameTicks, g, frames - 1)
  }

  /** Every frame advances the elapsed time by one frame of world time, so
      `frames` frames advance it by `frames * frameTicks` ticks. */
  lemma {:induction false} FramesAdvanceElapsed(fr: FrameRun, timeStep: real, spf: real, frameTicks: int, g: Gravity, frames: nat)
    decreases frames
    ensures var r := RunFrames(fr, timeStep, spf, frameTicks, g, frames);
      r.Ok? ==> r.value.elapsed == fr.elapsed + frames * frameTicks
  {
    if frames > 0 {
      var todo := FrameSteps(fr.outstanding, spf).0;
      RunFramesFirstFrame(fr, timeStep, spf, frameTicks, g, frames);
      match RunSteps(fr.st, timeStep, g, if todo > 0 then todo else 0)
      case Err(e) =>
      case Ok(st1) =>
        var fr1 := FrameRun(st1, fr.elapsed + frameTicks, FrameSteps(fr.outstanding, spf).1, fr.framesDone + 1);
        FramesAdvanceElapsed(fr1, timeStep, spf, frameTicks, g, frames - 1);
        var later := (frames - 1) * frameTicks;
        assert frames * frameTicks == later + frameTicks by { A.MulSucc(frames - 1, frameTicks); }
    }
  }

  /** A run of frames and a run of steps that end alike: both fail, or both
      succeed with the same system, clash count and message flag. */
  predicate SameRun(frames: Result<FrameRun>, steps: Result<Stepper>)
  {
    && (frames.Ok? <==> steps.Ok?)
    && (frames.Ok? && steps.Ok? ==> frames.value.st == steps.value)
  }

  /** A first frame whose steps throw ends the frame loop with that exception. */
  lemma FirstFrameFails(fr: FrameRun, timeStep: real, spf: real, frameTicks: int, g: Gravity, frames: nat)
    requires frames >= 1
    ensures var todo := FrameSteps(fr.outstanding, spf).0;
      var first := RunSteps(fr.st, timeStep, g, if todo > 0 then todo else 0);
      first.Err? ==> RunFrames(fr, timeStep, spf, frameTicks, g, frames) == Err(first.fault)
  {
  }

  /** A first frame whose steps succeed hands over to the remaining frames. */
  lemma FirstFrameContinues(fr: FrameRun, timeStep: real, spf: real, frameTicks: int, g: Gravity, frames: nat)
    requires frames >= 1
    ensures var todo := FrameSteps(fr.outstanding, spf).0;
      var first := RunSteps(fr.st, timeStep, g, if todo > 0 then todo else 0);
      first.Ok? ==>
        RunFrames(fr, timeStep, spf, frameTicks, g, frames) ==
        RunFrames(FrameRun(first.value, fr.elapsed + frameTicks, FrameSteps(fr.outstanding, spf).1, fr.framesDone + 1),
                  timeStep, spf, frameTicks, g, frames - 1)
  {
  }

  /** The first frame runs max(todo, 0) steps and hands over to the remaining frames. */
  lemma RunFramesFirstFrame(fr: FrameRun, timeStep: real, spf: real, frameTicks: int, g: Gravity, frames: nat)
    requires frames >= 1
    ensures var todo := FrameSteps(fr.outstanding, spf).0;
      var first := RunSteps(fr.st, timeStep, g, if todo > 0 then todo else 0);
      && (first.Err? ==> RunFrames(fr, timeStep, spf, frameTicks, g, frames) == Err(first.fault))
      && (first.Ok? ==>
            RunFrames(fr, timeStep, spf, frameTicks, g, frames) ==
            RunFrames(FrameRun(first.value, fr.elapsed + frameTicks, FrameSteps(fr.outstanding, spf).1, fr.framesDone + 1),
                      timeStep, spf, frameTicks, g, frames - 1))
  {
    FirstFrameFails(fr, timeStep, spf, frameTicks, g, frames);
    FirstFrameContinues(fr, timeStep, spf, frameTicks, g, frames);
  }

  /** Splitting the steps into frames changes nothing but the pacing: the frames
      run exactly the steps of one uninterrupted run of the accumulated count. */
  lemma {:induction false} FramesBatchSteps(fr: FrameRun, timeStep: real, spf: real, frameTicks: int, g: Gravity, frames: nat)
    decreases frames
    ensures SameRun(RunFrames(fr, timeStep, spf, frameTicks, g, frames),
                    RunSteps(fr.st, timeStep, g, Accumulate(fr.outstanding, spf, frames).0))
  {
    if frames == 0 {
      assert RunSteps(fr.st, timeStep, g, 0) == Ok(fr.st);
      assert RunFrames(fr, timeStep, spf, frameTicks, g, 0) == Ok(fr);
    } else {
      var todo := FrameSteps(fr.outstanding, spf).0;
      var rest := FrameSteps(fr.outstanding, spf).1;
      var m: nat := if todo > 0 then todo else 0;
      var later := Accumulate(rest, spf, frames - 1).0;
      var whole := RunSteps(fr.st, timeStep, g, Accumulate(fr.outstanding, spf, frames).0);
      assert whole == RunSteps(fr.st, timeStep, g, m + later) by {
        assert Accumulate(fr.outstanding, spf, frames).0 == m + later;
      }
      RunStepsSplits(fr.st, timeStep, g, m, later);
      RunFramesFirstFrame(fr, timeStep, spf, frameTicks, g, frames);
      match RunSteps(fr.st, timeStep, g, m)
      case Err(e) =>
        assert RunFrames(fr, timeStep, spf, frameTicks, g, frames) == Err(e);
      case Ok(st1) =>
        var fr1 := FrameRun(st1, fr.elapsed + frameTicks, rest, fr.framesDone + 1);
        var byFrames := RunFrames(fr1, timeStep, spf, frameTicks, g, frames - 1);
        var bySteps := RunSteps(st1, timeStep, g, later);
        assert RunFrames(fr, timeStep, spf, frameTicks, g, frames) == byFrames;
        assert whole == bySteps;
        FramesBatchSteps(fr1, timeStep, spf, frameTicks, g, frames - 1);
    }
  }

  /** The frame count the wall clock calls for: Math.Round(seconds passed × Fps), cast to int. */
  function RawFramesDue(passed: int): (n: int)
    ensures T.InInt32(n)
  {
    T.ToInt32(T.RoundHalfEven(T.TotalSeconds(passed) * Fps) as real)
  }

  /** The catch-up clamp: more than ten frames behind, the engine drops them and
      schedules a single frame. (The sleeping branch recomputes the same value.) */
  function NextFramesDue(passed: int, done: int): (due: int)
    ensures due <= done + CatchUpLimit
    ensures RawFramesDue(passed) > done + CatchUpLimit ==> due == done + 1
    ensures RawFramesDue(passed) <= done + CatchUpLimit ==> due == RawFramesDue(passed)
  {
    var due := RawFramesDue(passed);
    if due > done + CatchUpLimit then done + 1 else due
  }

  /** The argument, in milliseconds before rounding, of Thread.Sleep when the engine is ahead of the clock. */
  function SleepMillis(passed: int, done: int): real
  {
    ((done + 1) as real / Fps - T.TotalSeconds(passed)) * 1000.0 - 10.0
  }

  /** When no frame is due the engine sleeps for at least 7 ms, so Thread.Sleep never sees a negative timeout. */
  lemma SleepIsPositive(passed: int, done: int)
    requires T.InInt32(T.RoundHalfEven(T.TotalSeconds(passed) * Fps))
    requires RawFramesDue(passed) <= done
    ensures T.RoundHalfEven(SleepMillis(passed, done)) >= 7
  {
    var x := T.TotalSeconds(passed) * Fps;
    T.RoundingFixesIntegers(T.RoundHalfEven(x));
    assert x <= done as real + 0.5;
    assert SleepMillis(passed, done) >= 6.5;
  }

  /**
   * The Running case of the engine loop: the frames due are run, then the
   * clock decides how many frames the next pass runs, never more than ten
   * ahead of those done.
   */
  function RunningIteration(f: Form, pace: Pacing, g: Gravity, passed: int): (r: Result<(Form, Pacing)>)
    ensures r.Ok? ==> r.value.1.framesDone == if pace.framesDone < pace.framesDue then pace.framesDue else pace.framesDone
    ensures r.Ok? ==> r.value.1.framesDue <= r.value.1.framesDone + CatchUpLimit
    ensures r.Ok? ==> r.value.0.state == f.state && r.value.0.timeStep == f.timeStep && r.value.0.resume == f.resume
    ensures P.HistoryAligned(f.sys) ==> r.Ok? && P.HistoryAligned(r.value.0.sys)
  {
    var frames := if pace.framesDone < pace.framesDue then pace.framesDue - pace.framesDone else 0;
    var fr := FrameRun(Stepper(f.sys, f.clashCount, pace.clashShown), f.elapsed, pace.outstanding, pace.framesDone);
    var ran :- RunFrames(fr, f.timeStep, f.stepsPerFrame, T.FromSeconds(f.frameWorldTime), g, frames);
    Ok((f.(sys := ran.st.sys, clashCount := ran.st.clashCount, elapsed := ran.elapsed),
        pace.(outstanding := ran.outstanding, framesDone := ran.framesDone, clashShown := ran.st.clashShown,
              framesDue := NextFramesDue(passed, ran.framesDone))))
  }

  // ---------------------------------------------------------------------------
  // GoingToTime.
  // ---------------------------------------------------------------------------

  /** How the go-to loop ends: it reaches its exit, it never exits, or a step throws. */
  datatype GotoEnd = Reached(form: Form) | Spins | Fails(fault: Fault)

  /** One pass of the go-to loop: a step by the time step, its clash report
      ignored, and `step` ticks more elapsed. */
  function GotoStep(f: Form, g: Gravity, step: int): (r: Result<Form>)
    ensures r.Ok? ==> r.value == f.(sys := r.value.sys, elapsed := f.elapsed + step)
    ensures P.HistoryAligned(f.sys) ==> r.Ok? && P.HistoryAligned(r.value.sys)
    ensures !P.KeepHistory(f.sys) ==> r.Ok? && !P.KeepHistory(r.value.sys)
  {
    var stepped :- P.SimulateStep(f.sys, f.timeStep, Accelerations(g, f.sys.bodies, f.timeStep));
    Ok(f.(sys := stepped.0, elapsed := f.elapsed + step))
  }

  /**
   * The go-to loop: while elapsed <= end and the window is not closing, step by
   * the time step and add `step` ticks. `closeAfter` is the number of passes
   * after which the window is closed, if it is closed while the loop runs.
   * The clash reports of these steps are ignored.
   */
  function GotoLoop(f: Form, g: Gravity, step: int, end: int, closeAfter: Option<nat>): (r: GotoEnd)
    decreases (if closeAfter.Some? then closeAfter.value else 0), (if step > 0 && f.elapsed <= end then end - f.elapsed + step else 0)
    ensures r.Spins? <==> closeAfter.None? && step <= 0 && f.elapsed <= end && !P.MissingLogs(f.sys)
    ensures closeAfter.None? && step <= 0 && f.elapsed <= end && P.MissingLogs(f.sys) ==> r == Fails(IndexOutOfRange)
    ensures r.Reached? && closeAfter.None? ==> end < r.form.elapsed && r.form.state == f.state
    ensures r.Reached? && step > 0 && f.elapsed <= end + step ==> r.form.elapsed <= end + step
    ensures r.Reached? ==> r.form.(sys := f.sys, elapsed := f.elapsed, state := f.state, resume := f.resume) == f
    ensures r.Reached? ==> r.form.state == f.state || r.form.state == Closing
    ensures P.HistoryAligned(f.sys) ==> !r.Fails? && (r.Reached? ==> P.HistoryAligned(r.form.sys))
    ensures !P.KeepHistory(f.sys) ==> !r.Fails? && (r.Reached? ==> !P.KeepHistory(r.form.sys))
  {
    if f.elapsed > end then Reached(f)
    else if closeAfter == Some(0) then Reached(SetStateTo(f, Closing))
    else if closeAfter.None? && step <= 0 then
      // elapsed never grows, so only a throwing step ends the loop
      if P.MissingLogs(f.sys) then Fails(IndexOutOfRange) else Spins
    else
      match GotoStep(f, g, step)
      case Err(e) => Fails(e)
      case Ok(f') =>
        GotoLoop(f', g, step, end, if closeAfter.Some? then Some(closeAfter.value - 1) else None)
  }

  /** How one pass of the go-to loop's body meets missing history logs: it
      throws exactly when a sample is due, and otherwise counts down towards one. */
  lemma GotoStepOnMissingLogs(f: Form, g: Gravity, step: int)
    ensures var r := GotoStep(f, g, step);
      && (r.Err? <==> P.MissingLogs(f.sys) && f.sys.countdown <= 0)
      && (r.Err? ==> r.fault == IndexOutOfRange)
      && (r.Ok? ==> (P.MissingLogs(r.value.sys) <==> P.MissingLogs(f.sys)))
      && (r.Ok? && P.MissingLogs(f.sys) ==> r.value.sys.countdown == f.sys.countdown - 1)
  {
    var accs := Accelerations(g, f.sys.bodies, f.timeStep);
    var rec := P.RecordBodies(f.sys, f.timeStep);
    var sim := P.SimulateStep(f.sys, f.timeStep, accs);
    if sim.Ok? {
      assert sim.value.0 == rec.value.(bodies := sim.value.0.bodies);
      assert |sim.value.0.bodies| == |f.sys.bodies|;
    }
  }

  /**
   * `n` passes of the go-to loop's body, stopping at the first that throws.
   * This is what justifies the loop's shortcut for a step of no ticks: with
   * every log present, or history off, no number of passes throws and elapsed
   * never moves forward, so the loop never exits; with a log missing, the
   * pass that takes the next sample throws, at the latest the
   * (countdown + 1)-th.
   */
  function GotoSteps(f: Form, g: Gravity, step: int, n: nat): (r: Result<Form>)
    decreases n
    ensures !P.MissingLogs(f.sys) ==> r.Ok?
    ensures r.Ok? && step <= 0 ==> r.value.elapsed <= f.elapsed
    ensures P.MissingLogs(f.sys) && n > 0 && n > f.sys.countdown ==> r == Err(IndexOutOfRange)
  {
    if n == 0 then Ok(f)
    else
      GotoStepOnMissingLogs(f, g, step);
      match GotoStep(f, g, step)
      case Err(e) => Err(e)
      case Ok(f') => GotoSteps(f', g, step, n - 1)
  }

  /** The step after an interrupted loop: it simulates the time from elapsed to `end`, then sets elapsed to the target. */
  function PartialStep(f: Form, g: Gravity, end: int): (r: Result<Form>)
    ensures r.Ok? ==> r.value.elapsed == f.gotoTime
    ensures r.Ok? ==> r.value.(sys := f.sys, elapsed := f.elapsed) == f
    ensures P.HistoryAligned(f.sys) ==> r.Ok? && P.HistoryAligned(r.value.sys)
    ensures !P.KeepHistory(f.sys) ==> r.Ok? && !P.KeepHistory(r.value.sys)
  {
    var t := T.TotalSeconds(end - f.elapsed);
    var stepped :- P.SimulateStep(f.sys, t, Accelerations(g, f.sys.bodies, t));
    Ok(f.(sys := stepped.0, elapsed := f.gotoTime))
  }

  /** A target in the past reloads the scenario first. */
  function ReloadIfPast(f: Form, sc: Scenario): (r: Result<Form>)
    ensures f.elapsed <= f.gotoTime ==> r == Ok(f)
    ensures f.elapsed > f.gotoTime ==> r == LoadFromXml(f, sc)
  {
    if f.elapsed > f.gotoTime then LoadFromXml(f, sc) else Ok(f)
  }

  /** What one pass of the engine loop leads to. */
  datatype Outcome =
    | Next(form: Form, pace: Pacing)   // the pass completed
    | Waiting                          // Paused with the resume event unset: the thread blocks
    | Spinning                         // the go-to loop never exits
    | Ended                            // Closing: the thread has left its loop
    | Stopped(fault: Fault)            // an exception ends the thread (or the model cannot follow it)

  /**
   * The GoingToTime case: reload if the target is in the past, step to the
   * target without passing it, take the partial step after an interrupted
   * loop, and end in Paused — even when the window was closed meanwhile.
   */
  function GoingToTimeIteration(f: Form, pace: Pacing, g: Gravity, sc: Scenario, closeAfter: Option<nat>): (r: Outcome)
    ensures r.Next? ==> r.form.state == Paused && !r.pace.clashShown && r.form.gotoTime == f.gotoTime
    ensures r.Next? ==> r.form.clashCount == if f.elapsed > f.gotoTime then 0 else f.clashCount
    ensures r.Next? && closeAfter.None? ==> r.form.elapsed > r.form.gotoTime - T.FromSeconds(r.form.timeStep)
    ensures r.Spinning? ==> closeAfter.None?
    ensures !r.Waiting? && !r.Ended?
    ensures P.HistoryAligned(f.sys) ==> (r.Stopped? ==> r.fault == NonFinite)
    ensures P.HistoryAligned(f.sys) && r.Next? ==>
      P.HistoryAligned(r.form.sys) || (!LoadsClean(sc) && !P.KeepHistory(r.form.sys))
    ensures P.HistoryAligned(f.sys) && LoadsClean(sc) && r.Next? ==> P.HistoryAligned(r.form.sys)
  {
    match ReloadIfPast(f, sc)
    case Err(e) => Stopped(e)
    case Ok(f0) =>
      var step := T.FromSeconds(f0.timeStep);
      var end := f0.gotoTime - step;
      match GotoLoop(f0, g, step, end, closeAfter)
      case Spins => Spinning
      case Fails(e) => Stopped(e)
      case Reached(f1) =>
        match (if f1.elapsed < end then PartialStep(f1, g, end) else Ok(f1))
        case Err(e) => Stopped(e)
        case Ok(f2) => Next(SetStateTo(f2, Paused), pace.(clashShown := false))
  }

  /** Without a close, a go-to with a positive step stops within one step at or
      below the target — never past it — whenever the target can be reached:
      it lies ahead, or it is behind but not before zero, where the reload starts. */
  lemma GotoNeverOvershoots(f: Form, pace: Pacing, g: Gravity, sc: Scenario)
    requires f.elapsed <= f.gotoTime || f.gotoTime >= 0
    ensures var r := GoingToTimeIteration(f, pace, g, sc, None);
      r.Next? && T.FromSeconds(r.form.timeStep) > 0 ==>
        r.form.gotoTime - T.FromSeconds(r.form.timeStep) < r.form.elapsed <= r.form.gotoTime
  {
    match ReloadIfPast(f, sc)
    case Err(_) =>
    case Ok(f0) =>
      var step := T.FromSeconds(f0.timeStep);
      assert f0.elapsed <= f0.gotoTime;
  }

  /** A target before zero (TimeSpan.TryParse accepts negative spans) that lies
      behind: the reload puts elapsed at zero, already past the target, so the
      go-to ends there, overshooting it. */
  lemma GotoBeforeZeroStopsAtZero(f: Form, pace: Pacing, g: Gravity, sc: Scenario)
    requires f.gotoTime < 0 && f.elapsed > f.gotoTime
    ensures var r := GoingToTimeIteration(f, pace, g, sc, None);
      r.Next? ==> r.form.elapsed == 0 && r.form.elapsed > r.form.gotoTime
  {
    match ReloadIfPast(f, sc)
    case Err(_) =>
    case Ok(f0) =>
      assert f0.elapsed == 0;
  }

  /** A go-to whose time step rounds to zero ticks, or is negative, never
      finishes unless the window closes: it steps forever, or throws at the
      first sample when a body has no history log. */
  lemma GotoWithoutStepNeverFinishes(f: Form, pace: Pacing, g: Gravity, sc: Scenario)
    requires f.elapsed <= f.gotoTime && T.FromSeconds(f.timeStep) <= 0
    ensures GoingToTimeIteration(f, pace, g, sc, None)
         == if P.MissingLogs(f.sys) then Stopped(IndexOutOfRange) else Spinning
  {
  }

  /**
   * Closing the window during a go-to: the loop stops, the partial step
   * simulates only the time up to one step before the target while elapsed
   * jumps to the target, and the state ends as Paused, so the thread keeps
   * running instead of ending.
   */
  lemma CloseDuringGotoIsOverridden(f: Form, pace: Pacing, g: Gravity, sc: Scenario)
    requires P.HistoryAligned(f.sys) && f.state == GoingToTime
    requires f.elapsed <= f.gotoTime && f.elapsed < f.gotoTime - T.FromSeconds(f.timeStep)
    ensures var r := GoingToTimeIteration(f, pace, g, sc, Some(0));
      r.Next? && r.form.state == Paused && r.form.elapsed == f.gotoTime
  {
    var step := T.FromSeconds(f.timeStep);
    var fc := SetStateTo(f, Closing);
    assert GotoLoop(f, g, step, f.gotoTime - step, Some(0)) == Reached(fc);
  }

  // ---------------------------------------------------------------------------
  // One pass of the engine loop.
  // ---------------------------------------------------------------------------

  /** The Loading case: reload the scenario, forget the clash message, pause. */
  function LoadingIteration(f: Form, pace: Pacing, sc: Scenario): (r: Outcome)
    ensures r.Next? || r.Stopped?
    ensures r.Next? ==> r.form.state == Paused && r.form.clashCount == 0 && r.form.elapsed == 0 && !r.pace.clashShown
    ensures r.Stopped? ==> r.fault == NonFinite
    ensures r.Next? && LoadsClean(sc) ==> P.HistoryAligned(r.form.sys)
    ensures r.Next? && !LoadsClean(sc) ==> !P.KeepHistory(r.form.sys)
  {
    match LoadFromXml(f, sc)
    case Err(e) => Stopped(e)
    case Ok(f1) => Next(SetStateTo(f1, Paused), pace.(clashShown := false))
  }

  /** The Paused case: wait for the resume event, clear it, and restart the frame clock. */
  function PausedIteration(f: Form, pace: Pacing): (r: Outcome)
    ensures r.Waiting? <==> !f.resume
    ensures r.Next? ==> r.form == f.(resume := false) && r.pace == pace.(framesDue := 1, framesDone := 0)
    ensures r.Next? || r.Waiting?
  {
    if f.resume then Next(f.(resume := false), pace.(framesDue := 1, framesDone := 0)) else Waiting
  }

  /** The inputs of one pass: the wall-clock ticks since the frame clock started,
      the scenario file's content, and when (if at all) the window closes during a go-to. */
  datatype Input = Input(passed: int, scenario: Scenario, closeAfter: Option<nat>)

  /** One pass of the engine thread's loop, chosen by the current state. */
  function Iterate(f: Form, pace: Pacing, g: Gravity, input: Input): (r: Outcome)
    ensures r.Ended? <==> f.state == Closing
    ensures r.Waiting? <==> f.state == Paused && !f.resume
    ensures r.Spinning? ==> f.state == GoingToTime
    ensures r.Next? && f.state == Running ==> r.form.state == Running
    ensures r.Next? && f.state == Paused ==> r.form.state == Paused && !r.form.resume
    ensures r.Next? && (f.state == Loading || f.state == GoingToTime) ==> r.form.state == Paused
    ensures r.Next? && f.state == Loading ==> r.form.clashCount == 0 && r.form.elapsed == 0
  {
    match f.state
    case Closing => Ended
    case Paused => PausedIteration(f, pace)
    case Loading => LoadingIteration(f, pace, input.scenario)
    case GoingToTime => GoingToTimeIteration(f, pace, g, input.scenario, input.closeAfter)
    case Running =>
      match RunningIteration(f, pace, g, input.passed)
      case Err(e) => Stopped(e)
      case Ok((f1, p1)) => Next(f1, p1)
  }

  /** From an aligned recorder no pass throws IndexOutOfRange; a pass stops only
      on a zero time step. The recorder stays aligned when the scenario loads
      cleanly; a failed load by the reader as written leaves it misaligned but
      switched off. */
  lemma EngineKeepsRecorderAligned(f: Form, pace: Pacing, g: Gravity, input: Input)
    requires P.HistoryAligned(f.sys)
    ensures var r := Iterate(f, pace, g, input);
      && (r.Stopped? ==> r.fault == NonFinite)
      && (r.Next? && LoadsClean(input.scenario) ==> P.HistoryAligned(r.form.sys))
      && (r.Next? ==> P.HistoryAligned(r.form.sys) || !P.KeepHistory(r.form.sys))
  {
  }

  /**
   * As written, a failed load followed by a mouse-wheel change of the time step
   * makes the next Running pass throw: the load keeps a body without a history
   * list, and the wheel switches history on, so the first step's RecordBodies
   * indexes the missing list.
   */
  lemma FailedLoadBreaksRunning(nf: Xml.NumberFormat, g: Gravity, passed: int)
    ensures var sc := Scenario(SX.BodyThenUnknown, nf, AsWritten);
      var loaded := LoadFromXml(InitialForm, sc);
      && loaded.Ok? && !LoadsClean(sc)
      && WheelTimeStep(loaded.value, 1).Ok?
      && RunningIteration(WheelTimeStep(loaded.value, 1).value, Pacing(0.0, 1, 0, false), g, passed)
         == Err(IndexOutOfRange)
  {
    var sc := Scenario(SX.BodyThenUnknown, nf, AsWritten);
    SX.FailedReadBreaksRecording(nf, 0.0);
    var f := LoadFromXml(InitialForm, sc).value;
    assert f.sys.bodies == [B.New()] && f.sys.histories == [] && f.timeStep == 10.0 && f.simTimeRatio == 1.0;
    var f1 := WheelTimeStep(f, 1).value;
    assert f1.timeStep == 5.0 && f1.sys.interval >= 1 && f1.sys.countdown == 0;
    assert f1.sys.bodies == f.sys.bodies && f1.sys.histories == [];
    var spf := f1.stepsPerFrame;
    assert spf * 5.0 == 1.0 * SimTimeRatioFactor / Fps;
    assert 1.0 <= spf < MaxStepsPerFrame;
    var todo := FrameSteps(0.0, spf).0;
    FrameStepsTakeFloor(0.0, spf);
    assert todo >= 1;
    var st := Stepper(f1.sys, f1.clashCount, false);
    assert P.RecordBodies(f1.sys, 5.0) == Err(IndexOutOfRange);
    assert StepOnce(st, 5.0, g) == Err(IndexOutOfRange);
    assert RunSteps(st, 5.0, g, todo) == Err(IndexOutOfRange);
    var fr := FrameRun(st, f1.elapsed, 0.0, 0);
    RunFramesFirstFrame(fr, 5.0, spf, T.FromSeconds(f1.frameWorldTime), g, 1);
  }
}
