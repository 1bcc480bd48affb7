# ThreeBody: a verified model of the simulator's exact core

ThreeBody is a Windows Forms n-body gravity simulator. A `PlanetarySystem` holds
an ordered list of `SphericalCelestialBody` objects, each with mass, radius,
an ARGB colour, and a position and velocity `Vector`. The engine thread of
`ThreeBodyForm` advances the system in fixed time steps. It runs in one of
five states (Paused, Running, GoingToTime, Loading, Closing), paces itself to
30 frames per second, and can fast-forward to a target time. Every step
records a decimated history of the bodies and runs a swept-box collision test.
Scenarios are read from and written to an XML document.

This project models the parts of that program that can be stated exactly:

- **Vectors** (`vectors.dfy`). The value operations of `Vector` over `real`,
  plus its XML form. `CrossProduct` is what the source computes: a dot product.
- **Vector objects** (`vector_objects.dfy`). A small explicit heap of mutable
  vector cells. It gives `Clone`, `CopyFrom`, `AddToSelf` and
  `SubtractFromSelf` their aliasing meaning.
- **Bodies and body records** (`bodies.dfy`, `body_records.dfy`). The body
  reader is a state machine: outside, in `Body.Position`, or in
  `Body.Velocity`. Mass is read at a scale of 1E30 and radius at 1E9. The
  colour uses a 32-bit two's-complement "x8" hex codec (`hex_color.dfy`).
  A history record holds clones of the body's position and velocity.
- **History recorder** (`planetary.dfy`). A countdown decides which calls to
  `RecordBodies` take a sample. Every body log stays as long as the timestamp
  log.
- **Collision test and step loops** (`collision.dfy`, `planetary.dfy`).
  `CheckEdges` is a pairwise overlap test on axis-aligned boxes.
  `SimulateStep` moves every body before checking. `SimulateStepBack` stops at
  the first clash and leaves the later bodies where they were.
- **Scenario reader and writer** (`system_xml.dfy`). XML is an abstract token
  sequence (`xml.dfy`): start elements with attributes, end elements, and
  other nodes. An attribute holds its raw text. Numbers are written with
  `double.ToString()` and read with `double.Parse`, and both are a
  `NumberFormat` input that the model does not fix.
- **Engine** (`engine.dfy`). The state machine, the commands that change the
  state, the frame pacing with fractional-step accumulation and the catch-up
  clamp, and the go-to loop over integer `TimeSpan` ticks (`time_spans.dfy`).
  The engine thread is modelled as one pass of its loop at a time. The wall
  clock and the gravity computation are inputs.

Behaviour of the source that the model keeps as written:

- `Vector.Scale` returns a new vector, so the `Scale` calls in the body
  reader and writer have no effect. Positions and velocities are read and
  written in SI units, not at 1E12 m and km/s as the comments there say.
- `SimulateStepBack` scales the velocity change by `time * 1E-8` and the
  collision radius by `1E-3`. It is the inverse of `SimulateStep` only at
  zero acceleration.
- A failed scenario load does not fall back to a builtin scenario. The
  system is replaced before parsing and the exception is swallowed
  (`ThreeBody/ThreeBodyForm.cs:853-863`), so the engine continues with
  whatever was read.
- The go-to loop stops once elapsed time is within one step of the target,
  at or below it. It does not land exactly on the target. The partial step is
  taken only when Closing interrupts the loop. It simulates `end - elapsed`
  seconds, where `end` is one step before the target, yet sets elapsed time
  to the target. After the go-to the state is set to Paused, which overrides
  a Closing request made during it.
- `(int)` casts of doubles that are out of range give `int.MinValue`.
  `Math.Round` rounds half to even. `TimeSpan.FromSeconds` rounds to whole
  milliseconds.
- A time step of zero makes the source's steps per frame infinite and its
  world time per frame NaN. The model reports the load of such a scenario as
  a `NonFinite` fault instead of following it.

The engine takes the scenario reader as part of its input. `AsWritten` is the
source's reader, and `Corrected` is the fix described under "## Findings". A
load is *clean* when the corrected reader is used or the read succeeds. The
engine's recorder guarantees are stated for clean loads, and for the failed
load by the reader as written on its own.

## Model

Some members are plain definitions with no contract of their own. Their
meaning is stated by the lemmas in the table:

- `Vectors.Add` and `Vectors.Sub`: `Vectors.SubUndoesAdd`.
- `Vectors.Scale`: `Vectors.ScaleComposes`.
- `Vectors.CrossProduct`: `Vectors.CrossProductIsDotProduct`.
- `Vectors.IsZero`: `Vectors.IsZeroBoundsComponents`.
- `Planetary.UpdatePosition`: `Planetary.DriftThereAndBack` and `Planetary.ZeroAccelerationDrifts`.
- `Planetary.ForwardEdges` and `Planetary.BackEdges`: `Planetary.ForwardLoop` and `Planetary.BackLoopMoves`.
- `Collision.BoxOf`: `Collision.BoxIsSweptSpheres`.
- `Collision.Overlap`: `Collision.OverlapIsSharedPoint` and `Collision.TouchingOverlaps`.

| member | source | states |
|---|---|---|
| Vectors.SquareLength | ThreeBodyEngine/Vector.cs:22-25 | the squared length is never negative and is zero for the zero vector |
| Vectors.SubUndoesAdd | ThreeBodyEngine/Vector.cs:114-134 | subtracting b undoes adding b and adding b undoes subtracting it, componentwise |
| Vectors.SubSelfIsZero | ThreeBodyEngine/Vector.cs:22-42 | a.Sub(a) has squared length 0 and so is IsZero |
| Vectors.IsZeroBoundsComponents | ThreeBodyEngine/Vector.cs:39-42 | the zero vector is IsZero; an IsZero vector has every squared component below epsilon; negating a vector does not change IsZero |
| Vectors.CrossProductIsDotProduct | ThreeBodyEngine/Vector.cs:161-165 | CrossProduct is symmetric and v.CrossProduct(v) is the squared length: it is a dot product |
| Vectors.ScaleComposes | ThreeBodyEngine/Vector.cs:136-145 | scaling by 1 is the identity, scaling twice is scaling by the product, and scaling by 1/s then by s gives the vector back |
| Vectors.ReadAttrs | ThreeBodyEngine/Vector.cs:68-84 | the attributes read succeed exactly when every X, Y and Z value is a number; each component becomes its last value, an unmentioned component keeps its old value, other attributes are ignored |
| Vectors.ReadXml | ThreeBodyEngine/Vector.cs:55-101 | the reader only moves forward and stays inside the document |
| Vectors.WriteXml | ThreeBodyEngine/Vector.cs:103-110 | the writer emits one empty Vector element |
| Vectors.ReadAttrsOfWritten | ThreeBodyEngine/Vector.cs:68-108 | for any number format, the X, Y, Z attributes written read back as the numbers the format parses from their texts, whatever the reader held, or throw when one text does not parse; components that read back exactly are restored |
| Vectors.WriteReadRoundTrip | ThreeBodyEngine/Vector.cs:55-110 | for any number format, reading a written vector gives the components as parsed from their texts and leaves the reader on that element, or throws when a text does not parse; a vector whose components read back exactly is restored |
| Vectors.ReadXmlRejects | ThreeBodyEngine/Vector.cs:62-98 | a second Vector element, an element of another name, or an end element of another name makes the reader fail |
| VectorObjects.New | ThreeBodyEngine/Vector.cs:18-20 | a new vector is a fresh object with zero components; no existing object changes |
| VectorObjects.Alloc | ThreeBodyEngine/Vector.cs:116-121 | allocation yields a reference that was not valid before and leaves every existing object as it was |
| VectorObjects.Add | ThreeBodyEngine/Vector.cs:114-123 | Add yields a fresh object holding the componentwise sum and changes neither operand |
| VectorObjects.Sub | ThreeBodyEngine/Vector.cs:125-134 | Sub yields a fresh object holding the componentwise difference and changes neither operand |
| VectorObjects.Scale | ThreeBodyEngine/Vector.cs:136-145 | Scale yields a fresh scaled object and leaves the receiver unchanged |
| VectorObjects.Clone | ThreeBodyEngine/Vector.cs:167-175 | a clone is a fresh object, distinct from the original, with equal components |
| VectorObjects.AddToSelf | ThreeBodyEngine/Vector.cs:147-152 | AddToSelf writes the sum into the receiver and changes no other object |
| VectorObjects.SubtractFromSelf | ThreeBodyEngine/Vector.cs:154-159 | SubtractFromSelf writes the difference into the receiver and changes no other object |
| VectorObjects.CopyFrom | ThreeBodyEngine/Vector.cs:177-182 | CopyFrom writes the argument's components into the receiver and changes no other object |
| VectorObjects.InPlaceAgreesWithValueForms | ThreeBodyEngine/Vector.cs:114-159 | AddToSelf gives the same components as Add, and SubtractFromSelf the same as Sub |
| VectorObjects.CloneIsIndependent | ThreeBodyEngine/Vector.cs:167-175 | mutating the clone leaves the original unchanged, and mutating the original leaves the clone unchanged |
| VectorObjects.CopyFromMakesEqual | ThreeBodyEngine/Vector.cs:177-182 | after a.CopyFrom(b) the two objects hold equal components |
| BodyRecords.Snapshot | ThreeBodyEngine/BodyRecord.cs:21-25 | a record of a body holds the body's position and velocity |
| BodyRecords.CopyFrom | ThreeBodyEngine/BodyRecord.cs:21-25 | the record holds two fresh, distinct objects equal to the body's position and velocity; the body and every other object are unchanged |
| BodyRecords.CopyFromIsSnapshot | ThreeBodyEngine/BodyRecord.cs:21-25 | reading the record after CopyFrom gives the value snapshot of the body |
| BodyRecords.RecordSurvivesBodyUpdates | ThreeBodyEngine/BodyRecord.cs:23-24 | later in-place updates of the body's position and velocity leave the record as taken |
| Bodies.New | ThreeBodyEngine/SphericalCelestialBody.cs:18-22 | a new body has zero position, velocity, mass, radius and colour |
| Bodies.ReadAttrs | ThreeBodyEngine/SphericalCelestialBody.cs:100-122 | the attribute loop fails only with a bad number or bad hex, and never changes position or velocity |
| Bodies.ReadAttrsAccepts | ThreeBodyEngine/SphericalCelestialBody.cs:100-122 | the attribute loop completes exactly when every Mass and Radius text is a number and every Color text is 32-bit hex |
| Bodies.ReadAttrsValues | ThreeBodyEngine/SphericalCelestialBody.cs:100-122 | a completed attribute loop leaves mass as the last Mass times 1E30, radius as the last Radius times 1E9 and the colour as the last Color; a missing one keeps the old value |
| Bodies.ReadXml | ThreeBodyEngine/SphericalCelestialBody.cs:79-180 | the reader only moves forward and stays inside the document |
| Bodies.WriteXml | ThreeBodyEngine/SphericalCelestialBody.cs:182-203 | the writer emits Body, then Body.Position holding the position, then Body.Velocity holding the velocity, each closed, then the end of Body |
| Bodies.ReadAttrsOfWritten | ThreeBodyEngine/SphericalCelestialBody.cs:100-188 | for any number format, the written attributes read back as the parsed mass and radius scaled back by 1E30 and 1E9, and as the written colour, or throw when a mass or radius text does not parse; a mass and radius that read back exactly are restored |
| Bodies.ReadsWrittenPosition | ThreeBodyEngine/SphericalCelestialBody.cs:134-140 | a written Body.Position element is read as the vector parsed from its texts, or throws |
| Bodies.ReadsWrittenVelocity | ThreeBodyEngine/SphericalCelestialBody.cs:141-147 | a written Body.Velocity element is read as the vector parsed from its texts, or throws |
| Bodies.WriteReadRoundTrip | ThreeBodyEngine/SphericalCelestialBody.cs:79-203 | for any number format, reading a written body gives the body as its numbers parse back and leaves the reader on its end element, or throws when one does not parse; a body whose numbers read back exactly is restored |
| Bodies.ReadsPositionElement | ThreeBodyEngine/SphericalCelestialBody.cs:134-170 | a Body.Position element whose vector reads as v, followed by its end, puts v into the position and returns to the outer stage |
| Bodies.ReadsVelocityElement | ThreeBodyEngine/SphericalCelestialBody.cs:141-175 | a Body.Velocity element whose vector reads as v, followed by its end, puts v into the velocity and returns to the outer stage |
| Bodies.UnexpectedStartRejected | ThreeBodyEngine/SphericalCelestialBody.cs:88-91 | any start element inside Body.Position or Body.Velocity makes the reader fail |
| Bodies.MismatchedEndRejected | ThreeBodyEngine/SphericalCelestialBody.cs:152-176 | an end element that does not close the current stage makes the reader fail |
| Bodies.BodyReturns | ThreeBodyEngine/SphericalCelestialBody.cs:124-161 | an empty Body element returns right after its attributes; an end of Body outside the nested elements returns |
| HexColor.ParseHex | ThreeBodyEngine/SphericalCelestialBody.cs:118 | a parsed colour is a 32-bit int |
| HexColor.FormatX8 | ThreeBodyEngine/SphericalCelestialBody.cs:187 | x8 formatting gives exactly 8 lowercase hex digits |
| HexColor.HexRoundTrip | ThreeBodyEngine/SphericalCelestialBody.cs:117-187 | every 32-bit int, negative ones included, formats as x8 and parses back to itself |
| TimeSpans.Truncate | ThreeBody/ThreeBodyForm.cs:468 | the cast truncates toward zero: the result lies within one of x, on the side of zero |
| TimeSpans.ToInt32 | ThreeBody/ThreeBodyForm.cs:441 | the cast gives a 32-bit int: the truncated value whenever that fits, and int.MinValue otherwise |
| TimeSpans.FromSeconds | ThreeBody/ThreeBodyForm.cs:524 | the ticks are whole milliseconds and within half a millisecond of the seconds given |
| TimeSpans.TotalSeconds | ThreeBody/ThreeBodyForm.cs:545 | total seconds times ten million is the tick count |
| TimeSpans.RoundHalfEven | ThreeBody/ThreeBodyForm.cs:441 | the result is within one half of x, and even on a tie |
| TimeSpans.RoundIsNearest | ThreeBody/ThreeBodyForm.cs:497 | no integer is nearer to x than its rounding |
| TimeSpans.RoundingFixesIntegers | ThreeBody/ThreeBodyForm.cs:468 | rounding and truncation leave integers as they are |
| TimeSpans.FromSecondsOfMilliseconds | ThreeBody/ThreeBodyForm.cs:524 | a whole number of milliseconds converts to exactly that many ticks |
| TimeSpans.FromSecondsOfTotalSeconds | ThreeBody/ThreeBodyForm.cs:544-546 | converting whole-millisecond ticks to seconds and back gives the same ticks |
| TimeSpans.FromSecondsIsMonotone | ThreeBody/ThreeBodyForm.cs:524-525 | more seconds never give fewer ticks |
| Collision.CheckAgainst | ThreeBodyEngine/PlanetarySystem.cs:425-452 | the inner loop passes exactly when edge i overlaps none of the later edges |
| Collision.CheckFrom | ThreeBodyEngine/PlanetarySystem.cs:423-454 | the outer loop from i passes exactly when no pair at or after i overlaps |
| Collision.CheckEdges | ThreeBodyEngine/PlanetarySystem.cs:421-455 | CheckEdges is true exactly when no pair i<j of edges overlaps |
| Collision.BoxIsSweptSpheres | ThreeBodyEngine/PlanetarySystem.cs:429-441 | an edge's box spans min and max of its end points, widened by the radius on each axis |
| Collision.OverlapIsSharedPoint | ThreeBodyEngine/PlanetarySystem.cs:442-451 | two boxes overlap exactly when some point lies in both |
| Collision.TouchingOverlaps | ThreeBodyEngine/PlanetarySystem.cs:442-447 | boxes that only touch count as overlapping, since only a strict comparison separates them |
| Collision.OverlapIsSymmetric | ThreeBodyEngine/PlanetarySystem.cs:442-447 | overlap does not depend on the order of the two edges |
| Collision.AtMostOneEdgeIsClear | ThreeBodyEngine/PlanetarySystem.cs:421-455 | a list of at most one edge always passes |
| Collision.NoClashOverDistinctPairs | ThreeBodyEngine/PlanetarySystem.cs:423-427 | no pair i<j overlaps exactly when no pair of distinct positions overlaps |
| Collision.CheckEdgesIgnoresOrder | ThreeBodyEngine/PlanetarySystem.cs:421-455 | the result does not depend on the order of the edges |
| Collision.NoClashOfPrefix | ThreeBodyEngine/PlanetarySystem.cs:314-326 | a list without a clash has no clash in any prefix |
| Collision.ClashPersists | ThreeBodyEngine/PlanetarySystem.cs:314-326 | once a prefix of the edges clashes, every longer prefix clashes too |
| Planetary.New | ThreeBodyEngine/PlanetarySystem.cs:32-38 | a new system has no bodies, the default time step, no history kept, and aligned empty logs |
| Planetary.SetHistoryInterval | ThreeBodyEngine/PlanetarySystem.cs:51-69 | KeepHistory holds exactly when the interval is positive; a different value resets the countdown to 0; the same value changes nothing |
| Planetary.InitializeHistory | ThreeBodyEngine/PlanetarySystem.cs:191-202 | one empty log per body, no timestamps, countdown and time accumulator zero, bodies unchanged |
| Planetary.ClearHistory | ThreeBodyEngine/PlanetarySystem.cs:204-213 | every log emptied, countdown and time accumulator zeroed, the number of logs and the bodies unchanged |
| Planetary.ClearIsInitialize | ThreeBodyEngine/PlanetarySystem.cs:191-213 | with one log per body, clearing the history is the same as initialising it |
| Planetary.AppendSnapshots | ThreeBodyEngine/PlanetarySystem.cs:400-409 | each body's log gains exactly that body's snapshot; the other logs are unchanged |
| Planetary.RecordBodies | ThreeBodyEngine/PlanetarySystem.cs:389-419 | without history nothing changes; otherwise the accumulator grows by the argument, a sample on countdown zero appends the accumulator's value before this call and one snapshot per body then restarts the countdown, and the logs stay aligned; it fails only when there are fewer logs than bodies |
| Planetary.Decimation | ThreeBodyEngine/PlanetarySystem.cs:396-416 | n calls from countdown c take the samples counted by Samples, end at countdown (c-n) mod k, and keep the logs aligned |
| Planetary.RecordManyAccumulates | ThreeBodyEngine/PlanetarySystem.cs:418 | n calls grow the time accumulator by n times the argument |
| Planetary.SamplesFromZero | ThreeBodyEngine/PlanetarySystem.cs:396-416 | from countdown 0, n calls with interval k record ceil(n/k) samples |
| Planetary.RecordsOnMultiples | ThreeBodyEngine/PlanetarySystem.cs:396-416 | from countdown 0 the next call samples exactly after a multiple of k calls |
| Planetary.CountdownStep | ThreeBodyEngine/PlanetarySystem.cs:396-416 | one call moves the countdown one place in its cycle and counts a sample exactly on zero |
| Planetary.StepBody | ThreeBodyEngine/PlanetarySystem.cs:352-365 | a forward step keeps mass, radius and colour; with negligible acceleration it drifts at constant velocity; otherwise the velocity gains acceleration times time |
| Planetary.StepBackBody | ThreeBodyEngine/PlanetarySystem.cs:299-312 | a backward step keeps mass, radius and colour; with negligible acceleration it drifts back at constant velocity; otherwise the velocity loses acceleration times time times 1E-8 |
| Planetary.StepBackIsScaledAcceleration | ThreeBodyEngine/PlanetarySystem.cs:304-311 | with non-zero acceleration a backward step is x - v t - a 1E-8 t^2/2 and v - a t 1E-8: uniform acceleration run backwards with the acceleration scaled by 1E-8 |
| Planetary.HalfStepKinematics | ThreeBodyEngine/PlanetarySystem.cs:358-362 | moving with the mean of the old and new velocity is x + v t + a t^2/2 on each axis |
| Planetary.DriftThereAndBack | ThreeBodyEngine/PlanetarySystem.cs:463-467 | moving by time t and then by -t returns to the start |
| Planetary.StepIsUniformAcceleration | ThreeBodyEngine/PlanetarySystem.cs:357-365 | with non-zero acceleration a forward step is uniform acceleration over the step |
| Planetary.ZeroAccelerationDrifts | ThreeBodyEngine/PlanetarySystem.cs:353-356 | with zero acceleration the position moves by velocity times time and the velocity is unchanged |
| Planetary.ZeroAccelerationDriftsBack | ThreeBodyEngine/PlanetarySystem.cs:300-303 | with zero acceleration a backward step moves by velocity times -time |
| Planetary.ZeroAccelerationReverses | ThreeBodyEngine/PlanetarySystem.cs:287-384 | with zero acceleration a backward step undoes a forward step |
| Planetary.ForwardLoop | ThreeBodyEngine/PlanetarySystem.cs:348-383 | every body is stepped, and the result is true exactly when the full edge list has no clash |
| Planetary.ClearPrefix | ThreeBodyEngine/PlanetarySystem.cs:314-326 | the longest prefix of edges that passes the check; one more edge fails |
| Planetary.StopsAtClash | ThreeBodyEngine/PlanetarySystem.cs:323-326 | returning at the first failing check leaves the bodies stepped up to the clash and the later ones unmoved |
| Planetary.BackLoopReports | ThreeBodyEngine/PlanetarySystem.cs:295-330 | the backward loop reports true exactly when the full list of back edges has no clash |
| Planetary.BackLoopMoves | ThreeBodyEngine/PlanetarySystem.cs:295-330 | the backward loop steps back the bodies up to and including the first clash and leaves the later ones where they were |
| Planetary.SimulateStep | ThreeBodyEngine/PlanetarySystem.cs:338-384 | records with the step's time, advances every body, and returns CheckEdges of the full edge list; it throws only IndexOutOfRange, exactly when recording does |
| Planetary.SimulateStepBack | ThreeBodyEngine/PlanetarySystem.cs:287-331 | records with minus the step's time, steps bodies back up to the first clash, and returns CheckEdges of the back edges; it throws only IndexOutOfRange, exactly when recording does |
| Planetary.StepKeepsHistoryAligned | ThreeBodyEngine/PlanetarySystem.cs:389-419 | with aligned logs both step directions succeed and keep the logs aligned |
| SystemXml.ApplyTimeStep | ThreeBodyEngine/PlanetarySystem.cs:103-113 | the TimeStep attributes are accepted exactly when all are numbers; the last one wins |
| SystemXml.ReadFrom | ThreeBodyEngine/PlanetarySystem.cs:88-168 | the reader keeps the bodies read so far and only appends |
| SystemXml.ReadXmlAsWritten | ThreeBodyEngine/PlanetarySystem.cs:82-171 | the source's reader: on success the history is re-initialised; on failure the bodies read so far stay but the old logs are kept |
| SystemXml.ReadXml | ThreeBodyEngine/PlanetarySystem.cs:82-171 | the reader replaces bodies and time step and always leaves the history re-initialised and aligned |
| SystemXml.BodiesXml | ThreeBodyEngine/PlanetarySystem.cs:180-183 | each body contributes its eight tokens |
| SystemXml.WriteXml | ThreeBodyEngine/PlanetarySystem.cs:173-187 | System with TimeStep, then System.Bodies holding each body (an empty element when there are none), then the end of System |
| SystemXml.BodiesXmlWrittenAt | ThreeBodyEngine/PlanetarySystem.cs:178-185 | the written bodies appear one after another at the expected offsets |
| SystemXml.ReadsOneWrittenBody | ThreeBodyEngine/PlanetarySystem.cs:130-139 | for any number format, a written body inside System.Bodies is read as its numbers parse back and appended, or ends the read with a BadNumber fault; a body that reads back exactly is appended as itself |
| SystemXml.ReadsWrittenBodies | ThreeBodyEngine/PlanetarySystem.cs:130-139 | a run of written bodies whose numbers read back exactly is read in order and appended |
| SystemXml.ReadsUpToUnreadable | ThreeBodyEngine/PlanetarySystem.cs:130-139 | written bodies are read and appended up to the first whose numbers do not parse, which throws |
| SystemXml.TimeStepReadsBack | ThreeBodyEngine/PlanetarySystem.cs:103-113 | for any number format, the TimeStep attribute the writer emits reads back as the number parsed from its text, or throws keeping the old step; a step that reads back exactly is restored |
| SystemXml.OpensBodies | ThreeBodyEngine/PlanetarySystem.cs:95-129 | a System start whose time step reads cleanly, then a non-empty System.Bodies start, puts the reader inside the bodies section with that time step |
| SystemXml.ClosesBodies | ThreeBodyEngine/PlanetarySystem.cs:145-166 | the end of System.Bodies followed by the end of System finishes the read without a fault, keeping the bodies and time step |
| SystemXml.RoundTripWithBodies | ThreeBodyEngine/PlanetarySystem.cs:82-187 | reading a written system with bodies, whose numbers read back exactly, restores its bodies and time step without a fault, by either reader |
| SystemXml.WriteReadRoundTrip | ThreeBodyEngine/PlanetarySystem.cs:82-187 | reading any written system whose numbers read back exactly restores its bodies and time step, whatever the reader held before |
| SystemXml.UnreadableTimeStepRejected | ThreeBodyEngine/PlanetarySystem.cs:103-113 | a written system whose time step text does not parse is rejected at the System element, with no bodies read and the old step kept |
| SystemXml.UnreadableBodyStopsRead | ThreeBodyEngine/PlanetarySystem.cs:130-139 | a written system is read up to the first body with a number that does not parse; that body throws and the bodies before it are kept |
| SystemXml.EmptySystemDoesNotRoundTrip | ThreeBodyEngine/PlanetarySystem.cs:120-164 | for any number format, the source's reader rejects the document written for a system without bodies: at `</System>`, or at the System element when the time step text does not parse |
| SystemXml.Rejects | ThreeBodyEngine/PlanetarySystem.cs:95-165 | a second System, a second System.Bodies, a Body outside System.Bodies, an unknown element, the end of System inside System.Bodies, or an end of System.Bodies outside it makes the reader fail |
| SystemXml.SkipsOtherNodes | ThreeBodyEngine/PlanetarySystem.cs:145-166 | other nodes and other end elements are skipped |
| SystemXml.ReadReplacesBodies | ThreeBodyEngine/PlanetarySystem.cs:87 | the result does not depend on the bodies or history held before |
| SystemXml.FailedReadBreaksRecording | ThreeBodyEngine/PlanetarySystem.cs:82-171 | after a failed read the source's reader leaves a body but no logs, and the next recording fails |
| SystemXml.ReadKeepsRecordingSafe | ThreeBodyEngine/PlanetarySystem.cs:170 | after any read the logs are aligned, so recording never fails |
| Engine.SetStateTo | ThreeBody/ThreeBodyForm.cs:217-225 | the state is always set; resume is signalled exactly when leaving Paused; nothing else changes |
| Engine.DoubleClick | ThreeBody/ThreeBodyForm.cs:260-271 | Paused becomes Running with resume signalled, Running becomes Paused, other states are unchanged |
| Engine.DoubleClickTwice | ThreeBody/ThreeBodyForm.cs:260-271 | two double-clicks from Paused or Running return to the same state |
| Engine.LockForKey | ThreeBody/ThreeBodyForm.cs:312-328 | exactly the keys 0-9 and A-F select a lock, in -1..14 |
| Engine.KeysAndLocksCorrespond | ThreeBody/ThreeBodyForm.cs:312-328 | keys and lock indices are in one-to-one correspondence: 0 is -1, 1-9 are 0-8, A-F are 9-14 |
| Engine.SetLockIndex | ThreeBody/ThreeBodyForm.cs:599-606 | the lock index changes only to an index below the body count; nothing else changes |
| Engine.KeyDown | ThreeBody/ThreeBodyForm.cs:309-341 | a lock key sets the lock index through SetLockIndex; other keys change nothing |
| Engine.KeysKeepLockValid | ThreeBody/ThreeBodyForm.cs:309-341 | key presses keep the lock index either -1 or a valid body index |
| Engine.GotoTime | ThreeBody/ThreeBodyForm.cs:583-587 | stores the target, enters GoingToTime, and signals resume when leaving Paused |
| Engine.InvalidateView | ThreeBody/ThreeBodyForm.cs:567-573 | when Paused, the resume event is signalled; nothing else changes |
| Engine.ResetParameters | ThreeBody/ThreeBodyForm.cs:833-837 | clash count and elapsed time become zero; nothing else changes |
| Engine.HistoryInterval | ThreeBody/ThreeBodyForm.cs:440-442 | the history interval is always at least 1 |
| Engine.HistoryIntervalRounds | ThreeBody/ThreeBodyForm.cs:440-442 | the interval is within one half of 100000/timeStep when that lies between 1/2 and int.MaxValue + 1/2, and 1 below or above that range |
| Engine.UpdateTemporalParameters | ThreeBody/ThreeBodyForm.cs:432-444 | fails only for a zero time step; otherwise the recorder keeps history at interval at least 1, and the world time per frame is the speed ratio times 1E6 over 30 fps |
| Engine.IntervalOfModerateStep | ThreeBody/ThreeBodyForm.cs:440-442 | a sample is taken about every 100000 seconds of world time, to within half a step |
| Engine.IntervalOfLongStep | ThreeBody/ThreeBodyForm.cs:440-442 | a step of 200000 seconds or more samples every step |
| Engine.IntervalOfNegativeStep | ThreeBody/ThreeBodyForm.cs:440-442 | a negative step samples every step |
| Engine.WheelTimeStep | ThreeBody/ThreeBodyForm.cs:386-398 | Alt+wheel halves or doubles the time step, keeps it positive, and keeps it within its bounds |
| Engine.WheelSpeed | ThreeBody/ThreeBodyForm.cs:371-385 | Ctrl+wheel halves, doubles or keeps the speed ratio and never changes the time step |
| Engine.CommandsKeepRecorderAligned | ThreeBody/ThreeBodyForm.cs:217-444 | every user command keeps the history logs aligned |
| Engine.LoadFromXml | ThreeBody/ThreeBodyForm.cs:839-866 | the system is replaced by what the reader read even on a parse error; a successful read applies its time step; clash count and elapsed become zero; after a clean load the history is aligned, and after a failed load by the reader as written the bodies have no history lists and history is off |
| Engine.LoadForgetsPreviousSystem | ThreeBody/ThreeBodyForm.cs:853-855 | the loaded system does not depend on the system held before |
| Engine.Startup | ThreeBody/ThreeBodyForm.cs:183-234 | start-up loads the scenario and leaves the engine Paused with no lock, zero counters and fresh pacing; the history is aligned after a clean load and off otherwise |
| Engine.StepOnce | ThreeBody/ThreeBodyForm.cs:473-482 | one step keeps the bodies' number, counts a clash when the check fails, and shows the message once |
| Engine.RunSteps | ThreeBody/ThreeBodyForm.cs:469-483 | n steps add at most n clashes, keep the time step and interval, and keep the logs aligned |
| Engine.StepThenRun | ThreeBody/ThreeBodyForm.cs:471-483 | one step followed by the rest keeps the same guarantees as RunSteps |
| Engine.RunStepsSplits | ThreeBody/ThreeBodyForm.cs:469-485 | running a+b steps is running a steps and then b, and a failure stops the run |
| Engine.FrameStepsTakeFloor | ThreeBody/ThreeBodyForm.cs:467-484 | a frame runs the floor of the outstanding steps and keeps a remainder in [0,1) |
| Engine.FractionalAccumulation | ThreeBody/ThreeBodyForm.cs:465-489 | over any number of frames the steps run are the floor of the total accumulated, and the remainder stays in [0,1) |
| Engine.AccumulateRepeated | ThreeBody/ThreeBodyForm.cs:465-489 | the frame-by-frame accumulation equals one floor of the summed steps per frame |
| Engine.AccumulateFirstFrame | ThreeBody/ThreeBodyForm.cs:465-485 | the first frame's steps plus the later frames' steps are the total |
| Engine.RunFrames | ThreeBody/ThreeBodyForm.cs:465-489 | each frame is counted, the remainder is the accumulated fraction, and the logs stay aligned |
| Engine.FramesAdvanceElapsed | ThreeBody/ThreeBodyForm.cs:487 | each frame adds one frame's world time in ticks to the elapsed time |
| Engine.RunFramesFirstFrame | ThreeBody/ThreeBodyForm.cs:465-489 | the frame loop is the first frame's steps followed by the remaining frames |
| Engine.FramesBatchSteps | ThreeBody/ThreeBodyForm.cs:465-489 | running frame by frame gives the same system as running all accumulated steps at once |
| Engine.NextFramesDue | ThreeBody/ThreeBodyForm.cs:497-509 | frames due beyond ten ahead are clamped to one ahead; otherwise they are the rounded elapsed frames |
| Engine.SleepIsPositive | ThreeBody/ThreeBodyForm.cs:504-508 | when no frame is due the engine sleeps for at least 7 ms |
| Engine.RunningIteration | ThreeBody/ThreeBodyForm.cs:462-511 | the frames done catch up to the frames due, the next frames due are at most ten ahead, and the state stays Running |
| Engine.GotoStep | ThreeBody/ThreeBodyForm.cs:533-534 | one go-to step changes only the system and adds one step to the elapsed time; it cannot fail with aligned logs or with history off, and keeps either |
| Engine.GotoStepOnMissingLogs | ThreeBodyEngine/PlanetarySystem.cs:389-419 | with history on and a body without a log, a go-to pass throws IndexOutOfRange exactly when a sample is due and otherwise counts down towards one; a missing log stays missing |
| Engine.GotoSteps | ThreeBody/ThreeBodyForm.cs:531-541 | repeated go-to passes never throw when every log is present or history is off, never move elapsed forward for a step of no ticks, and throw IndexOutOfRange within countdown + 1 passes when a log is missing |
| Engine.GotoLoop | ThreeBody/ThreeBodyForm.cs:531-541 | with no Closing and a step that is not positive the loop never exits, unless a body is missing its log, when it throws IndexOutOfRange; without Closing it otherwise ends past the loop bound and no further than one step past it |
| Engine.PartialStep | ThreeBody/ThreeBodyForm.cs:542-547 | the partial step sets elapsed time to the target and changes nothing but the system |
| Engine.ReloadIfPast | ThreeBody/ThreeBodyForm.cs:519-522 | the scenario is reloaded exactly when the elapsed time is past the target |
| Engine.GoingToTimeIteration | ThreeBody/ThreeBodyForm.cs:517-553 | a go-to ends Paused, with the clash message reset, and without Closing within one step of the target; from aligned logs it stops only on a non-finite step, and keeps the logs aligned unless a failed load by the reader as written switched history off |
| Engine.GotoNeverOvershoots | ThreeBody/ThreeBodyForm.cs:519-547 | without Closing, for a target ahead, or behind but not before zero, the elapsed time ends above target minus one step and at or below the target |
| Engine.GotoBeforeZeroStopsAtZero | ThreeBody/ThreeBodyForm.cs:519-547 | a target before zero that lies behind ends the go-to at elapsed zero, past the target |
| Engine.GotoWithoutStepNeverFinishes | ThreeBody/ThreeBodyForm.cs:524-541 | a step that rounds to zero ticks makes the go-to run forever, or throw IndexOutOfRange when history is on and a body has no log |
| Engine.CloseDuringGotoIsOverridden | ThreeBody/ThreeBodyForm.cs:531-551 | Closing during a go-to ends with elapsed time on the target and the state Paused |
| Engine.LoadingIteration | ThreeBody/ThreeBodyForm.cs:512-516 | loading ends Paused with clash count and elapsed time zero, or stops on a zero time step; the logs are aligned after a clean load and history is off otherwise |
| Engine.PausedIteration | ThreeBody/ThreeBodyForm.cs:554-562 | Paused blocks until resume is signalled, then resets the frame counters to due 1, done 0 |
| Engine.Iterate | ThreeBody/ThreeBodyForm.cs:458-564 | one pass of the engine loop: it ends exactly in Closing, waits exactly in Paused without resume, and Loading and GoingToTime end Paused |
| Engine.EngineKeepsRecorderAligned | ThreeBody/ThreeBodyForm.cs:446-565 | from aligned logs a pass stops only on a non-finite time step; it keeps the logs aligned after a clean load, and otherwise leaves them aligned or history off |
| Engine.FailedLoadBreaksRunning | ThreeBody/ThreeBodyForm.cs:839-866 | a failed load by the reader as written, then an Alt+wheel step change, makes the next Running pass fail with IndexOutOfRange |

## Left out

- Force evaluation (`GetAccelerations`, `ThreeBodyEngine/PlanetarySystem.cs:215-285`) is floating-point inverse-square physics. The accelerations are a function parameter.
- `Vector.Length` needs a square root and is not modelled.
- Momentum, energy and approximate reversibility are properties of floating-point accuracy. Over `real` only the zero-acceleration inverse is stated.
- Threads and locks are not modelled. The engine runs one pass at a time, and a command is a function applied between passes. The resume event is a flag on the form. The model clears it at the next Paused pass, where the source's thread clears it as it wakes (`ThreeBody/ThreeBodyForm.cs:556-557`).
- The wall clock and `Thread.Sleep` are replaced by the elapsed ticks passed to each Running pass.
- Rendering, the on-screen display, zoom, pan and mouse dragging are not modelled. Keys other than the lock keys, and key release, are not modelled either.
- `ThreeBody/ThreeBodyForm.Designer.cs` and `ThreeBody/GotoTimeForm.cs` are generated UI and a parsing dialog, and are not part of this model.
- `StreamReader`, `XmlReader`, `XmlWriter` and file existence checks are not modelled. A document is an abstract token sequence, assumed well formed. A number is a `real`. Its text form is a `NumberFormat` parameter, since `double.ToString()` and `double.Parse` depend on the thread's culture. The vector, body and time-step round trips hold for any format: a value comes back as the number the format parses from its text, or the read throws. A value is restored exactly when it reads back exactly (`Xml.ReadsBack`). .NET Framework's default `double.ToString()` keeps 15 significant digits, so that holds for some values and not others.
- The builtin scenarios `InitSolar` and `InitThreeBody` are data fixtures, not logic.
- Message boxes are not modelled. The clash message is a flag, and a load error is swallowed as in the source.
- `Brightness` and `ToString` are display helpers.
- `double` overflow, infinities and NaN are not modelled. With a zero time step, `UpdateTemporalParameters` makes the steps per frame infinite and the world time per frame NaN (`ThreeBody/ThreeBodyForm.cs:437-438`). The source then fails in Running, where `TimeSpan.FromSeconds(NaN)` throws an ArgumentException in the first frame (`ThreeBody/ThreeBodyForm.cs:487`). A go-to with that step steps by zero ticks forever (`ThreeBody/ThreeBodyForm.cs:524-541`). Only loading and the Paused state carry on. The model stops earlier: `Engine.LoadFromXml` reports `NonFinite` for such a scenario.
- `TimeSpan` overflow is not modelled, because ticks are unbounded integers.
- The go-to loop's periodic view updates and the OSD flag have no effect on the model's state.
- A command other than Closing that arrives during a go-to is not modelled. The go-to sets Paused at the end in any case.
- Engine.CloseDuringGotoIsOverridden: does not state the system after the partial step. PartialStep's contract states what changes.
- Engine.RunningIteration: does not restate the elapsed time or the number of steps. RunFrames, FramesAdvanceElapsed and FramesBatchSteps state them for the frame loop it runs.
- Vectors.ReadXml: its own contract only bounds the reader's position. The content read is stated by Vectors.ReadAttrs, Vectors.WriteReadRoundTrip and Vectors.ReadXmlRejects.
- Bodies.ReadXml: its own contract only bounds the reader's position. The stage machine is stated by Bodies.WriteReadRoundTrip, Bodies.UnexpectedStartRejected, Bodies.MismatchedEndRejected and Bodies.BodyReturns.
- HexColor.ParseHex: its own contract only bounds the result to 32 bits. HexColor.HexRoundTrip states what it parses for the text the writer produces.
- Planetary.StepIsUniformAcceleration: equates a step with uniform acceleration over `real`, not over `double`.
- Planetary.StepBody: its own contract states the velocity only. The position after an accelerated step is stated by Planetary.StepIsUniformAcceleration.
- Planetary.StepBackBody: its own contract states the velocity only. The position after an accelerated step is stated by Planetary.StepBackIsScaledAcceleration.
- SystemXml.ReadFrom: its own contract states only that bodies are appended. The outcomes are stated by SystemXml.Rejects, SystemXml.SkipsOtherNodes, SystemXml.ReadsWrittenBodies and SystemXml.RoundTripWithBodies.
- SystemXml.WriteReadRoundTrip: holds for a system whose time step and body numbers all read back exactly. SystemXml.UnreadableTimeStepRejected and SystemXml.UnreadableBodyStopsRead state the reads that throw. A system read back from a format that parses some number to a different value is not stated as a whole; each of its parts is, by SystemXml.TimeStepReadsBack and SystemXml.ReadsOneWrittenBody.
- SystemXml.RoundTripWithBodies: likewise holds only when every written number reads back exactly.
- SystemXml.ReadsWrittenBodies: likewise holds only for bodies whose numbers all read back exactly. SystemXml.ReadsUpToUnreadable covers a run that ends in one that does not parse.
- Engine.HistoryInterval: its own contract states only the lower bound. Engine.HistoryIntervalRounds states its value.
- Engine.GotoNeverOvershoots: does not cover a target before zero that lies behind. That case overshoots, as Engine.GotoBeforeZeroStopsAtZero states.
- Engine.EngineKeepsRecorderAligned: a pass that starts from misaligned logs is not covered. After a failed load by the reader as written, Engine.FailedLoadBreaksRunning shows that a later Running pass can fail.

## Findings

| source | as written | input that shows it | evidently intended | confidence | as-written member | corrected member |
|---|---|---|---|---|---|---|
| ThreeBodyEngine/PlanetarySystem.cs:82-171 | `Bodies` is cleared and refilled before the throw, but `InitializeHistory` runs only at the end, so a failed read leaves bodies without history logs | `<System><System.Bodies><Body/><Oops/></System.Bodies></System>`: one body is read, then the unknown element throws; once the history interval is set, `RecordBodies` indexes a missing log | the history matches the bodies after any read | not executed | SystemXml.FailedReadBreaksRecording | SystemXml.ReadKeepsRecordingSafe |
| ThreeBodyEngine/PlanetarySystem.cs:120-164 | an empty `<System.Bodies/>` element is entered and never left, so the following `</System>` is rejected as an end of System inside System.Bodies | a system with no bodies, written by `WriteXml` and read back | every document the writer produces reads back when its numbers do | not executed | SystemXml.EmptySystemDoesNotRoundTrip | SystemXml.WriteReadRoundTrip |
| ThreeBody/ThreeBodyForm.cs:839-866 | the swallowed load error leaves the bodies read so far without history lists; the mouse-wheel handler then calls `UpdateTemporalParameters`, which switches history on | a scenario file `<System><System.Bodies><Body/><Oops/></System.Bodies></System>`, then Alt+wheel, then the Running state: the first step's `RecordBodies` indexes a missing list and the engine thread throws | a failed load leaves a system the engine can keep running | not executed | Engine.FailedLoadBreaksRunning | Engine.EngineKeepsRecorderAligned |
