/**
 * PlanetarySystem.ReadXml and WriteXml: a System element with a TimeStep
 * attribute, holding one System.Bodies element that holds the Body elements.
 *
 * The reader as written has two defects (see README, Findings): an empty
 * `<System.Bodies/>`, which is what the writer produces for a system without
 * bodies, leaves it inside the bodies section so that `</System>` then throws;
 * and when it throws it skips InitializeHistory, leaving the bodies read so far
 * without history lists. `ReadXmlAsWritten` keeps both; `ReadXml`, used by the
 * rest of the model, closes the section on an empty element and initialises
 * the history however the read ends.
 */
module SystemXml {
  import opened Outcomes
  import opened Xml
  import B = Bodies
  import P = Planetary

  const SystemElement := "System"
  const BodiesElement := "System.Bodies"
  const TimeStepAttr := "TimeStep"

  /** bodyReadStage 0, 1 and 2 of the source. */
  datatype Stage = BeforeBodies | InBodies | AfterBodies

  /** What a read leaves behind: the bodies added and the time step set so far,
      and the exception that ended it, if any. */
  datatype Progress = Progress(bodies: seq<B.Body>, timeStep: real, fault: Option<Fault>)

  /** The attribute loop on the System element: each TimeStep is parsed in
      document order and assigned at once, so a bad one leaves the value of the
      good ones before it. */
  function ApplyTimeStep(nf: NumberFormat, ts: real, attrs: seq<Attr>): (r: (real, Option<Fault>))
    ensures r.1.None? <==> AllNumbers(nf, attrs, TimeStepAttr)
    ensures r.1.Some? ==> r.1.value == BadNumber
    ensures r.1.None? ==> r.0 == LastNumberOr(nf, attrs, TimeStepAttr, ts)
    decreases |attrs|
  {
    if |attrs| == 0 then (ts, None)
    else
      var a := attrs[0];
      var rest := attrs[1..];
      assert Last(attrs, TimeStepAttr) == if Last(rest, TimeStepAttr).Some? then Last(rest, TimeStepAttr)
                                          else if a.name == TimeStepAttr then Some(a.value) else None;
      if a.name == TimeStepAttr then
        match nf.parse(a.value)
        case Some(d) =>
          assert AllNumbers(nf, rest, TimeStepAttr) ==> LastNumberOr(nf, attrs, TimeStepAttr, ts) == LastNumberOr(nf, rest, TimeStepAttr, d) by {
            if AllNumbers(nf, rest, TimeStepAttr) { LastSatisfies(rest, TimeStepAttr, IsNumberIn(nf)); }
          }
          ApplyTimeStep(nf, d, rest)
        case None => (ts, Some(BadNumber))
      else
        ApplyTimeStep(nf, ts, rest)
  }

  /**
   * The read loop from node q, the node the last Read() moved to (|toks| once
   * Read() returned false). `honourEmpty` selects the corrected handling of an
   * empty System.Bodies element.
   */
  function ReadFrom(nf: NumberFormat, toks: seq<Token>, q: nat, bodies: seq<B.Body>, ts: real,
                    elementRead: bool, stage: Stage, honourEmpty: bool): (r: Progress)
    requires q <= |toks|
    ensures |bodies| <= |r.bodies| && r.bodies[..|bodies|] == bodies
    decreases |toks| - q
  {
    if q == |toks| then Progress(bodies, ts, None)
    else
      match toks[q]
      case Start(name, attrs, isEmpty) =>
        if name == SystemElement then
          if elementRead then Progress(bodies, ts, Some(UnexpectedElement))
          else
            var (ts', fault) := ApplyTimeStep(nf, ts, attrs);
            if fault.Some? then Progress(bodies, ts', fault)
            else if isEmpty then Progress(bodies, ts', None)
            else ReadFrom(nf, toks, q + 1, bodies, ts', true, stage, honourEmpty)
        else if name == BodiesElement then
          if stage != BeforeBodies then Progress(bodies, ts, Some(UnexpectedElement))
          else if honourEmpty && isEmpty then ReadFrom(nf, toks, q + 1, bodies, ts, elementRead, AfterBodies, honourEmpty)
          else ReadFrom(nf, toks, q + 1, bodies, ts, elementRead, InBodies, honourEmpty)
        else if name == B.BodyElement then
          if stage != InBodies then Progress(bodies, ts, Some(UnexpectedElement))
          else
            match B.ReadXml(nf, toks, q, B.New(), false, B.Outside)
            case Err(f) => Progress(bodies, ts, Some(f))
            case Ok((b, p)) => ReadFrom(nf, toks, Advance(toks, p), bodies + [b], ts, elementRead, stage, honourEmpty)
        else
          Progress(bodies, ts, Some(UnexpectedElement))
      case End(name) =>
        if name == BodiesElement then
          if stage == InBodies then ReadFrom(nf, toks, q + 1, bodies, ts, elementRead, AfterBodies, honourEmpty)
          else Progress(bodies, ts, Some(UnexpectedEndElement))
        else if name == SystemElement then
          if stage == BeforeBodies || stage == AfterBodies then Progress(bodies, ts, None)
          else Progress(bodies, ts, Some(UnexpectedEndElement))
        else
          ReadFrom(nf, toks, q + 1, bodies, ts, elementRead, stage, honourEmpty)
      case Other =>
        ReadFrom(nf, toks, q + 1, bodies, ts, elementRead, stage, honourEmpty)
  }

  /** The whole read from a fresh reader: Bodies is cleared first, and the first Read() moves to node 0. */
  function Read(nf: NumberFormat, s: P.System, toks: seq<Token>, honourEmpty: bool): Progress
  {
    ReadFrom(nf, toks, 0, [], s.timeStep, false, BeforeBodies, honourEmpty)
  }

  /** PlanetarySystem.ReadXml as written: InitializeHistory only when the read succeeds. */
  function ReadXmlAsWritten(nf: NumberFormat, s: P.System, toks: seq<Token>): (r: (P.System, Option<Fault>))
    ensures var pr := Read(nf, s, toks, false);
      && r.1 == pr.fault && r.0.bodies == pr.bodies && r.0.timeStep == pr.timeStep
      && (r.1.None? ==> P.HistoryAligned(r.0) && r.0.times == [])
      && (r.1.Some? ==> r.0.histories == s.histories && r.0.times == s.times)
  {
    var pr := Read(nf, s, toks, false);
    var s' := s.(bodies := pr.bodies, timeStep := pr.timeStep);
    if pr.fault.None? then (P.InitializeHistory(s'), None) else (s', pr.fault)
  }

  /** PlanetarySystem.ReadXml, corrected: an empty System.Bodies element closes
      the section, and the history is initialised for the bodies read whether
      or not the read succeeds. */
  function ReadXml(nf: NumberFormat, s: P.System, toks: seq<Token>): (r: (P.System, Option<Fault>))
    ensures var pr := Read(nf, s, toks, true);
      && r.1 == pr.fault && r.0.bodies == pr.bodies && r.0.timeStep == pr.timeStep
    ensures P.HistoryAligned(r.0) && r.0.times == [] && r.0.countdown == 0 && r.0.lastTime == 0.0
    ensures r.0.interval == s.interval
  {
    var pr := Read(nf, s, toks, true);
    (P.InitializeHistory(s.(bodies := pr.bodies, timeStep := pr.timeStep)), pr.fault)
  }

  // ---------------------------------------------------------------------------
  // Writing.
  // ---------------------------------------------------------------------------

  /** The Body elements of the bodies, one after the other. */
  function BodiesXml(nf: NumberFormat, bodies: seq<B.Body>): (toks: seq<Token>)
    ensures |toks| == 8 * |bodies|
    decreases |bodies|
  {
    if |bodies| == 0 then [] else B.WriteXml(nf, bodies[0]) + BodiesXml(nf, bodies[1..])
  }

  /**
   * PlanetarySystem.WriteXml: System with TimeStep, then System.Bodies holding
   * the bodies. XmlWriter closes an element without content with "/>", so
   * System.Bodies is an empty element when there are no bodies.
   */
  function WriteXml(nf: NumberFormat, s: P.System): (toks: seq<Token>)
    ensures |toks| == if |s.bodies| == 0 then 3 else 4 + 8 * |s.bodies|
    ensures toks[0] == Start(SystemElement, [Attr(TimeStepAttr, nf.show(s.timeStep))], false)
    ensures toks[|toks| - 1] == End(SystemElement)
    ensures |s.bodies| == 0 ==> toks == [toks[0], Start(BodiesElement, [], true), End(SystemElement)]
    ensures |s.bodies| > 0 ==> toks == [toks[0], Start(BodiesElement, [], false)] + BodiesXml(nf, s.bodies)
                                      + [End(BodiesElement), End(SystemElement)]
  {
    [Start(SystemElement, [Attr(TimeStepAttr, nf.show(s.timeStep))], false)]
    + (if |s.bodies| == 0 then [Start(BodiesElement, [], true)]
       else [Start(BodiesElement, [], false)] + BodiesXml(nf, s.bodies) + [End(BodiesElement)])
    + [End(SystemElement)]
  }

  // ---------------------------------------------------------------------------
  // Properties.
  // ---------------------------------------------------------------------------

  /** The Body elements of the bodies lie one after the other from node q. */
  predicate WrittenAt(nf: NumberFormat, toks: seq<Token>, q: nat, bodies: seq<B.Body>)
    decreases |bodies|
  {
    q + 8 * |bodies| <= |toks|
    && (|bodies| > 0 ==> toks[q .. q + 8] == B.WriteXml(nf, bodies[0]) && WrittenAt(nf, toks, q + 8, bodies[1..]))
  }

  /** The tokens the writer produces for the bodies place them as WrittenAt
      says, whatever comes before and after them. */
  lemma {:induction false} BodiesXmlWrittenAt(nf: NumberFormat, pre: seq<Token>, bodies: seq<B.Body>, post: seq<Token>)
    ensures WrittenAt(nf, pre + BodiesXml(nf, bodies) + post, |pre|, bodies)
    decreases |bodies|
  {
    if |bodies| > 0 {
      var w := B.WriteXml(nf, bodies[0]);
      var toks := pre + BodiesXml(nf, bodies) + post;
      assert toks == (pre + w) + BodiesXml(nf, bodies[1..]) + post;
      assert toks[|pre| .. |pre| + 8] == w;
      BodiesXmlWrittenAt(nf, pre + w, bodies[1..], post);
    }
  }

  /** Every number the writer emits for each of the bodies reads back exactly. */
  predicate BodiesReadBack(nf: NumberFormat, bodies: seq<B.Body>)
  {
    forall b | b in bodies :: B.FieldsReadBack(nf, b)
  }

  /** Inside System.Bodies, one written body is read as the format reads its
      numbers and appended, and the reader moves on to the node after its end
      element; a number that does not parse ends the read with that fault. A
      body whose numbers read back exactly is appended as itself. */
  lemma ReadsOneWrittenBody(nf: NumberFormat, toks: seq<Token>, q: nat, done: seq<B.Body>, ts: real, b: B.Body, honourEmpty: bool)
    requires q + 8 <= |toks| && toks[q .. q + 8] == B.WriteXml(nf, b)
    ensures ReadFrom(nf, toks, q, done, ts, true, InBodies, honourEmpty)
         == match B.RereadBody(nf, b)
            case Some(b') => ReadFrom(nf, toks, q + 8, done + [b'], ts, true, InBodies, honourEmpty)
            case None => Progress(done, ts, Some(BadNumber))
    ensures B.FieldsReadBack(nf, b) ==>
              ReadFrom(nf, toks, q, done, ts, true, InBodies, honourEmpty)
              == ReadFrom(nf, toks, q + 8, done + [b], ts, true, InBodies, honourEmpty)
  {
    var w := B.WriteXml(nf, b);
    B.WriteReadRoundTrip(nf, toks, q, b, B.New());
    assert toks[q] == w[0];
  }

  /** From node q, each of the bodies in turn is read and appended, the reader
      moving on by one Body element's eight nodes each time. */
  predicate ReadsEach(nf: NumberFormat, toks: seq<Token>, q: nat, done: seq<B.Body>, ts: real,
                      bodies: seq<B.Body>, honourEmpty: bool)
    decreases |bodies|
  {
    q <= |toks|
    && (|bodies| > 0 ==>
          q + 8 <= |toks|
          && ReadFrom(nf, toks, q, done, ts, true, InBodies, honourEmpty)
             == ReadFrom(nf, toks, q + 8, done + [bodies[0]], ts, true, InBodies, honourEmpty)
          && ReadsEach(nf, toks, q + 8, done + [bodies[0]], ts, bodies[1..], honourEmpty))
  }

  /** Written bodies are read one at a time. */
  lemma {:induction false} WrittenReadsEach(nf: NumberFormat, toks: seq<Token>, q: nat, done: seq<B.Body>, ts: real,
                                            bodies: seq<B.Body>, honourEmpty: bool)
    requires BodiesReadBack(nf, bodies)
    requires WrittenAt(nf, toks, q, bodies)
    ensures ReadsEach(nf, toks, q, done, ts, bodies, honourEmpty)
    decreases |bodies|
  {
    if |bodies| > 0 {
      ReadsOneWrittenBody(nf, toks, q, done, ts, bodies[0], honourEmpty);
      WrittenReadsEach(nf, toks, q + 8, done + [bodies[0]], ts, bodies[1..], honourEmpty);
    }
  }

  /** Reading the bodies one at a time reads them all, appended to those read before. */
  lemma {:induction false} ReadsEachChains(nf: NumberFormat, toks: seq<Token>, q: nat, done: seq<B.Body>, ts: real,
                                           bodies: seq<B.Body>, all: seq<B.Body>, honourEmpty: bool)
    requires ReadsEach(nf, toks, q, done, ts, bodies, honourEmpty) && all == done + bodies
    ensures q + 8 * |bodies| <= |toks|
    ensures ReadFrom(nf, toks, q, done, ts, true, InBodies, honourEmpty)
         == ReadFrom(nf, toks, q + 8 * |bodies|, all, ts, true, InBodies, honourEmpty)
    decreases |bodies|
  {
    if |bodies| == 0 {
      assert all == done;
    } else {
      var b, rest := bodies[0], bodies[1..];
      assert done + [b] + rest == all by { Xml.ConsAfter(done, bodies); }
      assert q + 8 + 8 * |rest| == q + 8 * |bodies|;
      ReadsEachChains(nf, toks, q + 8, done + [b], ts, rest, all, honourEmpty);
    }
  }

  /** Inside System.Bodies, a run of written bodies is read one by one and
      appended to those read before, giving `all`. */
  lemma ReadsWrittenBodies(nf: NumberFormat, toks: seq<Token>, q: nat, done: seq<B.Body>, ts: real,
                           bodies: seq<B.Body>, all: seq<B.Body>, honourEmpty: bool)
    requires BodiesReadBack(nf, bodies)
    requires WrittenAt(nf, toks, q, bodies) && all == done + bodies
    ensures ReadFrom(nf, toks, q, done, ts, true, InBodies, honourEmpty)
         == ReadFrom(nf, toks, q + 8 * |bodies|, all, ts, true, InBodies, honourEmpty)
  {
    WrittenReadsEach(nf, toks, q, done, ts, bodies, honourEmpty);
    ReadsEachChains(nf, toks, q, done, ts, bodies, all, honourEmpty);
  }

  /** A System start element whose time step reads cleanly, followed by a
      non-empty System.Bodies start element, puts the reader inside the bodies
      section with that time step. */
  lemma OpensBodies(nf: NumberFormat, toks: seq<Token>, ts0: real, ts: real, honourEmpty: bool)
    requires 2 <= |toks| && toks[0].Start? && toks[0].name == SystemElement && !toks[0].isEmpty
    requires ApplyTimeStep(nf, ts0, toks[0].attrs) == (ts, None)
    requires toks[1] == Start(BodiesElement, [], false)
    ensures ReadFrom(nf, toks, 0, [], ts0, false, BeforeBodies, honourEmpty)
         == ReadFrom(nf, toks, 2, [], ts, true, InBodies, honourEmpty)
  {
    assert ReadFrom(nf, toks, 0, [], ts0, false, BeforeBodies, honourEmpty)
        == ReadFrom(nf, toks, 1, [], ts, true, BeforeBodies, honourEmpty);
  }

  /** </System.Bodies> then </System> end the read cleanly. */
  lemma ClosesBodies(nf: NumberFormat, toks: seq<Token>, q: nat, bodies: seq<B.Body>, ts: real, honourEmpty: bool)
    requires q + 1 < |toks| && toks[q] == End(BodiesElement) && toks[q + 1] == End(SystemElement)
    ensures ReadFrom(nf, toks, q, bodies, ts, true, InBodies, honourEmpty) == Progress(bodies, ts, None)
  {
    assert ReadFrom(nf, toks, q + 1, bodies, ts, true, AfterBodies, honourEmpty) == Progress(bodies, ts, None);
  }

  /** The TimeStep attribute the writer emits reads back as the number the
      format makes of its text, or throws, keeping the old step, when the text
      does not parse; a step that reads back exactly is restored. */
  lemma TimeStepReadsBack(nf: NumberFormat, ts0: real, ts: real)
    ensures ApplyTimeStep(nf, ts0, [Attr(TimeStepAttr, nf.show(ts))])
         == match Reread(nf, ts) case Some(t) => (t, None) case None => (ts0, Some(BadNumber))
    ensures ReadsBack(nf, ts) ==> ApplyTimeStep(nf, ts0, [Attr(TimeStepAttr, nf.show(ts))]) == (ts, None)
  {
    var attrs := [Attr(TimeStepAttr, nf.show(ts))];
    assert attrs[1..] == [];
  }

  /** Where the writer puts things for a system with bodies: the Body elements
      from node 2, then the two end elements. */
  lemma WrittenLayout(nf: NumberFormat, s: P.System)
    requires |s.bodies| > 0
    ensures var toks := WriteXml(nf, s);
      var n := |s.bodies|;
      && toks[1] == Start(BodiesElement, [], false)
      && WrittenAt(nf, toks, 2, s.bodies)
      && toks[2 + 8 * n] == End(BodiesElement) && toks[3 + 8 * n] == End(SystemElement)
  {
    var toks := WriteXml(nf, s);
    BodiesXmlWrittenAt(nf, [toks[0], Start(BodiesElement, [], false)], s.bodies, [End(BodiesElement), End(SystemElement)]);
  }

  /** A system with bodies reads back from what it writes, by either reader. */
  lemma RoundTripWithBodies(nf: NumberFormat, s: P.System, before: P.System, honourEmpty: bool)
    requires ReadsBack(nf, s.timeStep) && BodiesReadBack(nf, s.bodies)
    requires |s.bodies| > 0
    ensures Read(nf, before, WriteXml(nf, s), honourEmpty) == Progress(s.bodies, s.timeStep, None)
  {
    var toks := WriteXml(nf, s);
    var n := |s.bodies|;
    var ts := s.timeStep;
    TimeStepReadsBack(nf, before.timeStep, ts);
    WrittenLayout(nf, s);
    OpensBodies(nf, toks, before.timeStep, ts, honourEmpty);
    ReadsWrittenBodies(nf, toks, 2, [], ts, s.bodies, [] + s.bodies, honourEmpty);
    ClosesBodies(nf, toks, 2 + 8 * n, s.bodies, ts, honourEmpty);
  }

  /** Writing a system whose numbers read back exactly and reading it back
      restores its bodies and time step, with the history initialised. */
  lemma WriteReadRoundTrip(nf: NumberFormat, s: P.System, before: P.System)
    requires ReadsBack(nf, s.timeStep) && BodiesReadBack(nf, s.bodies)
    ensures ReadXml(nf, before, WriteXml(nf, s))
         == (P.InitializeHistory(before.(bodies := s.bodies, timeStep := s.timeStep)), None)
  {
    TimeStepReadsBack(nf, before.timeStep, s.timeStep);
    if |s.bodies| > 0 {
      RoundTripWithBodies(nf, s, before, true);
    } else {
      var toks := WriteXml(nf, s);
      var ts := s.timeStep;
      assert ReadFrom(nf, toks, 2, [], ts, true, AfterBodies, true) == Progress([], ts, None);
      assert ReadFrom(nf, toks, 1, [], ts, true, BeforeBodies, true) == Progress([], ts, None);
      assert ReadFrom(nf, toks, 0, [], before.timeStep, false, BeforeBodies, true) == Progress([], ts, None);
    }
  }

  /** A written system whose time step's text does not parse is rejected at
      its System element by either reader, with no bodies read and the old
      time step kept. */
  lemma UnreadableTimeStepRejected(nf: NumberFormat, s: P.System, before: P.System, honourEmpty: bool)
    requires Reread(nf, s.timeStep).None?
    ensures Read(nf, before, WriteXml(nf, s), honourEmpty) == Progress([], before.timeStep, Some(BadNumber))
  {
    TimeStepReadsBack(nf, before.timeStep, s.timeStep);
  }

  /** A written system whose bodies read back exactly up to one with a number
      that does not parse: that Body element throws, and the bodies before it
      are the ones read, by either reader. */
  lemma UnreadableBodyStopsRead(nf: NumberFormat, s: P.System, before: P.System, k: nat, honourEmpty: bool)
    requires ReadsBack(nf, s.timeStep)
    requires k < |s.bodies| && BodiesReadBack(nf, s.bodies[..k]) && B.RereadBody(nf, s.bodies[k]).None?
    ensures Read(nf, before, WriteXml(nf, s), honourEmpty) == Progress(s.bodies[..k], s.timeStep, Some(BadNumber))
  {
    var toks := WriteXml(nf, s);
    var ts := s.timeStep;
    TimeStepReadsBack(nf, before.timeStep, ts);
    WrittenLayout(nf, s);
    OpensBodies(nf, toks, before.timeStep, ts, honourEmpty);
    ReadsUpToUnreadable(nf, toks, 2, [], s.bodies, k, ts, honourEmpty);
    assert [] + s.bodies[..k] == s.bodies[..k];
  }

  /** Inside System.Bodies, written bodies that read back exactly are read one
      by one and appended until one with a number that does not parse throws. */
  lemma {:induction false} ReadsUpToUnreadable(nf: NumberFormat, toks: seq<Token>, q: nat, done: seq<B.Body>,
                                               bodies: seq<B.Body>, k: nat, ts: real, honourEmpty: bool)
    requires WrittenAt(nf, toks, q, bodies)
    requires k < |bodies| && BodiesReadBack(nf, bodies[..k]) && B.RereadBody(nf, bodies[k]).None?
    ensures ReadFrom(nf, toks, q, done, ts, true, InBodies, honourEmpty)
         == Progress(done + bodies[..k], ts, Some(BadNumber))
    decreases k
  {
    ReadsOneWrittenBody(nf, toks, q, done, ts, bodies[0], honourEmpty);
    if k == 0 {
      assert done + bodies[..0] == done;
    } else {
      PrefixStep(nf, done, bodies, k);
      ReadsUpToUnreadable(nf, toks, q + 8, done + [bodies[0]], bodies[1..], k - 1, ts, honourEmpty);
    }
  }

  /** Dropping the first body from a prefix of k bodies that read back. */
  lemma PrefixStep(nf: NumberFormat, done: seq<B.Body>, bodies: seq<B.Body>, k: nat)
    requires 0 < k < |bodies| && BodiesReadBack(nf, bodies[..k])
    ensures B.FieldsReadBack(nf, bodies[0]) && BodiesReadBack(nf, bodies[1..][..k - 1])
    ensures bodies[1..][k - 1] == bodies[k]
    ensures done + [bodies[0]] + bodies[1..][..k - 1] == done + bodies[..k]
  {
    assert bodies[0] in bodies[..k];
    assert bodies[1..][..k - 1] == bodies[..k][1..];
    assert [bodies[0]] + bodies[..k][1..] == bodies[..k];
  }

  /** As written, a system without bodies never reads back from what it
      writes: the empty System.Bodies leaves the reader in the bodies section,
      where </System> throws; and if the time step's text does not parse, the
      System element throws first. */
  lemma EmptySystemDoesNotRoundTrip(nf: NumberFormat, s: P.System, before: P.System)
    requires |s.bodies| == 0
    ensures ReadXmlAsWritten(nf, before, WriteXml(nf, s)).1
         == if Reread(nf, s.timeStep).Some? then Some(UnexpectedEndElement) else Some(BadNumber)
  {
    TimeStepReadsBack(nf, before.timeStep, s.timeStep);
    var toks := WriteXml(nf, s);
    match Reread(nf, s.timeStep)
    case Some(ts) =>
      assert ReadFrom(nf, toks, 2, [], ts, true, InBodies, false) == Progress([], ts, Some(UnexpectedEndElement));
      assert ReadFrom(nf, toks, 1, [], ts, true, BeforeBodies, false) == Progress([], ts, Some(UnexpectedEndElement));
    case None =>
  }

  /** Each of these makes ReadXml throw: a second System element, a second
      System.Bodies, a Body outside System.Bodies, an unknown element,
      </System> inside System.Bodies and </System.Bodies> outside it. */
  lemma Rejects(nf: NumberFormat, toks: seq<Token>, q: nat, bodies: seq<B.Body>, ts: real, elementRead: bool, stage: Stage, honourEmpty: bool)
    requires q < |toks|
    ensures toks[q].Start? && toks[q].name == SystemElement && elementRead
            ==> ReadFrom(nf, toks, q, bodies, ts, elementRead, stage, honourEmpty).fault == Some(UnexpectedElement)
    ensures toks[q].Start? && toks[q].name == BodiesElement && stage != BeforeBodies
            ==> ReadFrom(nf, toks, q, bodies, ts, elementRead, stage, honourEmpty).fault == Some(UnexpectedElement)
    ensures toks[q].Start? && toks[q].name == B.BodyElement && stage != InBodies
            ==> ReadFrom(nf, toks, q, bodies, ts, elementRead, stage, honourEmpty).fault == Some(UnexpectedElement)
    ensures toks[q].Start? && toks[q].name !in {SystemElement, BodiesElement, B.BodyElement}
            ==> ReadFrom(nf, toks, q, bodies, ts, elementRead, stage, honourEmpty).fault == Some(UnexpectedElement)
    ensures toks[q] == End(SystemElement) && stage == InBodies
            ==> ReadFrom(nf, toks, q, bodies, ts, elementRead, stage, honourEmpty).fault == Some(UnexpectedEndElement)
    ensures toks[q] == End(BodiesElement) && stage != InBodies
            ==> ReadFrom(nf, toks, q, bodies, ts, elementRead, stage, honourEmpty).fault == Some(UnexpectedEndElement)
  {
  }

  /** An end element of any other name is skipped, as are non-element nodes. */
  lemma SkipsOtherNodes(nf: NumberFormat, toks: seq<Token>, q: nat, bodies: seq<B.Body>, ts: real, elementRead: bool, stage: Stage, honourEmpty: bool)
    requires q < |toks|
    requires toks[q] == Other || (toks[q].End? && toks[q].name !in {SystemElement, BodiesElement})
    ensures ReadFrom(nf, toks, q, bodies, ts, elementRead, stage, honourEmpty)
         == ReadFrom(nf, toks, q + 1, bodies, ts, elementRead, stage, honourEmpty)
  {
  }

  /** The bodies read do not depend on the bodies the system held before. */
  lemma ReadReplacesBodies(nf: NumberFormat, s1: P.System, s2: P.System, toks: seq<Token>)
    requires s1.timeStep == s2.timeStep
    ensures ReadXml(nf, s1, toks).0.bodies == ReadXml(nf, s2, toks).0.bodies
    ensures ReadXml(nf, s1, toks).0 == ReadXml(nf, s2, toks).0.(interval := s1.interval)
  {
    assert Read(nf, s1, toks, true) == Read(nf, s2, toks, true);
  }

  /** `<System><System.Bodies><Body/><Oops/></System.Bodies></System>`: one
      body, then an unknown element. */
  const BodyThenUnknown: seq<Token> :=
    [ Start(SystemElement, [], false), Start(BodiesElement, [], false), Start(B.BodyElement, [], true),
      Start("Oops", [], true), End(BodiesElement), End(SystemElement) ]

  /**
   * A failed read as written: the first body is read, then an unknown element
   * throws. The system keeps that body but the history lists it had before —
   * none for a new system — so once history is switched on, the next
   * RecordBodies indexes a missing list and throws.
   */
  lemma FailedReadBreaksRecording(nf: NumberFormat, time: real)
    ensures var (s, fault) := ReadXmlAsWritten(nf, P.New(), BodyThenUnknown);
      && fault == Some(UnexpectedElement)
      && s.bodies == [B.New()] && s.histories == []
      && P.RecordBodies(P.SetHistoryInterval(s, 1), time) == Err(IndexOutOfRange)
  {
    var toks := BodyThenUnknown;
    assert B.ReadXml(nf, toks, 2, B.New(), false, B.Outside) == Ok((B.New(), 2)) by {
      assert B.ReadAttrs(nf, B.New(), []) == Ok(B.New());
    }
    var ts := P.New().timeStep;
    var f := Some(UnexpectedElement);
    assert ReadFrom(nf, toks, 3, [B.New()], ts, true, InBodies, false) == Progress([B.New()], ts, f);
    assert ReadFrom(nf, toks, 2, [], ts, true, InBodies, false) == Progress([B.New()], ts, f);
    assert ReadFrom(nf, toks, 1, [], ts, true, BeforeBodies, false) == Progress([B.New()], ts, f);
    assert ApplyTimeStep(nf, ts, []) == (ts, None);
    assert ReadFrom(nf, toks, 0, [], ts, false, BeforeBodies, false) == Progress([B.New()], ts, f);
    assert P.New().histories == [];
  }

  /** Corrected: whatever the read, the history lists match the bodies, so recording never throws. */
  lemma ReadKeepsRecordingSafe(nf: NumberFormat, s: P.System, toks: seq<Token>, interval: int, time: real)
    ensures P.HistoryAligned(ReadXml(nf, s, toks).0)
    ensures P.RecordBodies(P.SetHistoryInterval(ReadXml(nf, s, toks).0, interval), time).Ok?
  {
  }
}
