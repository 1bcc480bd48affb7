/**
 * SphericalCelestialBody.cs: a body's state and its XML reader/writer.
 * Mass is exported in units of 1E30 kg and the radius in units of 1E9 m. The
 * position and velocity are meant to be exported in 1E12 m and km/s, but the
 * source scales them with Vector.Scale, which returns a new vector that is
 * discarded; so they are read and written unscaled, in metres and m/s.
 */
module Bodies {
  import opened Outcomes
  import opened Xml
  import V = Vectors
  import H = HexColor

  const BodyElement := "Body"
  const PositionElement := "Body.Position"
  const VelocityElement := "Body.Velocity"

  /** One exported mass unit, in kg. */
  const MassUnit: real := 1.0e30
  /** One exported radius unit, in m. */
  const RadiusUnit: real := 1.0e9

  type Int32 = n: int | H.IsInt32(n)

  /** The body's Brightness property is never read, written or used by the core. */
  datatype Body = Body(mass: real, radius: real, argb: Int32, position: V.Vector, velocity: V.Vector)

  /** `new SphericalCelestialBody()`: everything zero. */
  function New(): (b: Body)
    ensures b.position == V.Zero && b.velocity == V.Zero
    ensures b.mass == 0.0 && b.radius == 0.0 && b.argb == 0
  {
    Body(0.0, 0.0, 0, V.Zero, V.Zero)
  }

  /** The Color attribute's text is hex int.Parse accepts. */
  predicate IsColor(s: string)
  {
    H.ParseHex(s).Ok?
  }

  /** The last `name` attribute's number times `unit`, or `default` when there
      is none or its text is not a number. */
  function ScaledOr(nf: NumberFormat, attrs: seq<Attr>, name: string, unit: real, default: real): real
  {
    match Last(attrs, name)
    case Some(s) => (match nf.parse(s) case Some(x) => x * unit case None => default)
    case None => default
  }

  /** The last Color attribute's value, or `default` when there is none or its
      text is not hex. */
  function ColorOr(attrs: seq<Attr>, default: Int32): Int32
  {
    match Last(attrs, "Color")
    case Some(s) => (match H.ParseHex(s) case Ok(n) => n case Err(_) => default)
    case None => default
  }

  /** The attribute loop of the Body element: Mass ×1E30, Radius ×1E9, Color
      as hex, in document order; any other attribute is skipped. Which
      attributes it accepts and what it reads are stated by ReadAttrsAccepts
      and ReadAttrsValues. */
  function ReadAttrs(nf: NumberFormat, b: Body, attrs: seq<Attr>): (r: Result<Body>)
    ensures r.Err? ==> r.fault in {BadNumber, BadHex}
    ensures r.Ok? ==> r.value.position == b.position && r.value.velocity == b.velocity
    decreases |attrs|
  {
    if |attrs| == 0 then Ok(b)
    else
      var a := attrs[0];
      var rest := attrs[1..];
      if a.name == "Mass" then
        var m :- ParseDouble(nf, a.value);
        ReadAttrs(nf, b.(mass := m * MassUnit), rest)
      else if a.name == "Radius" then
        var d :- ParseDouble(nf, a.value);
        ReadAttrs(nf, b.(radius := d * RadiusUnit), rest)
      else if a.name == "Color" then
        var c :- H.ParseHex(a.value);
        ReadAttrs(nf, b.(argb := c), rest)
      else
        ReadAttrs(nf, b, rest)
  }

  /** The attribute loop completes exactly when every Mass and Radius
      attribute holds a number and every Color attribute is hex. */
  lemma {:induction false} ReadAttrsAccepts(nf: NumberFormat, b: Body, attrs: seq<Attr>)
    ensures ReadAttrs(nf, b, attrs).Ok? <==>
            AllNumbers(nf, attrs, "Mass") && AllNumbers(nf, attrs, "Radius") && All(attrs, "Color", IsColor)
    decreases |attrs|
  {
    if |attrs| > 0 {
      var a := attrs[0];
      var rest := attrs[1..];
      if a.name == "Mass" {
        if nf.parse(a.value).Some? { ReadAttrsAccepts(nf, b.(mass := nf.parse(a.value).value * MassUnit), rest); }
      } else if a.name == "Radius" {
        if nf.parse(a.value).Some? { ReadAttrsAccepts(nf, b.(radius := nf.parse(a.value).value * RadiusUnit), rest); }
      } else if a.name == "Color" {
        if H.ParseHex(a.value).Ok? { ReadAttrsAccepts(nf, b.(argb := H.ParseHex(a.value).value), rest); }
      } else {
        ReadAttrsAccepts(nf, b, rest);
      }
    }
  }

  /** When the attribute loop completes, the body holds the last Mass and
      Radius scaled to kg and m and the last Color, each defaulting to what
      the body had before. */
  lemma {:induction false} ReadAttrsValues(nf: NumberFormat, b: Body, attrs: seq<Attr>)
    requires ReadAttrs(nf, b, attrs).Ok?
    ensures ReadAttrs(nf, b, attrs).value.mass == ScaledOr(nf, attrs, "Mass", MassUnit, b.mass)
    ensures ReadAttrs(nf, b, attrs).value.radius == ScaledOr(nf, attrs, "Radius", RadiusUnit, b.radius)
    ensures ReadAttrs(nf, b, attrs).value.argb == ColorOr(attrs, b.argb)
    decreases |attrs|
  {
    if |attrs| > 0 {
      var a := attrs[0];
      var rest := attrs[1..];
      var num := IsNumberIn(nf);
      if a.name == "Mass" {
        var b' := b.(mass := nf.parse(a.value).value * MassUnit);
        assert ReadAttrs(nf, b, attrs) == ReadAttrs(nf, b', rest);
        ReadAttrsValues(nf, b', rest);
        ReadAttrsAccepts(nf, b', rest);
        LastSatisfies(rest, "Mass", num);
        assert ScaledOr(nf, attrs, "Mass", MassUnit, b.mass) == ScaledOr(nf, rest, "Mass", MassUnit, b'.mass);
        assert Last(attrs, "Radius") == Last(rest, "Radius") && Last(attrs, "Color") == Last(rest, "Color");
      } else if a.name == "Radius" {
        var b' := b.(radius := nf.parse(a.value).value * RadiusUnit);
        assert ReadAttrs(nf, b, attrs) == ReadAttrs(nf, b', rest);
        ReadAttrsValues(nf, b', rest);
        ReadAttrsAccepts(nf, b', rest);
        LastSatisfies(rest, "Radius", num);
        assert ScaledOr(nf, attrs, "Radius", RadiusUnit, b.radius) == ScaledOr(nf, rest, "Radius", RadiusUnit, b'.radius);
        assert Last(attrs, "Mass") == Last(rest, "Mass") && Last(attrs, "Color") == Last(rest, "Color");
      } else if a.name == "Color" {
        var b' := b.(argb := H.ParseHex(a.value).value);
        assert ReadAttrs(nf, b, attrs) == ReadAttrs(nf, b', rest);
        ReadAttrsValues(nf, b', rest);
        ReadAttrsAccepts(nf, b', rest);
        LastSatisfies(rest, "Color", IsColor);
        assert ColorOr(attrs, b.argb) == ColorOr(rest, b'.argb);
        assert Last(attrs, "Mass") == Last(rest, "Mass") && Last(attrs, "Radius") == Last(rest, "Radius");
      } else {
        assert ReadAttrs(nf, b, attrs) == ReadAttrs(nf, b, rest);
        ReadAttrsValues(nf, b, rest);
        assert Last(attrs, "Mass") == Last(rest, "Mass") && Last(attrs, "Radius") == Last(rest, "Radius");
        assert Last(attrs, "Color") == Last(rest, "Color");
      }
    }
  }

  /** The reading state of SphericalCelestialBody.ReadXml: 0, 1 or 2 in the source. */
  datatype Stage = Outside | InPosition | InVelocity

  /**
   * SphericalCelestialBody.ReadXml. The reader is on node `p`, normally the
   * Body start element, which is processed before the reader advances. Returns
   * the body read and the node the reader is left on: the Body element itself
   * when it is empty, otherwise the matching end element.
   */
  function ReadXml(nf: NumberFormat, toks: seq<Token>, p: nat, b: Body, elementRead: bool, stage: Stage): (r: Result<(Body, nat)>)
    requires p <= |toks|
    ensures r.Ok? ==> p <= r.value.1 <= |toks|
    decreases |toks| - p
  {
    if p == |toks| then Ok((b, p))
    else
      match toks[p]
      case Start(name, attrs, isEmpty) =>
        if stage != Outside then Err(UnexpectedElement)
        else if name == BodyElement then
          if elementRead then Err(UnexpectedElement)
          else
            var b' :- ReadAttrs(nf, b, attrs);
            if isEmpty then Ok((b', p))
            else ReadXml(nf, toks, Advance(toks, p), b', true, Outside)
        else if name == PositionElement then
          // The source then calls Position.Scale(1E12), whose result is discarded.
          var read :- V.ReadXml(nf, toks, p, b.position, false);
          ReadXml(nf, toks, Advance(toks, read.1), b.(position := read.0), elementRead, InPosition)
        else if name == VelocityElement then
          // Likewise Velocity.Scale(1E3) has no effect.
          var read :- V.ReadXml(nf, toks, p, b.velocity, false);
          ReadXml(nf, toks, Advance(toks, read.1), b.(velocity := read.0), elementRead, InVelocity)
        else
          Err(UnexpectedElement)
      case End(name) =>
        if name == BodyElement && stage == Outside then Ok((b, p))
        else if (name == PositionElement && stage == InPosition) || (name == VelocityElement && stage == InVelocity) then
          ReadXml(nf, toks, Advance(toks, p), b, elementRead, Outside)
        else
          Err(UnexpectedEndElement)
      case Other =>
        ReadXml(nf, toks, Advance(toks, p), b, elementRead, stage)
  }

  /** The attributes SphericalCelestialBody.WriteXml puts on the Body element. */
  function WriteAttrs(nf: NumberFormat, b: Body): seq<Attr>
  {
    [ Attr("Mass", nf.show(b.mass * 1.0e-30)),
      Attr("Radius", nf.show(b.radius * 1.0e-9)),
      Attr("Color", H.FormatX8(b.argb)) ]
  }

  /** SphericalCelestialBody.WriteXml: Body with Mass, Radius and Color, then
      Body.Position, then Body.Velocity, each holding one Vector element. */
  function WriteXml(nf: NumberFormat, b: Body): (toks: seq<Token>)
    ensures |toks| == 8
    ensures toks[0] == Start(BodyElement, WriteAttrs(nf, b), false) && toks[7] == End(BodyElement)
    ensures toks[1] == Start(PositionElement, [], false) && toks[3] == End(PositionElement)
    ensures toks[4] == Start(VelocityElement, [], false) && toks[6] == End(VelocityElement)
    ensures toks[2 .. 3] == V.WriteXml(nf, b.position) && toks[5 .. 6] == V.WriteXml(nf, b.velocity)
  {
    [Start(BodyElement, WriteAttrs(nf, b), false), Start(PositionElement, [], false)]
    + V.WriteXml(nf, b.position)
    + [End(PositionElement), Start(VelocityElement, [], false)]
    + V.WriteXml(nf, b.velocity)
    + [End(VelocityElement), End(BodyElement)]
  }

  /** The body read back from the text the writer emits for it: mass and
      radius through their export units, both vectors, and the colour, which
      always round-trips; None when one of its numbers does not parse. */
  function RereadBody(nf: NumberFormat, b: Body): Option<Body>
  {
    var m, r := Reread(nf, b.mass * 1.0e-30), Reread(nf, b.radius * 1.0e-9);
    var pos, vel := V.RereadVector(nf, b.position), V.RereadVector(nf, b.velocity);
    if m.Some? && r.Some? && pos.Some? && vel.Some? then
      Some(Body(m.value * MassUnit, r.value * RadiusUnit, b.argb, pos.value, vel.value))
    else None
  }

  /** Every number the writer emits for `b` reads back exactly. */
  predicate FieldsReadBack(nf: NumberFormat, b: Body)
  {
    && ReadsBack(nf, b.mass * 1.0e-30) && ReadsBack(nf, b.radius * 1.0e-9)
    && V.ComponentsReadBack(nf, b.position) && V.ComponentsReadBack(nf, b.velocity)
  }

  /** The written attributes read back as the mass and radius the format makes
      of their texts, scaled back to kg and m, and as the body's colour; a mass
      or radius whose text does not parse throws. With numbers that read back
      exactly, the export scaling and the read scaling cancel. */
  lemma ReadAttrsOfWritten(nf: NumberFormat, b: Body, before: Body)
    ensures var m, r := Reread(nf, b.mass * 1.0e-30), Reread(nf, b.radius * 1.0e-9);
      ReadAttrs(nf, before, WriteAttrs(nf, b))
      == if m.Some? && r.Some? then Ok(before.(mass := m.value * MassUnit, radius := r.value * RadiusUnit, argb := b.argb))
         else Err(BadNumber)
    ensures ReadsBack(nf, b.mass * 1.0e-30) && ReadsBack(nf, b.radius * 1.0e-9)
            ==> ReadAttrs(nf, before, WriteAttrs(nf, b)) == Ok(before.(mass := b.mass, radius := b.radius, argb := b.argb))
  {
    var m, r := Reread(nf, b.mass * 1.0e-30), Reread(nf, b.radius * 1.0e-9);
    if m.Some? && r.Some? {
      WrittenAttrsParse(nf, b, before);
      assert b.mass * 1.0e-30 * MassUnit == b.mass;
      assert b.radius * 1.0e-9 * RadiusUnit == b.radius;
    } else {
      WrittenAttrsReject(nf, b, before);
    }
  }

  /** The parsing case of ReadAttrsOfWritten. */
  lemma WrittenAttrsParse(nf: NumberFormat, b: Body, before: Body)
    requires Reread(nf, b.mass * 1.0e-30).Some? && Reread(nf, b.radius * 1.0e-9).Some?
    ensures ReadAttrs(nf, before, WriteAttrs(nf, b))
         == Ok(before.(mass := Reread(nf, b.mass * 1.0e-30).value * MassUnit,
                       radius := Reread(nf, b.radius * 1.0e-9).value * RadiusUnit, argb := b.argb))
  {
    var attrs := WriteAttrs(nf, b);
    var m, r := Reread(nf, b.mass * 1.0e-30).value, Reread(nf, b.radius * 1.0e-9).value;
    H.HexRoundTrip(b.argb);
    var after := before.(mass := m * MassUnit, radius := r * RadiusUnit, argb := b.argb);
    assert attrs[1..][1..][1..] == [];
    assert ReadAttrs(nf, after, attrs[1..][1..][1..]) == Ok(after);
    assert ReadAttrs(nf, after.(argb := before.argb), attrs[1..][1..]) == Ok(after);
    assert ReadAttrs(nf, before.(mass := after.mass), attrs[1..]) == Ok(after);
  }

  /** The throwing case of ReadAttrsOfWritten. */
  lemma WrittenAttrsReject(nf: NumberFormat, b: Body, before: Body)
    requires Reread(nf, b.mass * 1.0e-30).None? || Reread(nf, b.radius * 1.0e-9).None?
    ensures ReadAttrs(nf, before, WriteAttrs(nf, b)) == Err(BadNumber)
  {
    var attrs := WriteAttrs(nf, b);
    var m := Reread(nf, b.mass * 1.0e-30);
    if m.Some? {
      assert ReadAttrs(nf, before.(mass := m.value * MassUnit), attrs[1..]) == Err(BadNumber);
    }
  }

  /** A body whose numbers read back exactly is read back as itself. */
  lemma RereadExact(nf: NumberFormat, b: Body)
    requires FieldsReadBack(nf, b)
    ensures RereadBody(nf, b) == Some(b)
  {
    assert b.mass * 1.0e-30 * MassUnit == b.mass;
    assert b.radius * 1.0e-9 * RadiusUnit == b.radius;
  }

  /** A complete Body.Position element, with its Vector read, moves the reader
      past its end element with the position replaced. */
  lemma ReadsPositionElement(nf: NumberFormat, toks: seq<Token>, q: nat, b: Body, v: V.Vector)
    requires q + 2 < |toks|
    requires toks[q] == Start(PositionElement, [], false) && toks[q + 2] == End(PositionElement)
    requires V.ReadXml(nf, toks, q, b.position, false) == Ok((v, q + 1))
    ensures ReadXml(nf, toks, q, b, true, Outside) == ReadXml(nf, toks, q + 3, b.(position := v), true, Outside)
  {
    assert ReadXml(nf, toks, q + 2, b.(position := v), true, InPosition)
        == ReadXml(nf, toks, q + 3, b.(position := v), true, Outside);
  }

  /** Likewise for a complete Body.Velocity element. */
  lemma ReadsVelocityElement(nf: NumberFormat, toks: seq<Token>, q: nat, b: Body, v: V.Vector)
    requires q + 2 < |toks|
    requires toks[q] == Start(VelocityElement, [], false) && toks[q + 2] == End(VelocityElement)
    requires V.ReadXml(nf, toks, q, b.velocity, false) == Ok((v, q + 1))
    ensures ReadXml(nf, toks, q, b, true, Outside) == ReadXml(nf, toks, q + 3, b.(velocity := v), true, Outside)
  {
    assert ReadXml(nf, toks, q + 2, b.(velocity := v), true, InVelocity)
        == ReadXml(nf, toks, q + 3, b.(velocity := v), true, Outside);
  }

  /** A written Body.Position element is read as the vector the format makes
      of its texts, or throws when one does not parse. */
  lemma ReadsWrittenPosition(nf: NumberFormat, toks: seq<Token>, q: nat, b: Body, v: V.Vector)
    requires q + 2 < |toks|
    requires toks[q] == Start(PositionElement, [], false) && toks[q + 2] == End(PositionElement)
    requires toks[q + 1 .. q + 2] == V.WriteXml(nf, v)
    ensures ReadXml(nf, toks, q, b, true, Outside)
         == match V.RereadVector(nf, v)
            case Some(w) => ReadXml(nf, toks, q + 3, b.(position := w), true, Outside)
            case None => Err(BadNumber)
  {
    V.WriteReadRoundTrip(nf, toks, q, v, b.position);
    if V.RereadVector(nf, v).Some? {
      ReadsPositionElement(nf, toks, q, b, V.RereadVector(nf, v).value);
    }
  }

  /** Likewise for a written Body.Velocity element. */
  lemma ReadsWrittenVelocity(nf: NumberFormat, toks: seq<Token>, q: nat, b: Body, v: V.Vector)
    requires q + 2 < |toks|
    requires toks[q] == Start(VelocityElement, [], false) && toks[q + 2] == End(VelocityElement)
    requires toks[q + 1 .. q + 2] == V.WriteXml(nf, v)
    ensures ReadXml(nf, toks, q, b, true, Outside)
         == match V.RereadVector(nf, v)
            case Some(w) => ReadXml(nf, toks, q + 3, b.(velocity := w), true, Outside)
            case None => Err(BadNumber)
  {
    V.WriteReadRoundTrip(nf, toks, q, v, b.velocity);
    if V.RereadVector(nf, v).Some? {
      ReadsVelocityElement(nf, toks, q, b, V.RereadVector(nf, v).value);
    }
  }

  /** After the Body start element, a written position and velocity are read
      as the vectors the format makes of their texts, and the reader stops on
      </Body>; a number that does not parse throws. */
  lemma ReadsWrittenVectors(nf: NumberFormat, toks: seq<Token>, q: nat, b: Body, pos: V.Vector, vel: V.Vector)
    requires q + 7 <= |toks|
    requires toks[q] == Start(PositionElement, [], false) && toks[q + 2] == End(PositionElement)
    requires toks[q + 3] == Start(VelocityElement, [], false) && toks[q + 5] == End(VelocityElement)
    requires toks[q + 6] == End(BodyElement)
    requires toks[q + 1 .. q + 2] == V.WriteXml(nf, pos) && toks[q + 4 .. q + 5] == V.WriteXml(nf, vel)
    ensures ReadXml(nf, toks, q, b, true, Outside)
         == if V.RereadVector(nf, pos).Some? && V.RereadVector(nf, vel).Some?
            then Ok((b.(position := V.RereadVector(nf, pos).value, velocity := V.RereadVector(nf, vel).value), q + 6))
            else Err(BadNumber)
  {
    ReadsWrittenPosition(nf, toks, q, b, pos);
    if V.RereadVector(nf, pos).Some? {
      var b2 := b.(position := V.RereadVector(nf, pos).value);
      ReadsWrittenVelocity(nf, toks, q + 3, b2, vel);
      if V.RereadVector(nf, vel).Some? {
        var b3 := b2.(velocity := V.RereadVector(nf, vel).value);
        assert ReadXml(nf, toks, q + 6, b3, true, Outside) == Ok((b3, q + 6));
      }
    }
  }

  /** Writing a body and reading it back from its Body element yields the body
      as the format reads its numbers, whatever the reader started from, and
      leaves the reader on </Body>; a number that does not parse throws. A body
      whose numbers read back exactly is restored. */
  lemma WriteReadRoundTrip(nf: NumberFormat, toks: seq<Token>, p: nat, b: Body, before: Body)
    requires p + 8 <= |toks|
    requires toks[p .. p + 8] == WriteXml(nf, b)
    ensures ReadXml(nf, toks, p, before, false, Outside)
         == match RereadBody(nf, b) case Some(b') => Ok((b', p + 7)) case None => Err(BadNumber)
    ensures FieldsReadBack(nf, b) ==> ReadXml(nf, toks, p, before, false, Outside) == Ok((b, p + 7))
  {
    var w := WriteXml(nf, b);
    assert toks[p] == w[0] && toks[p + 1] == w[1] && toks[p + 3] == w[3];
    assert toks[p + 4] == w[4] && toks[p + 6] == w[6] && toks[p + 7] == w[7];
    assert toks[p + 2 .. p + 3] == [w[2]] == w[2 .. 3];
    assert toks[p + 5 .. p + 6] == [w[5]] == w[5 .. 6];
    ReadsWrittenBody(nf, toks, p, b, before);
    if FieldsReadBack(nf, b) { RereadExact(nf, b); }
  }

  /** The body read from a written Body element, its tokens laid out as WriteXml
      puts them: the first half of WriteReadRoundTrip. */
  lemma ReadsWrittenBody(nf: NumberFormat, toks: seq<Token>, p: nat, b: Body, before: Body)
    requires p + 8 <= |toks|
    requires toks[p] == Start(BodyElement, WriteAttrs(nf, b), false)
    requires toks[p + 1] == Start(PositionElement, [], false) && toks[p + 3] == End(PositionElement)
    requires toks[p + 4] == Start(VelocityElement, [], false) && toks[p + 6] == End(VelocityElement)
    requires toks[p + 7] == End(BodyElement)
    requires toks[p + 2 .. p + 3] == V.WriteXml(nf, b.position) && toks[p + 5 .. p + 6] == V.WriteXml(nf, b.velocity)
    ensures ReadXml(nf, toks, p, before, false, Outside)
         == match RereadBody(nf, b) case Some(b') => Ok((b', p + 7)) case None => Err(BadNumber)
  {
    var m, r := Reread(nf, b.mass * 1.0e-30), Reread(nf, b.radius * 1.0e-9);
    if m.Some? && r.Some? {
      WrittenAttrsParse(nf, b, before);
      var b1 := before.(mass := m.value * MassUnit, radius := r.value * RadiusUnit, argb := b.argb);
      assert ReadXml(nf, toks, p, before, false, Outside) == ReadXml(nf, toks, p + 1, b1, true, Outside);
      ReadsWrittenVectors(nf, toks, p + 1, b1, b.position, b.velocity);
      RereadAfterAttrs(nf, b, b1);
    } else {
      WrittenAttrsReject(nf, b, before);
      assert ReadXml(nf, toks, p, before, false, Outside) == Err(BadNumber);
    }
  }

  /** Once the mass, radius and colour are read back into `b1`, the body read
      back is `b1` with the vectors read back. */
  lemma RereadAfterAttrs(nf: NumberFormat, b: Body, b1: Body)
    requires Reread(nf, b.mass * 1.0e-30).Some? && Reread(nf, b.radius * 1.0e-9).Some?
    requires b1.mass == Reread(nf, b.mass * 1.0e-30).value * MassUnit
    requires b1.radius == Reread(nf, b.radius * 1.0e-9).value * RadiusUnit && b1.argb == b.argb
    ensures var pos, vel := V.RereadVector(nf, b.position), V.RereadVector(nf, b.velocity);
      RereadBody(nf, b) == if pos.Some? && vel.Some? then Some(b1.(position := pos.value, velocity := vel.value)) else None
  {
  }

  /** Any start element while a Body.Position or Body.Velocity is open, a second
      Body start element, or an element of another name makes the reader throw. */
  lemma UnexpectedStartRejected(nf: NumberFormat, toks: seq<Token>, p: nat, b: Body, elementRead: bool, stage: Stage)
    requires p < |toks| && toks[p].Start?
    requires stage != Outside
          || (toks[p].name == BodyElement && elementRead)
          || toks[p].name !in {BodyElement, PositionElement, VelocityElement}
    ensures ReadXml(nf, toks, p, b, elementRead, stage) == Err(UnexpectedElement)
  {
  }

  /** An end element that does not close what is open throws: </Body> inside a
      position or velocity, a mismatched or unknown end element. */
  lemma MismatchedEndRejected(nf: NumberFormat, toks: seq<Token>, p: nat, b: Body, elementRead: bool, stage: Stage)
    requires p < |toks| && toks[p].End?
    requires !(toks[p].name == BodyElement && stage == Outside)
    requires !(toks[p].name == PositionElement && stage == InPosition)
    requires !(toks[p].name == VelocityElement && stage == InVelocity)
    ensures ReadXml(nf, toks, p, b, elementRead, stage) == Err(UnexpectedEndElement)
  {
  }

  /** An empty Body element returns right after its attributes, on that element,
      and </Body> outside a position or velocity returns on the end element. */
  lemma BodyReturns(nf: NumberFormat, toks: seq<Token>, p: nat, b: Body)
    requires p < |toks|
    ensures toks[p].Start? && toks[p].name == BodyElement && toks[p].isEmpty && ReadAttrs(nf, b, toks[p].attrs).Ok?
            ==> ReadXml(nf, toks, p, b, false, Outside) == Ok((ReadAttrs(nf, b, toks[p].attrs).value, p))
    ensures toks[p] == End(BodyElement) ==> ReadXml(nf, toks, p, b, true, Outside) == Ok((b, p))
  {
  }
}
