/**
 * Vector.cs: a three-component vector over exact reals. The value-returning
 * operations Add, Sub, Scale and Clone allocate a fresh Vector and never write
 * to their operands, so they are modelled here as pure functions; the mutating
 * operations and object identity live in module VectorObjects.
 */
module Vectors {
  import opened Outcomes
  import opened Xml

  datatype Vector = Vector(x: real, y: real, z: real)

  /** What `new Vector()` holds. */
  const Zero := Vector(0.0, 0.0, 0.0)

  /** double.Epsilon, the smallest positive double. */
  const Epsilon: real := 4.94065645841247e-324

  const VectorElement := "Vector"

  function Add(a: Vector, b: Vector): Vector
  {
    Vector(a.x + b.x, a.y + b.y, a.z + b.z)
  }

  function Sub(a: Vector, b: Vector): Vector
  {
    Vector(a.x - b.x, a.y - b.y, a.z - b.z)
  }

  function Scale(a: Vector, s: real): Vector
  {
    Vector(a.x * s, a.y * s, a.z * s)
  }

  /** Named CrossProduct in the source, but it computes the dot product. */
  function CrossProduct(a: Vector, b: Vector): real
  {
    a.x * b.x + a.y * b.y + a.z * b.z
  }

  function SquareLength(v: Vector): (r: real)
    ensures r >= 0.0
    ensures v == Zero ==> r == 0.0
  {
    SquareIsNonNegative(v.x);
    SquareIsNonNegative(v.y);
    SquareIsNonNegative(v.z);
    v.x * v.x + v.y * v.y + v.z * v.z
  }

  predicate IsZero(v: Vector)
  {
    SquareLength(v) < Epsilon
  }

  lemma ProductOfPositives(a: real, b: real)
    requires a > 0.0 && b > 0.0
    ensures a * b > 0.0
  {
  }

  lemma SquareIsNonNegative(a: real)
    ensures a * a >= 0.0
  {
    if a < 0.0 {
      ProductOfPositives(-a, -a);
      assert a * a == (-a) * (-a);
    } else if a > 0.0 {
      ProductOfPositives(a, a);
    }
  }

  /** Subtraction undoes addition, so Add and Sub are inverse operations. */
  lemma SubUndoesAdd(a: Vector, b: Vector)
    ensures Sub(Add(a, b), b) == a
    ensures Add(Sub(a, b), b) == a
  {
  }

  /** A vector minus itself has square length 0 and so is zero. */
  lemma SubSelfIsZero(a: Vector)
    ensures SquareLength(Sub(a, a)) == 0.0
    ensures IsZero(Sub(a, a))
  {
    assert Sub(a, a) == Zero;
  }

  /** The zero vector is zero; a vector that IsZero has every component's square
      below double.Epsilon; and a vector is zero exactly when its opposite is. */
  lemma IsZeroBoundsComponents(v: Vector)
    ensures IsZero(Zero)
    ensures IsZero(v) ==> v.x * v.x < Epsilon && v.y * v.y < Epsilon && v.z * v.z < Epsilon
    ensures IsZero(Scale(v, -1.0)) <==> IsZero(v)
  {
    SquareIsNonNegative(v.x);
    SquareIsNonNegative(v.y);
    SquareIsNonNegative(v.z);
    assert SquareLength(v) == v.x * v.x + v.y * v.y + v.z * v.z;
    var w := Scale(v, -1.0);
    assert w.x * w.x == v.x * v.x && w.y * w.y == v.y * v.y && w.z * w.z == v.z * v.z;
  }

  /** CrossProduct is the (symmetric) dot product, and a vector's product with
      itself is its square length. */
  lemma CrossProductIsDotProduct(a: Vector, b: Vector)
    ensures CrossProduct(a, b) == CrossProduct(b, a)
    ensures CrossProduct(a, a) == SquareLength(a)
  {
  }

  /** Scaling by 1 is the identity and scaling twice multiplies the factors;
      a scale by s undoes a scale by 1/s. */
  lemma ScaleComposes(a: Vector, s: real, t: real)
    ensures Scale(a, 1.0) == a
    ensures Scale(Scale(a, s), t) == Scale(a, s * t)
    ensures s != 0.0 ==> Scale(Scale(a, 1.0 / s), s) == a
  {
    assert a.x * s * t == a.x * (s * t);
    assert a.y * s * t == a.y * (s * t);
    assert a.z * s * t == a.z * (s * t);
    if s != 0.0 {
      assert (1.0 / s) * s == 1.0;
      assert a.x * (1.0 / s) * s == a.x * ((1.0 / s) * s);
      assert a.y * (1.0 / s) * s == a.y * ((1.0 / s) * s);
      assert a.z * (1.0 / s) * s == a.z * ((1.0 / s) * s);
    }
  }

  // ---------------------------------------------------------------------------
  // XML form: <Vector X=".." Y=".." Z=".."/>
  // ---------------------------------------------------------------------------

  /** The attribute loop of Vector.ReadXml: X, Y and Z are parsed in document
      order, every other attribute is skipped. */
  function ReadAttrs(nf: NumberFormat, v: Vector, attrs: seq<Attr>): (r: Result<Vector>)
    ensures r.Ok? <==> AllNumbers(nf, attrs, "X") && AllNumbers(nf, attrs, "Y") && AllNumbers(nf, attrs, "Z")
    ensures r.Ok? ==> r.value == Vector(LastNumberOr(nf, attrs, "X", v.x),
                                        LastNumberOr(nf, attrs, "Y", v.y),
                                        LastNumberOr(nf, attrs, "Z", v.z))
    decreases |attrs|
  {
    if |attrs| == 0 then Ok(v)
    else
      var a := attrs[0];
      var rest := attrs[1..];
      var num := IsNumberIn(nf);
      assert Last(attrs, "X") == if Last(rest, "X").Some? then Last(rest, "X")
                                 else if a.name == "X" then Some(a.value) else None;
      assert Last(attrs, "Y") == if Last(rest, "Y").Some? then Last(rest, "Y")
                                 else if a.name == "Y" then Some(a.value) else None;
      assert Last(attrs, "Z") == if Last(rest, "Z").Some? then Last(rest, "Z")
                                 else if a.name == "Z" then Some(a.value) else None;
      if a.name == "X" then
        var d :- ParseDouble(nf, a.value);
        assert AllNumbers(nf, rest, "X") ==> LastNumberOr(nf, attrs, "X", v.x) == LastNumberOr(nf, rest, "X", d) by {
          if AllNumbers(nf, rest, "X") { LastSatisfies(rest, "X", num); }
        }
        ReadAttrs(nf, v.(x := d), rest)
      else if a.name == "Y" then
        var d :- ParseDouble(nf, a.value);
        assert AllNumbers(nf, rest, "Y") ==> LastNumberOr(nf, attrs, "Y", v.y) == LastNumberOr(nf, rest, "Y", d) by {
          if AllNumbers(nf, rest, "Y") { LastSatisfies(rest, "Y", num); }
        }
        ReadAttrs(nf, v.(y := d), rest)
      else if a.name == "Z" then
        var d :- ParseDouble(nf, a.value);
        assert AllNumbers(nf, rest, "Z") ==> LastNumberOr(nf, attrs, "Z", v.z) == LastNumberOr(nf, rest, "Z", d) by {
          if AllNumbers(nf, rest, "Z") { LastSatisfies(rest, "Z", num); }
        }
        ReadAttrs(nf, v.(z := d), rest)
      else
        ReadAttrs(nf, v, rest)
  }

  /**
   * Vector.ReadXml. The reader is on node `p` (the enclosing element) and the
   * method first advances. `v` holds the components before the call and
   * `elementRead` whether a Vector start element was already seen. Returns the
   * components and the node the reader is left on.
   */
  function ReadXml(nf: NumberFormat, toks: seq<Token>, p: nat, v: Vector, elementRead: bool): (r: Result<(Vector, nat)>)
    requires p <= |toks|
    ensures r.Ok? ==> r.value.1 <= |toks|
    ensures r.Ok? && p < |toks| ==> p < r.value.1
    decreases |toks| - p
  {
    var q := Advance(toks, p);
    if q == |toks| then Ok((v, q))
    else
      match toks[q]
      case Start(name, attrs, isEmpty) =>
        if name == VectorElement && !elementRead then
          var v' :- ReadAttrs(nf, v, attrs);
          if isEmpty then Ok((v', q)) else ReadXml(nf, toks, q, v', true)
        else
          Err(UnexpectedElement)
      case End(name) =>
        if name == VectorElement then Ok((v, q)) else Err(UnexpectedEndElement)
      case Other =>
        ReadXml(nf, toks, q, v, elementRead)
  }

  /** Vector.WriteXml: one empty Vector element carrying X, Y and Z. */
  function WriteXml(nf: NumberFormat, v: Vector): (toks: seq<Token>)
    ensures |toks| == 1 && toks[0].Start? && toks[0].name == VectorElement && toks[0].isEmpty
  {
    [Start(VectorElement, [Attr("X", nf.show(v.x)), Attr("Y", nf.show(v.y)), Attr("Z", nf.show(v.z))], true)]
  }

  /** The vector read back from the X, Y and Z texts the writer emits, or None
      when one of them does not parse. */
  function RereadVector(nf: NumberFormat, v: Vector): Option<Vector>
  {
    var x, y, z := Reread(nf, v.x), Reread(nf, v.y), Reread(nf, v.z);
    if x.Some? && y.Some? && z.Some? then Some(Vector(x.value, y.value, z.value)) else None
  }

  /** Every component of `v` reads back exactly from the text written for it. */
  predicate ComponentsReadBack(nf: NumberFormat, v: Vector)
  {
    ReadsBack(nf, v.x) && ReadsBack(nf, v.y) && ReadsBack(nf, v.z)
  }

  /** Writing a vector and reading it back, from the node before it, gives the
      components as the format reads their texts, whatever the reader held
      before, and leaves the reader on the written element; a component whose
      text does not parse throws. When every component reads back exactly, the
      vector itself is restored. */
  lemma WriteReadRoundTrip(nf: NumberFormat, toks: seq<Token>, p: nat, v: Vector, before: Vector)
    requires p + 1 < |toks|
    requires toks[p + 1 .. p + 2] == WriteXml(nf, v)
    ensures ReadXml(nf, toks, p, before, false)
         == match RereadVector(nf, v) case Some(w) => Ok((w, p + 1)) case None => Err(BadNumber)
    ensures ComponentsReadBack(nf, v) ==> ReadXml(nf, toks, p, before, false) == Ok((v, p + 1))
  {
    assert toks[p + 1] == WriteXml(nf, v)[0];
    ReadAttrsOfWritten(nf, v, before);
  }

  /** The attributes WriteXml emits read back as the components the format
      makes of their texts, or throw when one does not parse; with components
      that read back exactly they restore the vector. */
  lemma ReadAttrsOfWritten(nf: NumberFormat, v: Vector, before: Vector)
    ensures ReadAttrs(nf, before, WriteXml(nf, v)[0].attrs)
         == match RereadVector(nf, v) case Some(w) => Ok(w) case None => Err(BadNumber)
    ensures ComponentsReadBack(nf, v) ==> ReadAttrs(nf, before, WriteXml(nf, v)[0].attrs) == Ok(v)
  {
    var attrs := WriteXml(nf, v)[0].attrs;
    var x, y, z := Reread(nf, v.x), Reread(nf, v.y), Reread(nf, v.z);
    assert attrs[1..][1..][1..] == [];
    if x.Some? && y.Some? && z.Some? {
      var w := Vector(x.value, y.value, z.value);
      assert ReadAttrs(nf, w, attrs[1..][1..][1..]) == Ok(w);
      assert ReadAttrs(nf, w.(z := before.z), attrs[1..][1..]) == Ok(w);
      assert ReadAttrs(nf, before.(x := w.x), attrs[1..]) == Ok(w);
    } else if x.Some? && y.Some? {
      assert ReadAttrs(nf, before.(x := x.value, y := y.value), attrs[1..][1..]) == Err(BadNumber);
      assert ReadAttrs(nf, before.(x := x.value), attrs[1..]) == Err(BadNumber);
    } else if x.Some? {
      assert ReadAttrs(nf, before.(x := x.value), attrs[1..]) == Err(BadNumber);
    }
  }

  /** A Vector start element after the first, or an element of another name,
      makes the reader throw; an end element other than Vector does too. */
  lemma ReadXmlRejects(nf: NumberFormat, toks: seq<Token>, p: nat, v: Vector, elementRead: bool)
    requires p + 1 < |toks|
    requires (toks[p + 1].Start? && (toks[p + 1].name != VectorElement || elementRead))
          || (toks[p + 1].End? && toks[p + 1].name != VectorElement)
    ensures ReadXml(nf, toks, p, v, elementRead).Err?
  {
  }
}
