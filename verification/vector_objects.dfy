/**
 * Vector objects with identity (Vector.cs). A Heap holds every Vector object
 * allocated so far; a Ref names one. `new Vector` appends a cell, the in-place
 * methods AddToSelf, SubtractFromSelf and CopyFrom write the receiver's three
 * fields one after another, exactly as the C# statements do, so that aliasing
 * between receiver and argument is accounted for.
 */
module VectorObjects {
  import V = Vectors

  type Ref = nat

  datatype Heap = Heap(cells: seq<V.Vector>) {
    predicate Valid(r: Ref) {
      r < |cells|
    }
  }

  /** `h'` is `h` with one more object `r`, holding `v`; no existing object changed. */
  predicate Allocated(h: Heap, h': Heap, r: Ref, v: V.Vector)
  {
    && |h'.cells| == |h.cells| + 1
    && r == |h.cells|
    && h'.cells[r] == v
    && h'.cells[..|h.cells|] == h.cells
  }

  /** `h'` differs from `h` at most in object `r`, which now holds `v`. */
  predicate WrittenAt(h: Heap, h': Heap, r: Ref, v: V.Vector)
  {
    && |h'.cells| == |h.cells|
    && r < |h.cells|
    && h'.cells[r] == v
    && forall o | 0 <= o < |h.cells| && o != r :: h'.cells[o] == h.cells[o]
  }

  function Alloc(h: Heap, v: V.Vector): (res: (Heap, Ref))
    ensures Allocated(h, res.0, res.1, v)
    ensures !h.Valid(res.1)
  {
    (Heap(h.cells + [v]), |h.cells|)
  }

  /** `new Vector()`: a fresh object with all components 0. */
  function New(h: Heap): (res: (Heap, Ref))
    ensures Allocated(h, res.0, res.1, V.Zero)
  {
    Alloc(h, V.Zero)
  }

  /** a.Add(b): a fresh object holding the componentwise sum; receiver and argument unchanged. */
  function Add(h: Heap, a: Ref, b: Ref): (res: (Heap, Ref))
    requires h.Valid(a) && h.Valid(b)
    ensures Allocated(h, res.0, res.1, V.Add(h.cells[a], h.cells[b]))
  {
    Alloc(h, V.Vector(h.cells[a].x + h.cells[b].x, h.cells[a].y + h.cells[b].y, h.cells[a].z + h.cells[b].z))
  }

  /** a.Sub(b): a fresh object holding the componentwise difference. */
  function Sub(h: Heap, a: Ref, b: Ref): (res: (Heap, Ref))
    requires h.Valid(a) && h.Valid(b)
    ensures Allocated(h, res.0, res.1, V.Sub(h.cells[a], h.cells[b]))
  {
    Alloc(h, V.Vector(h.cells[a].x - h.cells[b].x, h.cells[a].y - h.cells[b].y, h.cells[a].z - h.cells[b].z))
  }

  /** a.Scale(s): a fresh object; the receiver is NOT scaled. */
  function Scale(h: Heap, a: Ref, s: real): (res: (Heap, Ref))
    requires h.Valid(a)
    ensures Allocated(h, res.0, res.1, V.Scale(h.cells[a], s))
    ensures res.0.cells[a] == h.cells[a]
  {
    Alloc(h, V.Vector(h.cells[a].x * s, h.cells[a].y * s, h.cells[a].z * s))
  }

  /** a.Clone(): a fresh object with the same components. */
  function Clone(h: Heap, a: Ref): (res: (Heap, Ref))
    requires h.Valid(a)
    ensures Allocated(h, res.0, res.1, h.cells[a])
    ensures res.1 != a
  {
    Alloc(h, V.Vector(h.cells[a].x, h.cells[a].y, h.cells[a].z))
  }

  // Field writes: the three assignments of an in-place method, one at a time.

  function SetX(h: Heap, r: Ref, value: real): Heap
    requires h.Valid(r)
  {
    Heap(h.cells[r := h.cells[r].(x := value)])
  }

  function SetY(h: Heap, r: Ref, value: real): Heap
    requires h.Valid(r)
  {
    Heap(h.cells[r := h.cells[r].(y := value)])
  }

  function SetZ(h: Heap, r: Ref, value: real): Heap
    requires h.Valid(r)
  {
    Heap(h.cells[r := h.cells[r].(z := value)])
  }

  /** a.AddToSelf(b): X += b.X; Y += b.Y; Z += b.Z. */
  function AddToSelf(h: Heap, a: Ref, b: Ref): (h': Heap)
    requires h.Valid(a) && h.Valid(b)
    ensures WrittenAt(h, h', a, V.Add(h.cells[a], h.cells[b]))
  {
    var h1 := SetX(h, a, h.cells[a].x + h.cells[b].x);
    var h2 := SetY(h1, a, h1.cells[a].y + h1.cells[b].y);
    SetZ(h2, a, h2.cells[a].z + h2.cells[b].z)
  }

  /** a.SubtractFromSelf(b): X -= b.X; Y -= b.Y; Z -= b.Z. */
  function SubtractFromSelf(h: Heap, a: Ref, b: Ref): (h': Heap)
    requires h.Valid(a) && h.Valid(b)
    ensures WrittenAt(h, h', a, V.Sub(h.cells[a], h.cells[b]))
  {
    var h1 := SetX(h, a, h.cells[a].x - h.cells[b].x);
    var h2 := SetY(h1, a, h1.cells[a].y - h1.cells[b].y);
    SetZ(h2, a, h2.cells[a].z - h2.cells[b].z)
  }

  /** a.CopyFrom(b): X = b.X; Y = b.Y; Z = b.Z. */
  function CopyFrom(h: Heap, a: Ref, b: Ref): (h': Heap)
    requires h.Valid(a) && h.Valid(b)
    ensures WrittenAt(h, h', a, h.cells[b])
  {
    var h1 := SetX(h, a, h.cells[b].x);
    var h2 := SetY(h1, a, h1.cells[b].y);
    SetZ(h2, a, h2.cells[b].z)
  }

  /** The in-place forms agree with the value-returning ones, even when the
      receiver is its own argument. */
  lemma InPlaceAgreesWithValueForms(h: Heap, a: Ref, b: Ref)
    requires h.Valid(a) && h.Valid(b)
    ensures AddToSelf(h, a, b).cells[a] == Add(h, a, b).0.cells[Add(h, a, b).1]
    ensures SubtractFromSelf(h, a, b).cells[a] == Sub(h, a, b).0.cells[Sub(h, a, b).1]
  {
  }

  /** A clone is independent: writing to the clone leaves the original as it
      was, and writing to the original leaves the clone as it was. */
  lemma CloneIsIndependent(h: Heap, a: Ref, other: Ref)
    requires h.Valid(a) && h.Valid(other)
    ensures var (h1, c) := Clone(h, a);
            && AddToSelf(h1, c, other).cells[a] == h.cells[a]
            && AddToSelf(h1, a, other).cells[c] == h.cells[a]
            && SubtractFromSelf(h1, c, other).cells[a] == h.cells[a]
            && CopyFrom(h1, c, other).cells[a] == h.cells[a]
  {
  }

  /** After a.CopyFrom(b) the two objects hold equal components but stay distinct. */
  lemma CopyFromMakesEqual(h: Heap, a: Ref, b: Ref)
    requires h.Valid(a) && h.Valid(b)
    ensures CopyFrom(h, a, b).cells[a] == CopyFrom(h, a, b).cells[b]
  {
  }
}
