/**
 * BodyRecord.cs: one history sample of one body. Its doc-comments give the
 * units as 1E12 m and 1E3 m/s, but CopyFrom clones the body's vectors, which
 * hold metres and metres per second, without scaling them.
 */
module BodyRecords {
  import V = Vectors
  import O = VectorObjects
  import B = Bodies

  datatype BodyRecord = BodyRecord(position: V.Vector, velocity: V.Vector)

  /** The sample CopyFrom takes of a body: its position and velocity, in SI units. */
  function Snapshot(b: B.Body): (r: BodyRecord)
    ensures r.position == b.position && r.velocity == b.velocity
  {
    BodyRecord(b.position, b.velocity)
  }

  /** The Vector objects a body or a record refers to. */
  datatype VectorPair = VectorPair(position: O.Ref, velocity: O.Ref)

  predicate ValidPair(h: O.Heap, pair: VectorPair) {
    h.Valid(pair.position) && h.Valid(pair.velocity)
  }

  /** The record value a pair of objects currently holds. */
  function Read(h: O.Heap, pair: VectorPair): BodyRecord
    requires ValidPair(h, pair)
  {
    BodyRecord(h.cells[pair.position], h.cells[pair.velocity])
  }

  /**
   * record.CopyFrom(body): Position = body.Position.Clone(); Velocity =
   * body.Velocity.Clone(). The record gets two fresh objects holding the body's
   * values, and no existing object (the body's included) is modified.
   */
  function CopyFrom(h: O.Heap, body: VectorPair): (res: (O.Heap, VectorPair))
    requires ValidPair(h, body)
    ensures ValidPair(res.0, res.1) && ValidPair(res.0, body)
    ensures Read(res.0, res.1) == Read(h, body)
    ensures |h.cells| <= |res.0.cells| && res.0.cells[..|h.cells|] == h.cells
    ensures !h.Valid(res.1.position) && !h.Valid(res.1.velocity) && res.1.position != res.1.velocity
  {
    var (h1, p) := O.Clone(h, body.position);
    var (h2, v) := O.Clone(h1, body.velocity);
    (h2, VectorPair(p, v))
  }

  /** The object copy holds exactly the value snapshot of the body. */
  lemma CopyFromIsSnapshot(h: O.Heap, body: VectorPair, b: B.Body)
    requires ValidPair(h, body)
    requires b.position == h.cells[body.position] && b.velocity == h.cells[body.velocity]
    ensures Read(CopyFrom(h, body).0, CopyFrom(h, body).1) == Snapshot(b)
  {
  }

  /** The record holds clones: moving the body in place afterwards, as the
      integrator does with AddToSelf and SubtractFromSelf, leaves the record as
      it was taken. */
  lemma RecordSurvivesBodyUpdates(h: O.Heap, body: VectorPair, dv: O.Ref)
    requires ValidPair(h, body) && h.Valid(dv)
    ensures var (h1, rec) := CopyFrom(h, body);
            var h2 := O.AddToSelf(h1, body.position, dv);
            var h3 := O.SubtractFromSelf(h2, body.velocity, dv);
            Read(h3, rec) == Read(h, body)
  {
  }
}
