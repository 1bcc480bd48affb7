/**
 * The swept-box collision test of PlanetarySystem.cs (Edge and CheckEdges):
 * each body's motion during a step is covered by the axis-aligned box of its
 * start and end spheres, and two bodies are suspected to collide when their
 * boxes overlap. Only a strict `>` separates two boxes, so touching boxes overlap.
 */
module Collision {
  import V = Vectors

  /** The motion of one body during one step: start, end and radius. */
  datatype Edge = Edge(p1: V.Vector, p2: V.Vector, r: real)

  /** Math.Min and Math.Max. */
  function Min(a: real, b: real): real { if a <= b then a else b }
  function Max(a: real, b: real): real { if a >= b then a else b }

  datatype Box = Box(lo: V.Vector, hi: V.Vector)

  /** The box as CheckEdges computes it: Min(p1 - r, p2 - r) and Max(p1 + r, p2 + r) per axis. */
  function BoxOf(e: Edge): Box
  {
    Box(V.Vector(Min(e.p1.x - e.r, e.p2.x - e.r), Min(e.p1.y - e.r, e.p2.y - e.r), Min(e.p1.z - e.r, e.p2.z - e.r)),
        V.Vector(Max(e.p1.x + e.r, e.p2.x + e.r), Max(e.p1.y + e.r, e.p2.y + e.r), Max(e.p1.z + e.r, e.p2.z + e.r)))
  }

  /** The six separating tests of CheckEdges all fail. */
  predicate Overlap(e1: Edge, e2: Edge)
  {
    var b1 := BoxOf(e1);
    var b2 := BoxOf(e2);
    && !(b1.lo.x > b2.hi.x) && !(b2.lo.x > b1.hi.x)
    && !(b1.lo.y > b2.hi.y) && !(b2.lo.y > b1.hi.y)
    && !(b1.lo.z > b2.hi.z) && !(b2.lo.z > b1.hi.z)
  }

  /** No pair i < j of edges overlaps. */
  predicate NoClash(edges: seq<Edge>)
  {
    forall i, j | 0 <= i < j < |edges| :: !Overlap(edges[i], edges[j])
  }

  /** The inner loop of CheckEdges: edge i against edges j, j+1, ... */
  function CheckAgainst(edges: seq<Edge>, i: nat, j: nat): (ok: bool)
    requires i < j <= |edges|
    ensures ok <==> forall k | j <= k < |edges| :: !Overlap(edges[i], edges[k])
    decreases |edges| - j
  {
    if j == |edges| then true
    else !Overlap(edges[i], edges[j]) && CheckAgainst(edges, i, j + 1)
  }

  /** The outer loop of CheckEdges, from edge i on. */
  function CheckFrom(edges: seq<Edge>, i: nat): (ok: bool)
    requires i <= |edges|
    ensures ok <==> forall a, b | i <= a < b < |edges| :: !Overlap(edges[a], edges[b])
    decreases |edges| - i
  {
    if i + 1 >= |edges| then true
    else CheckAgainst(edges, i, i + 1) && CheckFrom(edges, i + 1)
  }

  /** CheckEdges: false exactly when some pair of edges has overlapping boxes. */
  function CheckEdges(edges: seq<Edge>): (ok: bool)
    ensures ok <==> NoClash(edges)
  {
    CheckFrom(edges, 0)
  }

  // ---------------------------------------------------------------------------
  // A geometric reading of the test.
  // ---------------------------------------------------------------------------

  predicate InBox(pt: V.Vector, b: Box)
  {
    b.lo.x <= pt.x <= b.hi.x && b.lo.y <= pt.y <= b.hi.y && b.lo.z <= pt.z <= b.hi.z
  }

  /** The box of an edge is [min(p1, p2) - r, max(p1, p2) + r] on each axis. */
  lemma BoxIsSweptSpheres(e: Edge)
    ensures BoxOf(e).lo == V.Vector(Min(e.p1.x, e.p2.x) - e.r, Min(e.p1.y, e.p2.y) - e.r, Min(e.p1.z, e.p2.z) - e.r)
    ensures BoxOf(e).hi == V.Vector(Max(e.p1.x, e.p2.x) + e.r, Max(e.p1.y, e.p2.y) + e.r, Max(e.p1.z, e.p2.z) + e.r)
  {
  }

  /** For non-negative radii, two edges overlap exactly when their boxes share a point. */
  lemma OverlapIsSharedPoint(e1: Edge, e2: Edge)
    requires e1.r >= 0.0 && e2.r >= 0.0
    ensures Overlap(e1, e2) <==> exists pt :: InBox(pt, BoxOf(e1)) && InBox(pt, BoxOf(e2))
  {
    var b1 := BoxOf(e1);
    var b2 := BoxOf(e2);
    if Overlap(e1, e2) {
      var pt := V.Vector(Max(b1.lo.x, b2.lo.x), Max(b1.lo.y, b2.lo.y), Max(b1.lo.z, b2.lo.z));
      assert InBox(pt, b1) && InBox(pt, b2);
    }
  }

  /** Boxes that only touch count as overlapping. */
  lemma TouchingOverlaps(e1: Edge, e2: Edge)
    requires e1.r >= 0.0 && e2.r >= 0.0
    requires BoxOf(e1).hi.x == BoxOf(e2).lo.x
    requires BoxOf(e1).lo.y == BoxOf(e2).lo.y && BoxOf(e1).lo.z == BoxOf(e2).lo.z
    ensures Overlap(e1, e2)
  {
  }

  lemma OverlapIsSymmetric(e1: Edge, e2: Edge)
    ensures Overlap(e1, e2) <==> Overlap(e2, e1)
  {
  }

  /** Fewer than two edges can never clash. */
  lemma AtMostOneEdgeIsClear(edges: seq<Edge>)
    requires |edges| <= 1
    ensures CheckEdges(edges)
  {
  }

  /** Pair order does not matter: i < j may be read as any two distinct indices. */
  lemma NoClashOverDistinctPairs(edges: seq<Edge>)
    ensures NoClash(edges) <==> forall i, j | 0 <= i < |edges| && 0 <= j < |edges| && i != j :: !Overlap(edges[i], edges[j])
  {
    if NoClash(edges) {
      forall i, j | 0 <= i < |edges| && 0 <= j < |edges| && i != j
        ensures !Overlap(edges[i], edges[j])
      {
        if j < i { OverlapIsSymmetric(edges[i], edges[j]); }
      }
    }
  }

  /** Two distinct positions holding x make x occur at least twice. */
  lemma TwiceInMultiset<T>(s: seq<T>, i: nat, j: nat)
    requires i < |s| && j < |s| && i != j && s[i] == s[j]
    ensures multiset(s)[s[i]] >= 2
  {
    var rest := s[..i] + s[i + 1..];
    assert s == s[..i] + [s[i]] + s[i + 1..];
    assert multiset(s) == multiset(rest) + multiset{s[i]};
    if j < i {
      assert rest[j] == s[j];
    } else {
      assert rest[j - 1] == s[j];
    }
    assert s[j] in multiset(rest);
  }

  /** An element occurring at least twice sits at two distinct positions. */
  lemma TwoPositions<T>(s: seq<T>, x: T) returns (k: nat, l: nat)
    requires multiset(s)[x] >= 2
    ensures k < |s| && l < |s| && k != l && s[k] == x && s[l] == x
  {
    assert x in multiset(s);
    k :| 0 <= k < |s| && s[k] == x;
    var rest := s[..k] + s[k + 1..];
    assert s == s[..k] + [s[k]] + s[k + 1..];
    assert multiset(s) == multiset(rest) + multiset{x};
    assert x in multiset(rest);
    var m :| 0 <= m < |rest| && rest[m] == x;
    if m < k {
      l := m;
      assert s[l] == rest[m];
    } else {
      l := m + 1;
      assert s[l] == rest[m];
    }
  }

  /** A clash in `a` is a clash in any rearrangement `b` of it. */
  lemma ClashCarriesOver(a: seq<Edge>, b: seq<Edge>, i: nat, j: nat)
    requires multiset(a) == multiset(b)
    requires i < j < |a| && Overlap(a[i], a[j])
    ensures !NoClash(b)
  {
    var k: nat, l: nat;
    if a[i] == a[j] {
      TwiceInMultiset(a, i, j);
      k, l := TwoPositions(b, a[i]);
    } else {
      assert a[i] in multiset(b) && a[j] in multiset(b);
      k :| 0 <= k < |b| && b[k] == a[i];
      l :| 0 <= l < |b| && b[l] == a[j];
    }
    NoClashOverDistinctPairs(b);
  }

  /** The verdict does not depend on the order of the edges: any permutation
      of the list gives the same answer. */
  lemma CheckEdgesIgnoresOrder(a: seq<Edge>, b: seq<Edge>)
    requires multiset(a) == multiset(b)
    ensures CheckEdges(a) == CheckEdges(b)
  {
    if !NoClash(a) {
      var i, j :| 0 <= i < j < |a| && Overlap(a[i], a[j]);
      ClashCarriesOver(a, b, i, j);
    }
    if !NoClash(b) {
      var i, j :| 0 <= i < j < |b| && Overlap(b[i], b[j]);
      ClashCarriesOver(b, a, i, j);
    }
  }

  /** Adding an edge can only turn a clear list into a clashing one; a clash
      among the first edges remains a clash. */
  lemma NoClashOfPrefix(edges: seq<Edge>, k: nat)
    requires k <= |edges|
    ensures NoClash(edges) ==> NoClash(edges[..k])
  {
    if NoClash(edges) {
      forall i, j | 0 <= i < j < k
        ensures !Overlap(edges[..k][i], edges[..k][j])
      {
        assert edges[..k][i] == edges[i] && edges[..k][j] == edges[j];
      }
    }
  }

  /** A clash among the first a edges is still a clash among the first b >= a. */
  lemma ClashPersists(edges: seq<Edge>, a: nat, b: nat)
    requires a <= b <= |edges| && !NoClash(edges[..a])
    ensures !NoClash(edges[..b])
  {
    var i, j :| 0 <= i < j < a && Overlap(edges[..a][i], edges[..a][j]);
    assert edges[..b][i] == edges[..a][i] && edges[..b][j] == edges[..a][j];
  }
}
