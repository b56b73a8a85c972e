/**
 * The fixed geometry: the eight corners of the unit cube and the twelve
 * edges joining them, given as pairs of indices into the corner list.
 * Only the initial table is modelled; the rotation that later moves the
 * corners is floating-point code outside this model.
 */
module Geometry {

  datatype Vertex = Vertex(x: real, y: real, z: real)

  const Vertices: seq<Vertex> := [
    Vertex(0.0, 0.0, 0.0),
    Vertex(1.0, 0.0, 0.0),
    Vertex(1.0, 1.0, 0.0),
    Vertex(0.0, 1.0, 0.0),
    Vertex(0.0, 0.0, 1.0),
    Vertex(1.0, 0.0, 1.0),
    Vertex(1.0, 1.0, 1.0),
    Vertex(0.0, 1.0, 1.0)
  ]

  const Edges: seq<seq<int>> := [
    [0, 1], [1, 2], [2, 3], [3, 0],
    [4, 5], [5, 6], [6, 7], [7, 4],
    [0, 4], [1, 5], [2, 6], [3, 7]
  ]

  /** An edge row has exactly two entries, both valid indices into a list of `n` corners. */
  predicate ValidEdge(e: seq<int>, n: int)
  {
    |e| == 2 && 0 <= e[0] < n && 0 <= e[1] < n
  }

  function Diff(a: real, b: real): real
  {
    if a < b then b - a else a - b
  }

  /** `a` and `b` differ in exactly one coordinate, and there by exactly 1. */
  predicate UnitStep(a: Vertex, b: Vertex)
  {
    || (Diff(a.x, b.x) == 1.0 && a.y == b.y && a.z == b.z)
    || (a.x == b.x && Diff(a.y, b.y) == 1.0 && a.z == b.z)
    || (a.x == b.x && a.y == b.y && Diff(a.z, b.z) == 1.0)
  }

  /** Edge row `e` joins corners `a` and `b`, in either order. */
  predicate Joins(e: seq<int>, a: int, b: int)
    requires |e| == 2
  {
    (e[0] == a && e[1] == b) || (e[0] == b && e[1] == a)
  }

  predicate IsBit(r: real)
  {
    r == 0.0 || r == 1.0
  }

  /** The table has 12 rows of two valid corner indices each. */
  lemma EdgeTableValid()
    ensures |Vertices| == 8 && |Edges| == 12
    ensures forall e :: e in Edges ==> ValidEdge(e, |Vertices|)
  {
  }

  /** The eight corners are distinct points of {0,1}³, i.e. all corners of the unit cube. */
  lemma VerticesAreCorners()
    ensures forall v :: v in Vertices ==> IsBit(v.x) && IsBit(v.y) && IsBit(v.z)
    ensures forall k, l :: 0 <= k < l < |Vertices| ==> Vertices[k] != Vertices[l]
  {
    forall k, l | 0 <= k < l < |Vertices|
      ensures Vertices[k] != Vertices[l]
    {
      assert k in {0, 1, 2, 3, 4, 5, 6};
      assert l in {1, 2, 3, 4, 5, 6, 7};
    }
  }

  /** Every edge joins two corners one unit apart along a single axis. */
  lemma EdgesAreUnitSteps()
    ensures forall e :: e in Edges ==> ValidEdge(e, |Vertices|) && UnitStep(Vertices[e[0]], Vertices[e[1]])
  {
  }

  /** No two edges join the same pair of corners, in either order. */
  lemma EdgesDistinct()
    ensures forall k, l :: 0 <= k < l < |Edges| ==>
      {Edges[k][0], Edges[k][1]} != {Edges[l][0], Edges[l][1]}
  {
    forall k, l | 0 <= k < l < |Edges|
      ensures {Edges[k][0], Edges[k][1]} != {Edges[l][0], Edges[l][1]}
    {
      assert k in {0, 1, 2, 3, 4, 5, 6, 7, 8, 9, 10};
      assert l in {1, 2, 3, 4, 5, 6, 7, 8, 9, 10, 11};
    }
  }

  /** Conversely, every pair of corners one unit apart is joined by some edge. */
  lemma EdgesComplete()
    ensures forall a, b :: 0 <= a < b < |Vertices| && UnitStep(Vertices[a], Vertices[b]) ==>
      exists k :: 0 <= k < |Edges| && Joins(Edges[k], a, b)
  {
    forall a, b | 0 <= a < b < |Vertices| && UnitStep(Vertices[a], Vertices[b])
      ensures exists k :: 0 <= k < |Edges| && Joins(Edges[k], a, b)
    {
      if a == 0 {
        if b == 1 {
          assert Joins(Edges[0], a, b);
        } else if b == 3 {
          assert Joins(Edges[3], a, b);
        } else if b == 4 {
          assert Joins(Edges[8], a, b);
        }
      } else if a == 1 {
        if b == 2 {
          assert Joins(Edges[1], a, b);
        } else if b == 5 {
          assert Joins(Edges[9], a, b);
        }
      } else if a == 2 {
        if b == 3 {
          assert Joins(Edges[2], a, b);
        } else if b == 6 {
          assert Joins(Edges[10], a, b);
        }
      } else if a == 3 {
        if b == 7 {
          assert Joins(Edges[11], a, b);
        }
      } else if a == 4 {
        if b == 5 {
          assert Joins(Edges[4], a, b);
        } else if b == 7 {
          assert Joins(Edges[7], a, b);
        }
      } else if a == 5 {
        if b == 6 {
          assert Joins(Edges[5], a, b);
        }
      } else if a == 6 {
        if b == 7 {
          assert Joins(Edges[6], a, b);
        }
      }
    }
  }
}
