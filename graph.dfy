/** The city graph of internal/platform/datastructure/graph.go, kept as an
    arena: vertices live in one sequence and an edge names its destination by
    its index there, so Go's pointer identity becomes index identity. */
module DataStructure {
  import opened Wrappers
  import opened Strings

  /** A city: its Id, its outgoing edges (direction label to destination
      index) and the flag that marks it destroyed. */
  datatype Vertex = Vertex(id: string, adjacent: map<int, nat>, disabled: bool)

  datatype GraphError = VertexDuplicated | EdgeDuplicated | VertexNotFound

  /** The first vertex with the given Id. */
  function Find(vs: seq<Vertex>, id: string): (r: Option<nat>)
    ensures r.Some? ==> r.value < |vs| && vs[r.value].id == id &&
                        forall j :: 0 <= j < r.value ==> vs[j].id != id
    ensures r.None? <==> forall j :: 0 <= j < |vs| ==> vs[j].id != id
  {
    if |vs| == 0 then None
    else if vs[0].id == id then Some(0)
    else match Find(vs[1..], id)
      case None => None
      case Some(k) => Some(k + 1)
  }

  /** The Ids in arena order. */
  function Ids(vs: seq<Vertex>): (ids: seq<string>)
    ensures |ids| == |vs| && forall i :: 0 <= i < |vs| ==> ids[i] == vs[i].id
  {
    seq(|vs|, i requires 0 <= i < |vs| => vs[i].id)
  }

  /** The directions whose destination is still enabled. */
  ghost function EnabledEdges(vs: seq<Vertex>, v: nat): set<int>
    requires v < |vs| && forall d :: d in vs[v].adjacent ==> vs[v].adjacent[d] < |vs|
  {
    set d | d in vs[v].adjacent && !vs[vs[v].adjacent[d]].disabled
  }

  /** No vertex has two edges to the same destination. */
  ghost predicate OneEdgePerDestination(adj: map<int, nat>) {
    forall d1, d2 :: d1 in adj && d2 in adj && d1 != d2 ==> adj[d1] != adj[d2]
  }

  /** The edges of an adjacency map point into an arena of `n` vertices. */
  ghost predicate InArena(adj: map<int, nat>, n: nat) {
    forall d :: d in adj ==> adj[d] < n
  }

  /** Ids are unique, edges point into the arena, and each vertex has at most
      one edge per destination. */
  ghost predicate WellFormed(vs: seq<Vertex>) {
    Distinct(Ids(vs)) &&
    forall i :: 0 <= i < |vs| ==> InArena(vs[i].adjacent, |vs|) && OneEdgePerDestination(vs[i].adjacent)
  }

  /** Setting an edge to a destination not yet reached keeps one edge per destination. */
  lemma SetEdge(vs: seq<Vertex>, f: nat, dir: int, t: nat)
    requires WellFormed(vs) && f < |vs| && t < |vs| && t !in vs[f].adjacent.Values
    ensures var adj := vs[f].adjacent[dir := t];
            WellFormed(vs[f := vs[f].(adjacent := adj)])
  {
    var adj := vs[f].adjacent[dir := t];
    var ws := vs[f := vs[f].(adjacent := adj)];
    assert Ids(ws) == Ids(vs);
    assert OneEdgePerDestination(adj) by {
      forall d1, d2 | d1 in adj && d2 in adj && d1 != d2 ensures adj[d1] != adj[d2] {
        if d1 != dir && d2 != dir {
          assert adj[d1] == vs[f].adjacent[d1];
          assert adj[d2] == vs[f].adjacent[d2];
        } else if d1 == dir {
          assert vs[f].adjacent[d2] in vs[f].adjacent.Values;
        } else {
          assert vs[f].adjacent[d1] in vs[f].adjacent.Values;
        }
      }
    }
  }

  /** Appending an element not yet present keeps a sequence free of repetitions. */
  lemma AppendFresh<T>(s: seq<T>, x: T)
    requires Distinct(s) && x !in s
    ensures Distinct(s + [x])
  {
  }

  class Graph {
    var vertices: seq<Vertex>

    /** Ids are unique, edges point into the arena, and each vertex has at
        most one edge per destination. */
    ghost predicate Valid()
      reads this
    {
      WellFormed(vertices)
    }

    /** `new(datastructure.Graph)`: no vertices. */
    constructor ()
      ensures Valid() && vertices == []
    {
      vertices := [];
    }

    /** AddVertex: a duplicate Id is rejected and nothing changes; a fresh Id
        is appended, without edges and enabled, and its index returned. */
    method AddVertex(id: string) returns (r: Result<nat, GraphError>)
      requires Valid()
      modifies this
      ensures Valid()
      ensures Find(old(vertices), id).Some? ==> r == Err(VertexDuplicated) && vertices == old(vertices)
      ensures Find(old(vertices), id).None? ==>
                r == Ok(|old(vertices)|) && vertices == old(vertices) + [Vertex(id, map[], false)]
    {
      var i := 0;
      while i < |vertices|
        invariant i <= |vertices|
        invariant forall j :: 0 <= j < i ==> vertices[j].id != id
      {
        if vertices[i].id == id {
          return Err(VertexDuplicated);
        }
        i := i + 1;
      }
      vertices := vertices + [Vertex(id, map[], false)];
      r := Ok(|vertices| - 1);
      assert Ids(vertices) == Ids(old(vertices)) + [id];
    }

    /** GetVertex: the index of the vertex with the given Id, in arena order,
        or None (Go's nil) when there is none. */
    method GetVertex(id: string) returns (r: Option<nat>)
      ensures r == Find(vertices, id)
    {
      var i := 0;
      while i < |vertices|
        invariant i <= |vertices|
        invariant forall j :: 0 <= j < i ==> vertices[j].id != id
      {
        if vertices[i].id == id {
          return Some(i);
        }
        i := i + 1;
      }
      return None;
    }

    /** AddEdge: both endpoints must exist, and `from` must not already have
        an edge to `to` under any label; then the edge labelled `dir` is set,
        replacing any earlier destination under that label. */
    method AddEdge(dir: int, from: string, to: string) returns (err: Option<GraphError>)
      requires Valid()
      modifies this
      ensures Valid()
      ensures Find(old(vertices), from).None? ==> err == Some(VertexNotFound) && vertices == old(vertices)
      ensures Find(old(vertices), from).Some? && Find(old(vertices), to).None? ==>
                err == Some(VertexNotFound) && vertices == old(vertices)
      ensures Find(old(vertices), from).Some? && Find(old(vertices), to).Some? ==>
                var f, t := Find(old(vertices), from).value, Find(old(vertices), to).value;
                var adj := old(vertices)[f].adjacent;
                if t in adj.Values then err == Some(EdgeDuplicated) && vertices == old(vertices)
                else err == None && vertices == old(vertices)[f := old(vertices)[f].(adjacent := adj[dir := t])]
    {
      var fromIndex := GetVertex(from);
      var toIndex := GetVertex(to);
      if fromIndex.None? {
        return Some(VertexNotFound);
      }
      if toIndex.None? {
        return Some(VertexNotFound);
      }
      var f, t := fromIndex.value, toIndex.value;
      var vs := vertices;
      var adj := vs[f].adjacent;
      assert InArena(adj, |vs|);
      var remaining := adj.Keys;
      while remaining != {}
        invariant vertices == vs && remaining <= adj.Keys
        invariant forall d :: d in adj && d !in remaining ==> vs[adj[d]].id != to
        decreases |remaining|
      {
        IntsInhabited(remaining);
        var d :| d in remaining;
        if vs[adj[d]].id == to {
          assert adj[d] == t by {
            assert Ids(vs)[adj[d]] == Ids(vs)[t];
          }
          assert t in adj.Values;
          return Some(EdgeDuplicated);
        }
        remaining := remaining - {d};
      }
      assert t !in adj.Values by {
        forall d | d in adj ensures adj[d] != t {
          assert d !in remaining;
        }
      }
      SetEdge(vs, f, dir, t);
      vertices := vs[f := vs[f].(adjacent := adj[dir := t])];
      err := None;
    }

    /** AllEdges: the directions of `v`'s edges to destinations that are not
        disabled, each once, in map iteration order. */
    method AllEdges(v: nat) returns (edges: seq<int>)
      requires Valid() && v < |vertices|
      ensures (set d | d in edges) == EnabledEdges(vertices, v)
      ensures Distinct(edges)
    {
      var vs := vertices;
      var adj := vs[v].adjacent;
      assert InArena(adj, |vs|);
      var remaining := adj.Keys;
      ghost var done: set<int> := {};
      edges := [];
      while remaining != {}
        invariant remaining !! done && remaining + done == adj.Keys
        invariant forall d :: d in edges <==> d in done && !vs[adj[d]].disabled
        invariant Distinct(edges)
        decreases |remaining|
      {
        IntsInhabited(remaining);
        var d :| d in remaining;
        if !vs[adj[d]].disabled {
          AppendFresh(edges, d);
          edges := edges + [d];
        }
        remaining := remaining - {d};
        done := done + {d};
      }
      assert done == adj.Keys;
      assert (set d | d in edges) == EnabledEdges(vertices, v) by {
        forall d ensures d in edges <==> d in EnabledEdges(vertices, v) {
          if d in adj {
            assert d in done;
          }
        }
      }
    }

    /** Enabled: the vertex has not been disabled. */
    function Enabled(v: nat): (r: bool)
      reads this
      requires v < |vertices|
      ensures r <==> !vertices[v].disabled
    {
      !vertices[v].disabled
    }

    /** Disable: the vertex is marked destroyed; nothing else changes. */
    method Disable(v: nat)
      requires Valid() && v < |vertices|
      modifies this
      ensures Valid()
      ensures vertices == Disabled(old(vertices), v)
    {
      vertices := vertices[v := vertices[v].(disabled := true)];
      assert Ids(vertices) == Ids(old(vertices));
    }

    /** GetAdjacent: the destination under a direction label, or None (Go's
        nil) when `v` has no edge with that label. */
    function GetAdjacent(v: nat, dir: int): (r: Option<nat>)
      reads this
      requires Valid() && v < |vertices|
      ensures r.Some? <==> dir in vertices[v].adjacent
      ensures r.Some? ==> r.value < |vertices| && r.value == vertices[v].adjacent[dir]
    {
      if dir in vertices[v].adjacent then Some(vertices[v].adjacent[dir]) else None
    }
  }

  /** The arena after disabling vertex `v`. */
  function Disabled(vs: seq<Vertex>, v: nat): (r: seq<Vertex>)
    requires v < |vs|
    ensures |r| == |vs| && Ids(r) == Ids(vs) && r[v].disabled
    ensures forall i :: 0 <= i < |vs| && i != v ==> r[i] == vs[i]
    ensures forall i :: 0 <= i < |vs| ==> r[i].adjacent == vs[i].adjacent
  {
    vs[v := vs[v].(disabled := true)]
  }

  /** Disabling is idempotent. */
  lemma DisableIdempotent(vs: seq<Vertex>, v: nat)
    requires v < |vs|
    ensures Disabled(Disabled(vs, v), v) == Disabled(vs, v)
  {
  }

  /** Disabling never re-enables: a vertex disabled before is disabled after. */
  lemma DisablePermanent(vs: seq<Vertex>, v: nat, w: nat)
    requires v < |vs| && w < |vs| && vs[w].disabled
    ensures Disabled(vs, v)[w].disabled
  {
  }

  /** With unique Ids, `Find` is exactly "the vertex with that Id". */
  lemma FindUnique(vs: seq<Vertex>, id: string, i: nat)
    requires Distinct(Ids(vs)) && i < |vs| && vs[i].id == id
    ensures Find(vs, id) == Some(i)
  {
    var r := Find(vs, id);
    assert r.Some?;
    assert Ids(vs)[r.value] == Ids(vs)[i];
  }
}
