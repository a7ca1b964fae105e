/** Directed multigraphs over software versions and a shortest-path search.

    The update resolver hands its graph to a library routine that returns the
    nodes of some cheapest path.  Every edge costs 1, so the routine is modelled
    by a breadth-first search proved to return a route with the fewest hops. */
module Digraph {
  import opened Wrappers

  type Version = string

  /** An edge of the multigraph, labelled with the index of a package. */
  datatype Edge = Edge(src: Version, dst: Version, package: nat)

  ghost predicate Joined(edges: seq<Edge>, u: Version, v: Version) {
    exists e :: e in edges && e.src == u && e.dst == v
  }

  /** A route is a nonempty list of nodes, each joined to the next one. */
  ghost predicate IsRoute(edges: seq<Edge>, r: seq<Version>, s: Version, t: Version) {
    && |r| > 0 && r[0] == s && r[|r| - 1] == t
    && forall i :: 0 <= i < |r| - 1 ==> Joined(edges, r[i], r[i + 1])
  }

  ghost predicate IsShortest(edges: seq<Edge>, r: seq<Version>, s: Version, t: Version) {
    && IsRoute(edges, r, s, t)
    && forall q :: IsRoute(edges, q, s, t) ==> |r| <= |q|
  }

  ghost predicate Reachable(edges: seq<Edge>, s: Version, t: Version) {
    exists r :: IsRoute(edges, r, s, t)
  }

  /** A shortest route never comes back to its start. */
  lemma ShortestLeavesStart(edges: seq<Edge>, r: seq<Version>, s: Version, t: Version, i: nat)
    requires IsShortest(edges, r, s, t) && 0 < i < |r|
    ensures r[i] != s
  {
    if r[i] == s {
      assert IsRoute(edges, r[i..], s, t);
    }
  }

  /** If the edges in `a` all leave the start, a shortest route uses them for its first hop only. */
  lemma TailAvoids(a: seq<Edge>, b: seq<Edge>, r: seq<Version>, s: Version, t: Version)
    requires IsShortest(a + b, r, s, t) && |r| >= 2 && forall e :: e in a ==> e.src == s
    ensures IsRoute(b, r[1..], r[1], t)
  {
    forall k | 0 < k < |r| - 1 ensures Joined(b, r[k], r[k + 1]) {
      ShortestLeavesStart(a + b, r, s, t, k);
      assert Joined(a + b, r[k], r[k + 1]);
      var e :| e in a + b && e.src == r[k] && e.dst == r[k + 1];
    }
  }

  /** A route stays a route as edges are added. */
  lemma MoreEdges(a: seq<Edge>, b: seq<Edge>, r: seq<Version>, s: Version, t: Version)
    requires IsRoute(b, r, s, t)
    ensures IsRoute(a + b, r, s, t)
  {
    forall k | 0 <= k < |r| - 1 ensures Joined(a + b, r[k], r[k + 1]) {
      assert Joined(b, r[k], r[k + 1]);
      var e :| e in b && e.src == r[k] && e.dst == r[k + 1];
      assert e in a + b;
    }
  }

  lemma {:induction false} ShortestExists(edges: seq<Edge>, r: seq<Version>, s: Version, t: Version) returns (q: seq<Version>)
    requires IsRoute(edges, r, s, t)
    ensures IsShortest(edges, q, s, t) && |q| <= |r|
    decreases |r|
  {
    if p :| IsRoute(edges, p, s, t) && |p| < |r| {
      q := ShortestExists(edges, p, s, t);
    } else {
      q := r;
    }
  }

  lemma OneHopIsShortest(edges: seq<Edge>, u: Version, v: Version)
    requires Joined(edges, u, v) && u != v
    ensures IsShortest(edges, [u, v], u, v)
  {
  }

  ghost predicate ClosedUnder(edges: seq<Edge>, S: set<Version>) {
    forall e :: e in edges && e.src in S ==> e.dst in S
  }

  lemma {:induction false} RouteStaysInClosed(edges: seq<Edge>, S: set<Version>, r: seq<Version>, s: Version, t: Version)
    requires ClosedUnder(edges, S) && s in S && IsRoute(edges, r, s, t)
    ensures t in S
    decreases |r|
  {
    if |r| > 1 {
      assert Joined(edges, r[0], r[1]);
      RouteStaysInClosed(edges, S, r[1..], r[1], t);
    }
  }

  /** `paths` holds, for every node it knows, a route of at most `d` hops, and it
      knows every node that some route of at most `d` hops leads to, by a route
      that is no longer than that one. */
  ghost predicate Explored(edges: seq<Edge>, s: Version, paths: map<Version, seq<Version>>, d: nat) {
    && (forall v :: v in paths ==> IsRoute(edges, paths[v], s, v) && |paths[v]| <= d + 1)
    && (forall r, v :: IsRoute(edges, r, s, v) && |r| <= d + 1 ==> v in paths && |paths[v]| <= |r|)
  }

  ghost predicate FrontierOk(edges: seq<Edge>, paths: map<Version, seq<Version>>, frontier: set<Version>, d: nat) {
    && (forall v :: v in frontier ==> v in paths && |paths[v]| == d + 1)
    && (forall e :: e in edges && e.src in paths && e.src !in frontier ==> e.dst in paths)
  }

  /** One breadth-first layer: `next` maps exactly the unseen successors of the frontier
      to the frontier path extended by one node. */
  ghost predicate IsLayer(edges: seq<Edge>, paths: map<Version, seq<Version>>, frontier: set<Version>,
                          next: map<Version, seq<Version>>, n: nat)
    requires n <= |edges| && frontier <= paths.Keys
  {
    && (forall v :: v in next ==> v !in paths && exists e :: e in edges && e.src in frontier && e.dst == v && next[v] == paths[e.src] + [v])
    && (forall i :: 0 <= i < n && edges[i].src in frontier && edges[i].dst !in paths ==> edges[i].dst in next)
  }

  lemma ExtendRoute(edges: seq<Edge>, r: seq<Version>, s: Version, u: Version, e: Edge)
    requires IsRoute(edges, r, s, u) && e in edges && e.src == u
    ensures IsRoute(edges, r + [e.dst], s, e.dst)
  {
    var q := r + [e.dst];
    forall i | 0 <= i < |q| - 1 ensures Joined(edges, q[i], q[i + 1]) {
      if i < |r| - 1 {
        assert Joined(edges, r[i], r[i + 1]);
      }
    }
  }

  lemma AddLayer(edges: seq<Edge>, s: Version, paths: map<Version, seq<Version>>, frontier: set<Version>,
                 next: map<Version, seq<Version>>, d: nat)
    requires Explored(edges, s, paths, d) && FrontierOk(edges, paths, frontier, d) && frontier <= paths.Keys
    requires IsLayer(edges, paths, frontier, next, |edges|)
    ensures Explored(edges, s, paths + next, d + 1)
    ensures FrontierOk(edges, paths + next, next.Keys, d + 1)
  {
    var all := paths + next;
    forall v | v in next ensures IsRoute(edges, next[v], s, v) && |next[v]| == d + 2 {
      var e :| e in edges && e.src in frontier && e.dst == v && next[v] == paths[e.src] + [v];
      ExtendRoute(edges, paths[e.src], s, e.src, e);
    }
    forall r, v | IsRoute(edges, r, s, v) && |r| <= d + 2 ensures v in all && |all[v]| <= |r| {
      if |r| == d + 2 {
        var q := r[..d + 1];
        assert IsRoute(edges, q, s, r[d]);
        assert r[d] in paths;
        assert Joined(edges, r[d], r[d + 1]);
        var e :| e in edges && e.src == r[d] && e.dst == v;
        var i :| 0 <= i < |edges| && edges[i] == e;
      }
    }
    forall e | e in edges && e.src in all && e.src !in next.Keys ensures e.dst in all {
      var i :| 0 <= i < |edges| && edges[i] == e;
    }
  }

  /** A nonempty layer uses up nodes that were still to be found. */
  lemma LayerProgress(edges: seq<Edge>, paths: map<Version, seq<Version>>, frontier: set<Version>,
                      next: map<Version, seq<Version>>, targets: set<Version>)
    requires frontier <= paths.Keys && IsLayer(edges, paths, frontier, next, |edges|)
    requires targets == set e | e in edges :: e.dst
    ensures targets - (paths + next).Keys <= targets - paths.Keys
    ensures next.Keys != {} ==> targets - (paths + next).Keys < targets - paths.Keys
  {
    if next.Keys != {} {
      var v :| v in next.Keys;
      assert v in targets - paths.Keys && v !in targets - (paths + next).Keys;
    }
  }

  /** The graph object the resolver builds up. */
  class MultiDiGraph {
    var nodes: set<Version>
    var edges: seq<Edge>

    constructor ()
      ensures nodes == {} && edges == []
    {
      nodes := {};
      edges := [];
    }

    method AddNode(v: Version)
      modifies this`nodes
      ensures nodes == old(nodes) + {v}
    {
      nodes := nodes + {v};
    }

    /** Parallel edges are kept, in insertion order; missing end points become nodes. */
    method AddEdge(src: Version, dst: Version, package: nat)
      modifies this
      ensures edges == old(edges) + [Edge(src, dst, package)]
      ensures nodes == old(nodes) + {src, dst}
    {
      nodes := nodes + {src, dst};
      edges := edges + [Edge(src, dst, package)];
    }

    /** One layer of the search: the unseen successors of the frontier. */
    method NextLayer(paths: map<Version, seq<Version>>, frontier: set<Version>)
      returns (next: map<Version, seq<Version>>)
      requires frontier <= paths.Keys
      ensures IsLayer(edges, paths, frontier, next, |edges|)
    {
      next := map[];
      for i := 0 to |edges|
        invariant IsLayer(edges, paths, frontier, next, i)
      {
        var e := edges[i];
        if e.src in frontier && e.dst !in paths {
          next := next[e.dst := paths[e.src] + [e.dst]];
        }
      }
    }

    /** Finds a route with the fewest hops, or None when there is no route at all. */
    method ShortestPath(s: Version, t: Version) returns (r: Option<seq<Version>>)
      ensures r.Some? ==> IsShortest(edges, r.value, s, t)
      ensures r.None? ==> !Reachable(edges, s, t)
    {
      var paths := map[s := [s]];
      var frontier := {s};
      ghost var d := 0;
      ghost var targets := set e | e in edges :: e.dst;
      while t !in paths && frontier != {}
        invariant Explored(edges, s, paths, d)
        invariant frontier <= paths.Keys && FrontierOk(edges, paths, frontier, d)
        invariant s in paths
        decreases targets - paths.Keys, frontier
      {
        var next := NextLayer(paths, frontier);
        AddLayer(edges, s, paths, frontier, next, d);
        LayerProgress(edges, paths, frontier, next, targets);
        paths := paths + next;
        frontier := next.Keys;
        d := d + 1;
      }
      if t in paths {
        r := Some(paths[t]);
      } else {
        r := None;
        forall q | IsRoute(edges, q, s, t) ensures false {
          RouteStaysInClosed(edges, paths.Keys, q, s, t);
        }
      }
    }
  }
}
