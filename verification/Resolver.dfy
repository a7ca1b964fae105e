/** The update path resolver of the management server.

    Versions are the nodes of a graph, and an assigned package is an edge out of
    every version it can be installed on.  The answer is the package on the first
    hop of a shortest path to the version that the group's policy asks for. */
module Resolver {
  import opened Wrappers
  import opened Digraph

  type Metadata = map<string, string>

  const META_SOFT_VER := "rdfm.software.version"
  const META_DEVICE_TYPE := "rdfm.hardware.devtype"
  const REQUIRES := "requires:"

  /** Metadata of devices and packages always carries these two keys. */
  predicate HasIdentity(m: Metadata) {
    META_SOFT_VER in m && META_DEVICE_TYPE in m
  }

  type Package = m: Metadata | HasIdentity(m) witness map[META_SOFT_VER := "", META_DEVICE_TYPE := ""]

  function Ver(m: Package): Version { m[META_SOFT_VER] }

  function DevType(m: Package): string { m[META_DEVICE_TYPE] }

  /** The `requires:` keys of `update` that `base` does not carry with the required value. */
  function Unmet(base: Package, update: Package): set<string> {
    set k | k in update && REQUIRES <= k && !Provides(base, k[|REQUIRES|..], update[k])
  }

  /** `update` can be installed on top of `base`. */
  predicate Installable(base: Package, update: Package) {
    && Unmet(base, update) == {}
    && Ver(base) != Ver(update)
    && DevType(base) == DevType(update)
  }

  predicate Provides(base: Package, key: string, value: string) {
    key in base && base[key] == value
  }

  /** What it takes to install a package, in terms of the metadata alone. */
  lemma InstallableMeans(base: Package, update: Package)
    ensures Installable(base, update) <==>
            && (forall k :: k in update && "requires:" <= k ==> k[9..] in base && base[k[9..]] == update[k])
            && base["rdfm.software.version"] != update["rdfm.software.version"]
            && base["rdfm.hardware.devtype"] == update["rdfm.hardware.devtype"]
  {
    if k :| k in update && REQUIRES <= k && !Provides(base, k[|REQUIRES|..], update[k]) {
      assert k in Unmet(base, update);
    }
  }

  /** A required value must be there, and be that value; a base that differs in it is refused. */
  lemma RequiredValueMatters(base: Package, update: Package, key: string, value: string)
    requires Installable(base, update) && "requires:" + key in update
    ensures key in base && base[key] == update["requires:" + key]
    ensures value != update["requires:" + key] ==> !Installable(base[key := value], update)
  {
    var k := "requires:" + key;
    assert "requires:" <= k && k[9..] == key;
    InstallableMeans(base, update);
    InstallableMeans(base[key := value], update);
  }

  method RequirementsSatisfied(base: Package, update: Package) returns (compatible: bool)
    ensures compatible <==> Installable(base, update)
    ensures compatible <==>
            && (forall k :: k in update && "requires:" <= k ==> k[9..] in base && base[k[9..]] == update[k])
            && base["rdfm.software.version"] != update["rdfm.software.version"]
            && base["rdfm.hardware.devtype"] == update["rdfm.hardware.devtype"]
  {
    InstallableMeans(base, update);
    compatible := true;
    var rest := update.Keys;
    while rest != {}
      invariant rest <= update.Keys
      invariant compatible <==> forall k :: k in update && k !in rest && REQUIRES <= k ==> Provides(base, k[|REQUIRES|..], update[k])
      decreases rest
    {
      var k :| k in rest;
      rest := rest - {k};
      if REQUIRES <= k {
        var actual := k[|REQUIRES|..];
        if actual !in base {
          compatible := false;
        } else if base[actual] != update[k] {
          compatible := false;
        }
      }
    }
    if base[META_SOFT_VER] == update[META_SOFT_VER] {
      compatible := false;
    }
    if base[META_DEVICE_TYPE] != update[META_DEVICE_TYPE] {
      compatible := false;
    }
  }

  datatype Policy = NoUpdate | ExactMatch(version: Version) {
    function Evaluate(): Option<Version> {
      match this
      case NoUpdate => None
      case ExactMatch(v) => Some(v)
    }
  }

  /** The edges from `src` to those of the first n versions that are taken, in order. */
  function EdgesAlong(src: Version, dsts: seq<Version>, taken: seq<bool>, n: nat): seq<Edge>
    requires n <= |dsts| == |taken|
  {
    if n == 0 then [] else
      EdgesAlong(src, dsts, taken, n - 1) + (if taken[n - 1] then [Edge(src, dsts[n - 1], n - 1)] else [])
  }

  function Versions(ps: seq<Package>): seq<Version> {
    seq(|ps|, i requires 0 <= i < |ps| => Ver(ps[i]))
  }

  /** Which of the packages can be installed on `base`. */
  function TakenBy(base: Package, ps: seq<Package>): seq<bool> {
    seq(|ps|, i requires 0 <= i < |ps| => Installable(base, ps[i]))
  }

  /** The edges for those of the first n packages that can be installed on `base`. */
  function EdgesUpTo(base: Package, ps: seq<Package>, n: nat): seq<Edge>
    requires n <= |ps|
  {
    EdgesAlong(Ver(base), Versions(ps), TakenBy(base, ps), n)
  }

  function EdgesFrom(base: Package, ps: seq<Package>): seq<Edge> { EdgesUpTo(base, ps, |ps|) }

  lemma NothingYet(was: seq<Edge>, base: Package, ps: seq<Package>)
    ensures was + EdgesUpTo(base, ps, 0) == was
  {
  }

  /** The edges out of the first m packages. */
  function PackageEdges(ps: seq<Package>, m: nat): seq<Edge>
    requires m <= |ps|
  {
    if m == 0 then [] else PackageEdges(ps, m - 1) + EdgesFrom(ps[m - 1], ps)
  }

  /** The whole graph: the edges out of the device come before those between packages. */
  function UpdateGraph(device: Package, ps: seq<Package>): seq<Edge> {
    EdgesFrom(device, ps) + PackageEdges(ps, |ps|)
  }

  /** v is the device's version, or that of one of the first n packages made for its type. */
  ghost predicate KnownAmong(device: Package, ps: seq<Package>, n: nat, v: Version)
    requires n <= |ps|
  {
    v == Ver(device) || exists k :: 0 <= k < n && DevType(ps[k]) == DevType(device) && Ver(ps[k]) == v
  }

  ghost predicate Known(device: Package, ps: seq<Package>, v: Version) {
    KnownAmong(device, ps, |ps|, v)
  }

  /** The package index i is an answer for the target t: it is the first label of the
      first hop of a shortest route.  (Which of several shortest routes is taken is the
      search's choice.) */
  ghost predicate IsAnswer(device: Package, ps: seq<Package>, t: Version, i: nat) {
    var g := UpdateGraph(device, ps);
    Known(device, ps, t) &&
    exists r :: IsShortest(g, r, Ver(device), t) && |r| >= 2 && IsFirstLabel(g, r[0], r[1], i)
  }

  predicate Joins(e: Edge, u: Version, v: Version) { e.src == u && e.dst == v }

  /** Of the parallel edges from u to v the one added first carries the package i. */
  ghost predicate IsFirstLabel(edges: seq<Edge>, u: Version, v: Version, i: nat) {
    exists j: nat :: IsFirst(edges, u, v, j) && edges[j].package == i
  }

  ghost predicate IsFirst(edges: seq<Edge>, u: Version, v: Version, j: nat) {
    j < |edges| && Joins(edges[j], u, v) && forall k :: 0 <= k < j ==> !Joins(edges[k], u, v)
  }

  // What the edges mean

  lemma {:induction false} EdgesAlongMeaning(src: Version, dsts: seq<Version>, taken: seq<bool>, n: nat, e: Edge)
    requires n <= |dsts| == |taken|
    ensures e in EdgesAlong(src, dsts, taken, n) <==>
            e.package < n && taken[e.package] && e.src == src && e.dst == dsts[e.package]
  {
    if n > 0 {
      EdgesAlongMeaning(src, dsts, taken, n - 1, e);
    }
  }

  lemma EdgesFromMeaning(base: Package, ps: seq<Package>, e: Edge)
    ensures e in EdgesFrom(base, ps) <==> e.package < |ps| && EdgeOf(ps, base, e)
  {
    EdgesAlongMeaning(Ver(base), Versions(ps), TakenBy(base, ps), |ps|, e);
  }

  /** Some package among the first m carries the edge's source version and takes its package. */
  ghost predicate PackageEdge(ps: seq<Package>, m: nat, e: Edge)
    requires m <= |ps|
  {
    e.package < |ps| && exists b :: 0 <= b < m && EdgeOf(ps, ps[b], e)
  }

  ghost predicate EdgeOf(ps: seq<Package>, base: Package, e: Edge)
    requires e.package < |ps|
  {
    Installable(base, ps[e.package]) && e.src == Ver(base) && e.dst == Ver(ps[e.package])
  }

  lemma InConcat(a: seq<Edge>, b: seq<Edge>, e: Edge)
    ensures e in a + b <==> e in a || e in b
  {
  }

  lemma Regroup(a: seq<Edge>, b: seq<Edge>, c: seq<Edge>)
    ensures (a + b) + c == a + (b + c)
  {
  }

  lemma PackageEdgeStep(ps: seq<Package>, m: nat, e: Edge)
    requires 0 < m <= |ps|
    ensures PackageEdge(ps, m, e) <==> PackageEdge(ps, m - 1, e) || (e.package < |ps| && EdgeOf(ps, ps[m - 1], e))
  {
  }

  lemma {:induction false} PackageEdgesMeaning(ps: seq<Package>, m: nat, e: Edge)
    requires m <= |ps|
    ensures e in PackageEdges(ps, m) <==> PackageEdge(ps, m, e)
  {
    if m > 0 {
      PackageEdgesMeaning(ps, m - 1, e);
      EdgesFromMeaning(ps[m - 1], ps, e);
      PackageEdgeStep(ps, m, e);
      InConcat(PackageEdges(ps, m - 1), EdgesFrom(ps[m - 1], ps), e);
    }
  }

  /** An edge is in the graph exactly when its package can be installed on the device, or
      on an assigned package that carries the edge's source version. */
  lemma GraphMeaning(device: Package, ps: seq<Package>, e: Edge)
    ensures e in UpdateGraph(device, ps) <==>
            (e.package < |ps| && EdgeOf(ps, device, e)) || PackageEdge(ps, |ps|, e)
  {
    EdgesFromMeaning(device, ps, e);
    PackageEdgesMeaning(ps, |ps|, e);
  }

  lemma NextAlong(was: seq<Edge>, src: Version, dsts: seq<Version>, taken: seq<bool>, n: nat)
    requires n < |dsts| == |taken|
    ensures was + EdgesAlong(src, dsts, taken, n + 1) ==
            if taken[n] then (was + EdgesAlong(src, dsts, taken, n)) + [Edge(src, dsts[n], n)] else was + EdgesAlong(src, dsts, taken, n)
  {
  }

  /** Edges out of the same package are in the order of the packages they carry. */
  lemma {:induction false} EdgesAlongOrdered(src: Version, dsts: seq<Version>, taken: seq<bool>, n: nat)
    requires n <= |dsts| == |taken|
    ensures forall k :: 0 <= k < |EdgesAlong(src, dsts, taken, n)| ==> EdgesAlong(src, dsts, taken, n)[k].package < n
    ensures forall j, k :: 0 <= j < k < |EdgesAlong(src, dsts, taken, n)| ==>
              EdgesAlong(src, dsts, taken, n)[j].package < EdgesAlong(src, dsts, taken, n)[k].package
  {
    if n > 0 {
      EdgesAlongOrdered(src, dsts, taken, n - 1);
    }
  }

  // The label of the first hop

  ghost predicate DeviceTakes(device: Package, ps: seq<Package>, n: nat, v: Version)
    requires n <= |ps|
  {
    exists i :: 0 <= i < n && Installable(device, ps[i]) && Ver(ps[i]) == v
  }

  lemma DeviceEdgeTakes(device: Package, ps: seq<Package>, j: nat)
    requires j < |EdgesFrom(device, ps)|
    ensures var e := EdgesFrom(device, ps)[j]; e.package < |ps| && EdgeOf(ps, device, e)
  {
    EdgesFromMeaning(device, ps, EdgesFrom(device, ps)[j]);
  }

  /** Every package the device can take has an edge, behind those of the packages before it. */
  lemma DeviceEdgeExists(device: Package, ps: seq<Package>, i: nat) returns (j: nat)
    requires i < |ps| && Installable(device, ps[i])
    ensures j < |EdgesFrom(device, ps)| && EdgesFrom(device, ps)[j] == Edge(Ver(device), Ver(ps[i]), i)
    ensures forall k :: 0 <= k < |EdgesFrom(device, ps)| && EdgesFrom(device, ps)[k].package > i ==> j < k
  {
    var e := Edge(Ver(device), Ver(ps[i]), i);
    EdgesFromMeaning(device, ps, e);
    EdgesAlongOrdered(Ver(device), Versions(ps), TakenBy(device, ps), |ps|);
    j :| 0 <= j < |EdgesFrom(device, ps)| && EdgesFrom(device, ps)[j] == e;
  }

  /** A device edge is preferred over every parallel edge between packages, and among the
      device edges the package listed first is taken. */
  lemma FirstLabelPrefersDevice(device: Package, ps: seq<Package>, v: Version, i: nat)
    requires IsFirstLabel(UpdateGraph(device, ps), Ver(device), v, i)
    ensures i < |ps| && Ver(ps[i]) == v
    ensures Installable(device, ps[i]) <==> DeviceTakes(device, ps, |ps|, v)
    ensures Installable(device, ps[i]) ==> !DeviceTakes(device, ps, i, v)
    ensures !Installable(device, ps[i]) ==> exists b :: b in ps && Ver(b) == Ver(device) && Installable(b, ps[i])
  {
    var g := UpdateGraph(device, ps);
    var j: nat :| IsFirst(g, Ver(device), v, j) && g[j].package == i;
    NoEarlierDeviceEdge(device, ps, v, i, j);
    if j < |EdgesFrom(device, ps)| {
      DeviceEdgeTakes(device, ps, j);
    } else {
      assert g[j] in PackageEdges(ps, |ps|);
      PackageEdgesMeaning(ps, |ps|, g[j]);
      var k :| 0 <= k < |ps| && EdgeOf(ps, ps[k], g[j]);
    }
  }

  /** No package the device can take for v has its edge before the first one. */
  lemma NoEarlierDeviceEdge(device: Package, ps: seq<Package>, v: Version, i: nat, j: nat)
    requires IsFirst(UpdateGraph(device, ps), Ver(device), v, j) && UpdateGraph(device, ps)[j].package == i
    ensures forall k :: 0 <= k < |ps| && Installable(device, ps[k]) && Ver(ps[k]) == v ==> k >= i && j < |EdgesFrom(device, ps)|
  {
    var a, b := EdgesFrom(device, ps), PackageEdges(ps, |ps|);
    forall k | 0 <= k < |ps| && Installable(device, ps[k]) && Ver(ps[k]) == v ensures k >= i && j < |a| {
      var l := DeviceEdgeExists(device, ps, k);
      assert (a + b)[l] == a[l] && Joins((a + b)[l], Ver(device), v);
      assert l >= j;
    }
  }

  /** The answer is the package of the first hop of a shortest route, and the device can
      install it exactly when the device can install any package with that version. */
  lemma AnswerIsFirstHop(device: Package, ps: seq<Package>, t: Version, i: nat)
    requires IsAnswer(device, ps, t, i)
    ensures i < |ps|
    ensures exists r :: IsShortest(UpdateGraph(device, ps), r, Ver(device), t) && |r| >= 2 && r[1] == Ver(ps[i])
    ensures Installable(device, ps[i]) <==> DeviceTakes(device, ps, |ps|, Ver(ps[i]))
  {
    var g := UpdateGraph(device, ps);
    var r :| IsShortest(g, r, Ver(device), t) && |r| >= 2 && IsFirstLabel(g, r[0], r[1], i);
    FirstLabelPrefersDevice(device, ps, r[1], i);
  }

  /** An answer in terms of the metadata: another version, installable on the device or, at worst, on
      an assigned package of the device's version; and the former if any package of that
      version is, and then the first one of them. */
  lemma AnswerMeans(device: Package, ps: seq<Package>, t: Version, i: nat)
    requires IsAnswer(device, ps, t, i)
    ensures i < |ps| && Ver(ps[i]) != Ver(device)
    ensures exists b :: (b == device || b in ps) && Ver(b) == Ver(device) && Installable(b, ps[i])
    ensures forall k :: 0 <= k < |ps| && Ver(ps[k]) == Ver(ps[i]) && Installable(device, ps[k]) ==>
              i <= k && Installable(device, ps[i])
    ensures DeviceTakes(device, ps, |ps|, t) ==> Ver(ps[i]) == t
  {
    var g := UpdateGraph(device, ps);
    var r :| IsShortest(g, r, Ver(device), t) && |r| >= 2 && IsFirstLabel(g, r[0], r[1], i);
    FirstLabelPrefersDevice(device, ps, r[1], i);
    if DeviceTakes(device, ps, |ps|, t) {
      DirectRoute(device, ps, t);
    }
  }

  /** A package that the device can take is a route of one hop. */
  lemma DirectRoute(device: Package, ps: seq<Package>, t: Version)
    requires DeviceTakes(device, ps, |ps|, t)
    ensures IsRoute(UpdateGraph(device, ps), [Ver(device), t], Ver(device), t)
    ensures Known(device, ps, t) && t != Ver(device)
  {
    var i :| 0 <= i < |ps| && Installable(device, ps[i]) && Ver(ps[i]) == t;
    var e := Edge(Ver(device), t, i);
    GraphMeaning(device, ps, e);
    assert EdgeOf(ps, device, e);
    assert Joined(UpdateGraph(device, ps), Ver(device), t);
  }

  /** What is worth knowing about a target: whether it is known; that a device on the target has a
      route without a hop, and no longer one is shortest; and that a package that the device can
      take is a route. */
  lemma TargetFacts(device: Package, ps: seq<Package>, t: Version)
    ensures Known(device, ps, t) <==>
            || t == device["rdfm.software.version"]
            || exists p :: p in ps && p["rdfm.hardware.devtype"] == device["rdfm.hardware.devtype"] && p["rdfm.software.version"] == t
    ensures t == Ver(device) ==> IsRoute(UpdateGraph(device, ps), [Ver(device)], Ver(device), t)
    ensures forall i :: 0 <= i < |ps| && Ver(ps[i]) == t && Installable(device, ps[i]) ==>
              && DeviceTakes(device, ps, |ps|, t) && Known(device, ps, t) && t != Ver(device)
              && Reachable(UpdateGraph(device, ps), Ver(device), t)
  {
    forall i | 0 <= i < |ps| && Ver(ps[i]) == t && Installable(device, ps[i])
      ensures DeviceTakes(device, ps, |ps|, t) && Known(device, ps, t) && t != Ver(device)
      ensures Reachable(UpdateGraph(device, ps), Ver(device), t)
    {
      DirectRoute(device, ps, t);
    }
  }

  class PackageResolver {
    const device: Package
    const packages: seq<Package>
    const policy: Policy

    constructor (device: Package, packages: seq<Package>, policy: Policy)
      ensures this.device == device && this.packages == packages && this.policy == policy
    {
      this.device := device;
      this.packages := packages;
      this.policy := policy;
    }

    /** Adds a node per version of a package with the device's own type. */
    method AddVersions(g: MultiDiGraph)
      requires g.nodes == {} && g.edges == []
      modifies g
      ensures g.edges == []
      ensures forall v :: v in g.nodes <==> Known(device, packages, v)
    {
      g.AddNode(device[META_SOFT_VER]);
      for i := 0 to |packages|
        invariant g.edges == []
        invariant forall v :: v in g.nodes <==> KnownAmong(device, packages, i, v)
      {
        var p := packages[i];
        if p[META_DEVICE_TYPE] != device[META_DEVICE_TYPE] {
          continue;
        }
        g.AddNode(p[META_SOFT_VER]);
      }
    }

    /** Adds an edge for the package idx if it can be installed on `base`, behind those for the
        packages before it. */
    method AddEdgeIfInstallable(g: MultiDiGraph, base: Package, idx: nat, ghost was: seq<Edge>)
      requires idx < |packages| && g.edges == was + EdgesUpTo(base, packages, idx)
      modifies g
      ensures g.edges == was + EdgesUpTo(base, packages, idx + 1)
    {
      NextAlong(was, Ver(base), Versions(packages), TakenBy(base, packages), idx);
      var ok := RequirementsSatisfied(base, packages[idx]);
      if !ok {
        return;
      }
      g.AddEdge(base[META_SOFT_VER], packages[idx][META_SOFT_VER], idx);
    }

    /** Adds an edge for every package that can be installed on `base`. */
    method AddEdges(g: MultiDiGraph, base: Package)
      modifies g
      ensures g.edges == old(g.edges) + EdgesFrom(base, packages)
    {
      ghost var was := g.edges;
      NothingYet(was, base, packages);
      for idx := 0 to |packages|
        invariant g.edges == was + EdgesUpTo(base, packages, idx)
      {
        AddEdgeIfInstallable(g, base, idx, was);
      }
    }

    /** Adds the edges out of the device, then those out of every package. */
    method BuildEdges(g: MultiDiGraph)
      requires g.edges == []
      modifies g
      ensures g.edges == UpdateGraph(device, packages)
    {
      AddEdges(g, device);
      for b := 0 to |packages|
        invariant g.edges == EdgesFrom(device, packages) + PackageEdges(packages, b)
      {
        AddEdges(g, packages[b]);
        Regroup(EdgesFrom(device, packages), PackageEdges(packages, b), EdgesFrom(packages[b], packages));
      }
    }

    /** Labels the consecutive pairs of a node path with the first of their parallel edges. */
    method LabelPath(g: MultiDiGraph, sp: seq<Version>) returns (path: seq<nat>)
      requires |sp| > 0 && IsRoute(g.edges, sp, sp[0], sp[|sp| - 1])
      ensures |path| == |sp| - 1
      ensures forall k :: 0 <= k < |path| ==> IsFirstLabel(g.edges, sp[k], sp[k + 1], path[k])
    {
      path := [];
      for k := 0 to |sp| - 1
        invariant |path| == k
        invariant forall j :: 0 <= j < k ==> IsFirstLabel(g.edges, sp[j], sp[j + 1], path[j])
      {
        assert Joined(g.edges, sp[k], sp[k + 1]);
        var j := FirstBetween(g, sp[k], sp[k + 1]);
        path := path + [g.edges[j].package];
      }
    }

    /** All edges cost the same, so the cheapest of several parallel ones is the first. */
    method FirstBetween(g: MultiDiGraph, u: Version, v: Version) returns (j: nat)
      requires Joined(g.edges, u, v)
      ensures IsFirst(g.edges, u, v, j)
    {
      j := 0;
      while j < |g.edges| && !Joins(g.edges[j], u, v)
        invariant j <= |g.edges|
        invariant forall k :: 0 <= k < j ==> !Joins(g.edges[k], u, v)
      {
        j := j + 1;
      }
    }

    /** Returns the package to install next.  In terms of the metadata: the package has another
        version, and all it requires is what the device carries, or else what an assigned package of
        the device's version carries; and a package that takes the device to the target at
        once is found. */
    method Resolve() returns (r: Option<nat>)
      ensures r.Some? ==> policy.ExactMatch? && IsAnswer(device, packages, policy.version, r.value)
      ensures r.None? <==>
              || policy.NoUpdate?
              || (forall p :: p in packages && p["rdfm.hardware.devtype"] == device["rdfm.hardware.devtype"] ==>
                    p["rdfm.software.version"] != policy.version)
              || policy.version == device["rdfm.software.version"]
              || !Reachable(UpdateGraph(device, packages), Ver(device), policy.version)
      ensures r.Some? ==> r.value < |packages| && packages[r.value]["rdfm.software.version"] != device["rdfm.software.version"]
      ensures r.Some? && Installable(device, packages[r.value]) ==>
                var p := packages[r.value];
                && (forall k :: k in p && "requires:" <= k ==> k[9..] in device && device[k[9..]] == p[k])
                && p["rdfm.hardware.devtype"] == device["rdfm.hardware.devtype"]
      ensures r.Some? && !Installable(device, packages[r.value]) ==>
                && (forall p :: p in packages && Ver(p) == Ver(packages[r.value]) ==> !Installable(device, p))
                && exists b :: b in packages && Ver(b) == Ver(device) && Installable(b, packages[r.value])
      ensures forall i :: 0 <= i < |packages| && policy == ExactMatch(Ver(packages[i])) && Installable(device, packages[i]) ==>
                r.Some? && r.value <= i && Ver(packages[r.value]) == policy.version && Installable(device, packages[r.value])
    {
      if policy.ExactMatch? {
        TargetFacts(device, packages, policy.version);
      }
      var target := policy.Evaluate();
      if target.None? {
        return None;
      }
      var g := new MultiDiGraph();
      AddVersions(g);
      if target.value !in g.nodes {
        return None;
      }
      BuildEdges(g);
      var sp := g.ShortestPath(device[META_SOFT_VER], target.value);
      if sp.None? {
        return None;
      }
      var path := LabelPath(g, sp.value);
      if |path| == 0 {
        return None;
      }
      AnswerMeans(device, packages, policy.version, path[0]);
      InstallableMeans(device, packages[path[0]]);
      return Some(path[0]);
    }
  }
}
