/** What the update resolver promises: the hop it hands out can be installed exactly
    when the device itself can take it, and repeated updates reach the target. */
module UpdateRun {
  import opened Digraph
  import opened Resolver

  // When is every answer installable?

  ghost predicate AnswersInstallable(device: Package, ps: seq<Package>) {
    forall t, i: nat :: IsAnswer(device, ps, t, i) ==> i < |ps| && Installable(device, ps[i])
  }

  /** Whatever an assigned package with the device's own version takes, the device takes
      some package of that version too. */
  ghost predicate Covered(device: Package, ps: seq<Package>) {
    forall b, i :: b in ps && Ver(b) == Ver(device) && 0 <= i < |ps| && Installable(b, ps[i]) ==>
      DeviceTakes(device, ps, |ps|, Ver(ps[i]))
  }

  /** The version v is one hop away by package edges alone, and starts a shortest route
      to some target a policy could name. */
  ghost predicate ForeignHop(device: Package, ps: seq<Package>, v: Version) {
    var g := UpdateGraph(device, ps);
    && Joined(g, Ver(device), v) && !DeviceTakes(device, ps, |ps|, v)
    && exists t, r :: Known(device, ps, t) && IsShortest(g, r, Ver(device), t) && |r| >= 2 && r[1] == v
  }

  lemma LabelExists(device: Package, ps: seq<Package>, v: Version) returns (i: nat)
    requires Joined(UpdateGraph(device, ps), Ver(device), v)
    ensures IsFirstLabel(UpdateGraph(device, ps), Ver(device), v, i)
  {
    var g := UpdateGraph(device, ps);
    var e :| e in g && e.src == Ver(device) && e.dst == v;
    var k :| 0 <= k < |g| && g[k] == e;
    var j := FirstUpTo(g, Ver(device), v, k);
    i := g[j].package;
  }

  lemma FirstUpTo(edges: seq<Edge>, u: Version, v: Version, k: nat) returns (j: nat)
    requires k < |edges| && Joins(edges[k], u, v)
    ensures IsFirst(edges, u, v, j)
  {
    if l :| 0 <= l < k && Joins(edges[l], u, v) {
      j := FirstUpTo(edges, u, v, l);
    } else {
      j := k;
    }
  }

  /** Every answer can be installed, whatever the policy and whichever shortest route the
      search takes, if and only if no foreign hop starts a shortest route. */
  lemma AnswersInstallableIff(device: Package, ps: seq<Package>)
    ensures AnswersInstallable(device, ps) <==> forall v :: !ForeignHop(device, ps, v)
  {
    var g := UpdateGraph(device, ps);
    if AnswersInstallable(device, ps) {
      forall v | ForeignHop(device, ps, v) ensures false {
        var t, r :| Known(device, ps, t) && IsShortest(g, r, Ver(device), t) && |r| >= 2 && r[1] == v;
        var i := LabelExists(device, ps, v);
        assert IsAnswer(device, ps, t, i);
        AnswerIsFirstHop(device, ps, t, i);
        FirstLabelPrefersDevice(device, ps, v, i);
      }
    } else {
      var t, i: nat :| IsAnswer(device, ps, t, i) && !(i < |ps| && Installable(device, ps[i]));
      var r :| IsShortest(g, r, Ver(device), t) && |r| >= 2 && IsFirstLabel(g, r[0], r[1], i);
      FirstLabelPrefersDevice(device, ps, r[1], i);
      assert Joined(g, r[0], r[1]);
      assert ForeignHop(device, ps, r[1]);
    }
  }

  /** A check on the metadata alone is enough: when the device takes whatever its
      version's packages take, no incompatible package is ever handed out. */
  lemma CoveredIsEnough(device: Package, ps: seq<Package>)
    requires Covered(device, ps)
    ensures AnswersInstallable(device, ps)
  {
    forall v | ForeignHop(device, ps, v) ensures false {
      var i := LabelExists(device, ps, v);
      FirstLabelPrefersDevice(device, ps, v, i);
    }
    AnswersInstallableIff(device, ps);
  }

  /** When all assigned packages are made for the device's type the check is exact. */
  lemma CoveredIsNeeded(device: Package, ps: seq<Package>)
    requires forall p :: p in ps ==> DevType(p) == DevType(device)
    ensures AnswersInstallable(device, ps) <==> Covered(device, ps)
  {
    if Covered(device, ps) {
      CoveredIsEnough(device, ps);
    } else if AnswersInstallable(device, ps) {
      var b, i :| b in ps && Ver(b) == Ver(device) && 0 <= i < |ps| && Installable(b, ps[i]) && !DeviceTakes(device, ps, |ps|, Ver(ps[i]));
      var k :| 0 <= k < |ps| && ps[k] == b;
      var e := Edge(Ver(device), Ver(ps[i]), i);
      assert EdgeOf(ps, ps[k], e);
      GraphMeaning(device, ps, e);
      var g, r := UpdateGraph(device, ps), [Ver(device), Ver(ps[i])];
      OneHopIsShortest(g, Ver(device), Ver(ps[i]));
      assert Known(device, ps, Ver(ps[i]));
      assert r[1] == Ver(ps[i]);
      assert ForeignHop(device, ps, Ver(ps[i]));
      AnswersInstallableIff(device, ps);
    }
  }

  // A device on v0, and two packages for its type: one carries v0 together with a key
  // the device lacks, the other is v1 and requires that key.

  const DEVICE: Package := map[META_SOFT_VER := "v0", META_DEVICE_TYPE := "a"]
  const BASE: Package := map[META_SOFT_VER := "v0", META_DEVICE_TYPE := "a", "x" := "1"]
  const UPDATE: Package := map[META_SOFT_VER := "v1", META_DEVICE_TYPE := "a", "requires:x" := "1"]

  lemma UpdateNeedsX()
    ensures Installable(BASE, UPDATE) && !Installable(DEVICE, UPDATE)
  {
    assert REQUIRES <= "requires:x" && "requires:x"[|REQUIRES|..] == "x";
    assert !(REQUIRES <= META_SOFT_VER) by {
      assert META_SOFT_VER[1] != REQUIRES[1];
    }
    assert !(REQUIRES <= META_DEVICE_TYPE) by {
      assert META_DEVICE_TYPE[1] != REQUIRES[1];
    }
    assert "requires:x" in Unmet(DEVICE, UPDATE);
    assert "v0"[1] != "v1"[1];
  }

  /** The resolver can hand out a package the device cannot install. */
  lemma IncompatibleHop()
    ensures IsAnswer(DEVICE, [BASE, UPDATE], "v1", 1) && !Installable(DEVICE, UPDATE)
  {
    UpdateNeedsX();
    var ps := [BASE, UPDATE];
    var e := Edge("v0", "v1", 1);
    assert EdgeOf(ps, ps[0], e);
    GraphMeaning(DEVICE, ps, e);
    var i := LabelExists(DEVICE, ps, "v1");
    FirstLabelPrefersDevice(DEVICE, ps, "v1", i);
    assert i == 1;
    OneHopIsShortest(UpdateGraph(DEVICE, ps), "v0", "v1");
    assert Known(DEVICE, ps, "v1");
    assert ["v0", "v1"][1] == "v1";
  }

  // Convergence

  ghost predicate Hops(device: Package, ps: seq<Package>, t: Version, d: nat) {
    exists r :: IsShortest(UpdateGraph(device, ps), r, Ver(device), t) && |r| == d + 1
  }

  /** There is a route of exactly h hops that uses packages installed on packages only. */
  ghost predicate PackageRoute(ps: seq<Package>, v: Version, t: Version, h: nat) {
    exists r :: IsRoute(PackageEdges(ps, |ps|), r, v, t) && |r| == h + 1
  }

  /** Behind its first hop a shortest route only uses edges between packages. */
  lemma TailUsesPackages(device: Package, ps: seq<Package>, t: Version, r: seq<Version>)
    requires IsShortest(UpdateGraph(device, ps), r, Ver(device), t) && |r| >= 2
    ensures IsRoute(PackageEdges(ps, |ps|), r[1..], r[1], t)
  {
    DeviceEdgesLeaveDevice(device, ps);
    TailAvoids(EdgesFrom(device, ps), PackageEdges(ps, |ps|), r, Ver(device), t);
  }

  lemma DeviceEdgesLeaveDevice(device: Package, ps: seq<Package>)
    ensures forall e :: e in EdgesFrom(device, ps) ==> e.src == Ver(device)
  {
    forall e | e in EdgesFrom(device, ps) ensures e.src == Ver(device) {
      EdgesFromMeaning(device, ps, e);
    }
  }


  /** A package route is open to any device that runs its first version. */
  lemma PackageRouteBoundsHops(device: Package, ps: seq<Package>, t: Version, h: nat) returns (d: nat)
    requires PackageRoute(ps, Ver(device), t, h)
    ensures d <= h && Hops(device, ps, t, d)
  {
    var r :| IsRoute(PackageEdges(ps, |ps|), r, Ver(device), t) && |r| == h + 1;
    MoreEdges(EdgesFrom(device, ps), PackageEdges(ps, |ps|), r, Ver(device), t);
    var q := ShortestExists(UpdateGraph(device, ps), r, Ver(device), t);
    d := |q| - 1;
  }

  /** `after` is the device `before` once it has installed an answer of the resolver; apart
      from its version and type, its metadata may have changed in any way. */
  ghost predicate Updated(ps: seq<Package>, t: Version, before: Package, after: Package) {
    exists i: nat :: IsAnswer(before, ps, t, i) && i < |ps| && Ver(after) == Ver(ps[i]) && DevType(after) == DevType(before)
  }

  lemma AnswerShortens(before: Package, ps: seq<Package>, t: Version, i: nat, d: nat)
    requires IsAnswer(before, ps, t, i) && Hops(before, ps, t, d)
    ensures i < |ps| && d > 0 && PackageRoute(ps, Ver(ps[i]), t, d - 1) && t != Ver(before)
  {
    AnswerIsFirstHop(before, ps, t, i);
    var g := UpdateGraph(before, ps);
    var r :| IsShortest(g, r, Ver(before), t) && |r| >= 2 && r[1] == Ver(ps[i]);
    TailUsesPackages(before, ps, t, r);
    ShortestLeavesStart(g, r, Ver(before), t, |r| - 1);
    var q :| IsShortest(g, q, Ver(before), t) && |q| == d + 1;
    assert |r[1..]| == d;
  }

  /** Installing an answer brings the target closer, by packages alone, and keeps it known. */
  lemma UpdateShortens(ps: seq<Package>, t: Version, before: Package, after: Package, d: nat)
    requires Updated(ps, t, before, after) && Hops(before, ps, t, d)
    ensures d > 0 && PackageRoute(ps, Ver(after), t, d - 1)
    ensures Known(after, ps, t)
  {
    var i: nat :| IsAnswer(before, ps, t, i) && i < |ps| && Ver(after) == Ver(ps[i]) && DevType(after) == DevType(before);
    AnswerShortens(before, ps, t, i, d);
    assert Known(before, ps, t);
  }

  ghost predicate IsRun(ps: seq<Package>, t: Version, devices: seq<Package>) {
    forall k :: 0 <= k < |devices| - 1 ==> Updated(ps, t, devices[k], devices[k + 1])
  }

  /** Every update of a run uses up at least one hop. */
  lemma {:induction false} RunShortens(ps: seq<Package>, t: Version, devices: seq<Package>, d: nat, n: nat) returns (h: nat)
    requires IsRun(ps, t, devices) && n < |devices| && Hops(devices[0], ps, t, d)
    requires Known(devices[0], ps, t)
    ensures h + n <= d && Hops(devices[n], ps, t, h) && Known(devices[n], ps, t)
    ensures n > 0 ==> exists p: nat :: p + n <= d && PackageRoute(ps, Ver(devices[n]), t, p)
  {
    if n == 0 {
      h := d;
    } else {
      var k := RunShortens(ps, t, devices, d, n - 1);
      assert Updated(ps, t, devices[n - 1], devices[n - 1 + 1]);
      UpdateShortens(ps, t, devices[n - 1], devices[n], k);
      h := PackageRouteBoundsHops(devices[n], ps, t, k - 1);
    }
  }

  lemma HopsUnique(device: Package, ps: seq<Package>, t: Version, d: nat, e: nat)
    requires Hops(device, ps, t, d) && Hops(device, ps, t, e)
    ensures d == e
  {
  }

  /** Convergence.  From a device d hops away from the target a run has at most d updates,
      never comes back to a version it had, and stops only at the target. */
  lemma RunConverges(ps: seq<Package>, t: Version, devices: seq<Package>, d: nat)
    requires IsRun(ps, t, devices) && devices != [] && Hops(devices[0], ps, t, d)
    requires Known(devices[0], ps, t)
    ensures |devices| - 1 <= d
    ensures forall i, j :: 0 <= i < j < |devices| ==> Ver(devices[i]) != Ver(devices[j])
    ensures var last := devices[|devices| - 1]; Ver(last) == t || exists i: nat :: IsAnswer(last, ps, t, i)
    ensures |devices| - 1 == d ==> Ver(devices[d]) == t
  {
    var n := |devices| - 1;
    var h := RunShortens(ps, t, devices, d, n);
    RunProgresses(devices[n], ps, t, h);
    forall i, j | 0 <= i < j < |devices| ensures Ver(devices[i]) != Ver(devices[j]) {
      NoReturn(ps, t, devices, d, i, j);
    }
  }

  lemma RunProgresses(device: Package, ps: seq<Package>, t: Version, h: nat)
    requires Hops(device, ps, t, h) && Known(device, ps, t)
    ensures Ver(device) == t || exists i: nat :: IsAnswer(device, ps, t, i)
    ensures h == 0 ==> Ver(device) == t
  {
    var r :| IsShortest(UpdateGraph(device, ps), r, Ver(device), t) && |r| == h + 1;
    if h > 0 {
      assert Joined(UpdateGraph(device, ps), r[0], r[1]);
      var i := LabelExists(device, ps, r[1]);
      assert IsAnswer(device, ps, t, i);
    }
  }

  lemma RunSuffix(ps: seq<Package>, t: Version, devices: seq<Package>, i: nat)
    requires IsRun(ps, t, devices) && i < |devices|
    ensures IsRun(ps, t, devices[i..])
  {
    var rest := devices[i..];
    forall k | 0 <= k < |rest| - 1 ensures Updated(ps, t, rest[k], rest[k + 1]) {
      assert Updated(ps, t, devices[i + k], devices[i + k + 1]);
    }
  }

  lemma PackageRouteIsNoShorter(device: Package, ps: seq<Package>, t: Version, h: nat, p: nat)
    requires Hops(device, ps, t, h) && PackageRoute(ps, Ver(device), t, p)
    ensures h <= p
  {
    var e := PackageRouteBoundsHops(device, ps, t, p);
    HopsUnique(device, ps, t, h, e);
  }

  lemma NoReturn(ps: seq<Package>, t: Version, devices: seq<Package>, d: nat, i: nat, j: nat)
    requires IsRun(ps, t, devices) && i < j < |devices| && Hops(devices[0], ps, t, d)
    requires Known(devices[0], ps, t)
    ensures Ver(devices[i]) != Ver(devices[j])
  {
    var h := RunShortens(ps, t, devices, d, i);
    RunSuffix(ps, t, devices, i);
    var h' := RunShortens(ps, t, devices[i..], h, j - i);
    var p: nat :| p + (j - i) <= h && PackageRoute(ps, Ver(devices[i..][j - i]), t, p);
    if Ver(devices[i]) == Ver(devices[j]) {
      PackageRouteIsNoShorter(devices[i], ps, t, h, p);
    }
  }
}
