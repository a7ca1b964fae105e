/** Groups, devices, and the assignment of devices to groups in the server's database.  A
    device follows the group of least priority among those it is assigned to, so the groups
    of a device must have different priorities. */
module GroupsDb {
  import opened Wrappers

  /** The rows of the tables: group priorities by id, device ids, the pairs (device, group) of
      the assignment, and the groups that have packages. */
  datatype Tables = Tables(groups: map<nat, int>, devices: set<nat>, members: set<(nat, nat)>, packaged: set<nat>)

  datatype Error = PriorityTaken | Conflict | NoSuchGroup

  /** The foreign keys hold. */
  ghost predicate Linked(t: Tables) {
    && (forall d, g :: (d, g) in t.members ==> d in t.devices && g in t.groups)
    && (forall g :: g in t.packaged ==> g in t.groups)
  }

  /** No device is in two groups of the same priority. */
  ghost predicate Distinct(t: Tables)
    requires Linked(t)
  {
    forall d, g, h :: (d, g) in t.members && (d, h) in t.members && g != h ==> t.groups[g] != t.groups[h]
  }

  ghost predicate Good(t: Tables) { Linked(t) && Distinct(t) }

  /** Device d is in a group of priority p, other than the group `except`. */
  predicate Taken(t: Tables, d: nat, p: int, except: Option<nat>) {
    exists a :: a in t.members && a.0 == d && a.1 in t.groups && t.groups[a.1] == p && Some(a.1) != except
  }

  /** What adding and then removing devices does to the assignment. */
  function Reassigned(t: Tables, g: nat, additions: seq<nat>, removals: seq<nat>): Tables {
    t.(members := t.members + (set d | d in additions :: (d, g)) - (set d | d in removals :: (d, g)))
  }

  ghost predicate NoRepeats(s: seq<nat>) {
    forall i, j :: 0 <= i < j < |s| ==> s[i] != s[j]
  }

  /** The reason a change of assignment is rejected for, if any.  The first two are found out
      by a query, the last one by the constraints as the rows are inserted. */
  ghost function AssignmentError(t: Tables, g: nat, additions: seq<nat>): Option<Error> {
    if additions == [] then None
    else if g !in t.groups then Some(NoSuchGroup)
    else if exists d :: d in additions && Taken(t, d, t.groups[g], None) then Some(PriorityTaken)
    else if !NoRepeats(additions) || exists d :: d in additions && d !in t.devices then Some(Conflict)
    else None
  }

  ghost function PriorityError(t: Tables, g: nat, priority: int): Option<Error> {
    if exists d :: (d, g) in t.members && Taken(t, d, priority, Some(g)) then Some(PriorityTaken) else None
  }

  datatype Op =
    | Create(id: nat, priority: int)
    | Delete(id: nat)
    | Assign(id: nat, additions: seq<nat>, removals: seq<nat>)
    | SetPriority(id: nat, priority: int)
    | SetPackages(id: nat, any: bool)
    | AddDevice(device: nat)
    | DeleteDevice(device: nat)

  /** The reason an operation is rejected for, if any. */
  ghost function Rejection(t: Tables, op: Op): Option<Error> {
    match op
    case Create(id, _) => if id in t.groups then Some(Conflict) else None
    case Delete(id) => if id in t.packaged || exists d :: (d, id) in t.members then Some(Conflict) else None
    case Assign(id, additions, _) => AssignmentError(t, id, additions)
    case SetPriority(id, priority) => PriorityError(t, id, priority)
    case SetPackages(id, any) => if any && id !in t.groups then Some(Conflict) else None
    case AddDevice(device) => if device in t.devices then Some(Conflict) else None
    case DeleteDevice(_) => None
  }

  /** The tables after an operation that is not rejected. */
  function Effect(t: Tables, op: Op): Tables {
    match op
    case Create(id, priority) => t.(groups := t.groups[id := priority])
    case Delete(id) => t.(groups := t.groups - {id})
    case Assign(id, additions, removals) => Reassigned(t, id, additions, removals)
    case SetPriority(id, priority) => if id in t.groups then t.(groups := t.groups[id := priority]) else t
    case SetPackages(id, any) => t.(packaged := if any then t.packaged + {id} else t.packaged - {id})
    case AddDevice(device) => t.(devices := t.devices + {device})
    case DeleteDevice(device) =>
      t.(devices := t.devices - {device}, members := set a | a in t.members && a.0 != device)
  }

  ghost function Apply(t: Tables, op: Op): Tables {
    if Rejection(t, op).Some? then t else Effect(t, op)
  }

  ghost function ApplyAll(t: Tables, ops: seq<Op>): Tables {
    if ops == [] then t else Apply(ApplyAll(t, ops[..|ops| - 1]), ops[|ops| - 1])
  }

  const EMPTY := Tables(map[], {}, {}, {})

  lemma AssignKeepsGood(t: Tables, g: nat, additions: seq<nat>, removals: seq<nat>)
    requires Good(t) && AssignmentError(t, g, additions).None?
    ensures Good(Reassigned(t, g, additions, removals))
  {
    var u := Reassigned(t, g, additions, removals);
    forall d, h | (d, h) in u.members ensures (d, h) in t.members || (d in additions && h == g) {
    }
    forall d, h, k | (d, h) in u.members && (d, k) in u.members && h != k ensures u.groups[h] != u.groups[k] {
      if h == g && (d, h) !in t.members {
        assert !Taken(t, d, t.groups[g], None);
        assert (d, k) in t.members;
      } else if k == g && (d, k) !in t.members {
        assert !Taken(t, d, t.groups[g], None);
        assert (d, h) in t.members;
      }
    }
  }

  lemma PriorityKeepsGood(t: Tables, g: nat, priority: int)
    requires Good(t) && PriorityError(t, g, priority).None?
    ensures Good(Effect(t, SetPriority(g, priority)))
  {
    var u := Effect(t, SetPriority(g, priority));
    forall d, h, k | (d, h) in u.members && (d, k) in u.members && h != k ensures u.groups[h] != u.groups[k] {
      if h == g {
        assert !Taken(t, d, priority, Some(g));
      } else if k == g {
        assert !Taken(t, d, priority, Some(g));
      }
    }
  }

  lemma ApplyKeepsGood(t: Tables, op: Op)
    requires Good(t)
    ensures Good(Apply(t, op))
  {
    if Rejection(t, op).None? {
      match op
      case Assign(id, additions, removals) => AssignKeepsGood(t, id, additions, removals);
      case SetPriority(id, priority) => PriorityKeepsGood(t, id, priority);
      case _ =>
    }
  }

  /** Whatever serial sequence of operations the database goes through, no device is ever in
      two groups of the same priority, and no assignment is left dangling. */
  lemma {:induction false} AlwaysGood(ops: seq<Op>)
    ensures Good(ApplyAll(EMPTY, ops))
    ensures var t := ApplyAll(EMPTY, ops);
            && (forall d, g :: (d, g) in t.members ==> d in t.devices && g in t.groups)
            && (forall d, g, h :: (d, g) in t.members && (d, h) in t.members && g != h ==> t.groups[g] != t.groups[h])
  {
    if ops != [] {
      AlwaysGood(ops[..|ops| - 1]);
      ApplyKeepsGood(ApplyAll(EMPTY, ops[..|ops| - 1]), ops[|ops| - 1]);
    }
  }

  /** Why an assignment change goes through: no queried priority is in use, no device is listed
      twice, and all devices exist. */
  lemma NoAssignmentError(t: Tables, g: nat, additions: seq<nat>)
    requires additions != [] ==> g in t.groups
    requires forall k :: 0 <= k < |additions| ==> !Taken(t, additions[k], t.groups[g], None) && additions[k] in t.devices
    requires NoRepeats(additions)
    ensures AssignmentError(t, g, additions).None?
  {
  }

  class Database {
    var groups: map<nat, int>
    var devices: set<nat>
    var members: set<(nat, nat)>
    var packaged: set<nat>

    constructor ()
      ensures State() == EMPTY
    {
      groups, devices, members, packaged := map[], {}, {}, {};
    }

    function State(): Tables reads this {
      Tables(groups, devices, members, packaged)
    }

    method Create(priority: int) returns (id: nat)
      modifies this`groups
      ensures Rejection(old(State()), Op.Create(id, priority)).None?
      ensures State() == Apply(old(State()), Op.Create(id, priority))
      ensures id !in old(groups) && groups == old(groups)[id := priority]
    {
      id := FreshId(groups.Keys);
      groups := groups[id := priority];
    }

    /** Fails while the group has devices or packages. */
    method Delete(id: nat) returns (ok: bool)
      requires Good(State())
      modifies this`groups
      ensures ok == Rejection(old(State()), Op.Delete(id)).None?
      ensures State() == Apply(old(State()), Op.Delete(id)) && Good(State())
      ensures ok <==> id !in packaged && forall d :: (d, id) !in members
      ensures groups == if ok then old(groups) - {id} else old(groups)
    {
      ApplyKeepsGood(State(), Op.Delete(id));
      if id in packaged || exists a :: a in members && a.1 == id {
        assert id !in packaged ==> exists d :: (d, id) in members;
        return false;
      }
      groups := groups - {id};
      return true;
    }

    /** Inserts the rows for the additions, or rejects the whole transaction. */
    method InsertRows(id: nat, additions: seq<nat>) returns (rows: set<(nat, nat)>, ok: bool)
      requires forall k :: 0 <= k < |additions| ==> (additions[k], id) !in members
      ensures ok <==> NoRepeats(additions) && forall k :: 0 <= k < |additions| ==> additions[k] in devices
      ensures ok ==> rows == members + set d | d in additions :: (d, id)
    {
      rows := members;
      for i := 0 to |additions|
        invariant rows == members + set d | d in additions[..i] :: (d, id)
        invariant forall k :: 0 <= k < i ==> additions[k] in devices
        invariant forall j, k :: 0 <= j < k < i ==> additions[j] != additions[k]
      {
        var row := (additions[i], id);
        if additions[i] !in devices || row in rows {
          assert row in rows ==> exists k :: 0 <= k < i && additions[k] == additions[i];
          return rows, false;
        }
        assert additions[..i + 1] == additions[..i] + [additions[i]];
        rows := rows + {row};
      }
      assert additions[..|additions|] == additions;
      ok := true;
    }

    method ModifyAssignment(id: nat, additions: seq<nat>, removals: seq<nat>) returns (err: Option<Error>)
      requires Good(State())
      modifies this`members
      ensures err == Rejection(old(State()), Assign(id, additions, removals))
      ensures State() == Apply(old(State()), Assign(id, additions, removals)) && Good(State())
      ensures err == Some(NoSuchGroup) <==> additions != [] && id !in groups
      ensures err == Some(PriorityTaken) <==>
                id in groups && exists d, g :: d in additions && (d, g) in old(members) && groups[g] == groups[id]
      ensures id in groups && err.None? ==>
                && (forall d :: d in additions ==> d in devices)
                && (forall i, j :: 0 <= i < j < |additions| ==> additions[i] != additions[j])
      ensures err == Some(Conflict) ==>
                || (exists d :: d in additions && d !in devices)
                || (exists i, j :: 0 <= i < j < |additions| && additions[i] == additions[j])
      ensures if err.Some? then members == old(members)
              else forall d, g :: (d, g) in members <==>
                     ((d, g) in old(members) || (g == id && d in additions)) && !(g == id && d in removals)
    {
      ghost var t := State();
      ApplyKeepsGood(t, Assign(id, additions, removals));
      var current := if id in groups then Some(groups[id]) else None;
      for i := 0 to |additions|
        invariant i > 0 ==> current.Some?
        invariant forall k :: 0 <= k < i ==> !Taken(t, additions[k], current.value, None)
      {
        if current.None? {
          return Some(NoSuchGroup);
        }
        if Taken(State(), additions[i], current.value, None) {
          assert additions[i] in additions;
          return Some(PriorityTaken);
        }
      }
      assert forall k :: 0 <= k < |additions| && (additions[k], id) in members ==> Taken(t, additions[k], t.groups[id], None);
      var rows, ok := InsertRows(id, additions);
      if !ok {
        return Some(Conflict);
      }
      NoAssignmentError(t, id, additions);
      members := rows;
      members := members - set d | d in removals :: (d, id);
      err := None;
    }

    method UpdatePriority(id: nat, priority: int) returns (err: Option<Error>)
      requires Good(State())
      modifies this`groups
      ensures err == Rejection(old(State()), SetPriority(id, priority))
      ensures State() == Apply(old(State()), SetPriority(id, priority)) && Good(State())
      ensures err.Some? <==>
                exists d, g :: (d, id) in members && (d, g) in members && g != id && old(groups)[g] == priority
      ensures groups == if err.None? && id in old(groups) then old(groups)[id := priority] else old(groups)
    {
      ghost var t := State();
      ApplyKeepsGood(t, SetPriority(id, priority));
      var rest := set a | a in members && a.1 == id :: a.0;
      while rest != {}
        invariant State() == t && rest <= set a | a in members && a.1 == id :: a.0
        invariant forall d :: (d, id) in members && d !in rest ==> !Taken(t, d, priority, Some(id))
        decreases rest
      {
        var d :| d in rest;
        rest := rest - {d};
        var groupIds := FetchGroups(d);
        for i := 0 to |groupIds|
          invariant State() == t && (i > 0 ==> !Taken(t, d, priority, Some(id)))
        {
          if Taken(State(), d, priority, Some(id)) {
            assert (d, id) in members;
            return Some(PriorityTaken);
          }
        }
      }
      if id in groups {
        groups := groups[id := priority];
      }
      err := None;
    }

    method SetPackages(id: nat, any: bool) returns (err: Option<Error>)
      requires Good(State())
      modifies this`packaged
      ensures err == Rejection(old(State()), Op.SetPackages(id, any))
      ensures State() == Apply(old(State()), Op.SetPackages(id, any)) && Good(State())
    {
      ApplyKeepsGood(State(), Op.SetPackages(id, any));
      if any && id !in groups {
        return Some(Conflict);
      }
      packaged := if any then packaged + {id} else packaged - {id};
      err := None;
    }

    method InsertDevice() returns (device: nat)
      requires Good(State())
      modifies this`devices
      ensures Rejection(old(State()), AddDevice(device)).None?
      ensures State() == Apply(old(State()), AddDevice(device)) && Good(State())
    {
      device := FreshId(devices);
      ApplyKeepsGood(State(), AddDevice(device));
      devices := devices + {device};
    }

    method DeleteDevice(device: nat)
      requires Good(State())
      modifies this
      ensures State() == Apply(old(State()), Op.DeleteDevice(device)) && Good(State())
      ensures groups == old(groups) && packaged == old(packaged) && devices == old(devices) - {device}
      ensures forall d, g :: (d, g) in members <==> (d, g) in old(members) && d != device
    {
      ApplyKeepsGood(State(), Op.DeleteDevice(device));
      members := set a | a in members && a.0 != device;
      devices := devices - {device};
    }

    /** The groups of a device, in whatever order the database returns them. */
    method FetchGroups(device: nat) returns (ids: seq<nat>)
      ensures forall g :: g in ids <==> (device, g) in members
    {
      ids := [];
      var rest := set a | a in members && a.0 == device :: a.1;
      while rest != {}
        invariant forall g :: g in rest ==> (device, g) in members
        invariant forall g :: (device, g) in members <==> g in ids || g in rest
        decreases rest
      {
        var g :| g in rest;
        rest := rest - {g};
        ids := ids + [g];
      }
    }

    /** The group a device follows: its group of least priority, and there is only one. */
    method FetchActiveGroup(device: nat) returns (active: Option<nat>)
      requires Good(State())
      ensures active.None? <==> forall g :: (device, g) !in members
      ensures active.Some? ==> (device, active.value) in members && active.value in groups
      ensures active.Some? ==>
                forall g :: (device, g) in members && g != active.value ==> groups[active.value] < groups[g]
    {
      var ids := FetchGroups(device);
      if ids == [] {
        return None;
      }
      assert forall k :: 0 <= k < |ids| ==> ids[k] in ids && ids[k] in groups;
      var prios: seq<int> := [];
      for i := 0 to |ids|
        invariant |prios| == i && forall k :: 0 <= k < i ==> prios[k] == groups[ids[k]]
      {
        prios := prios + [groups[ids[i]]];
      }
      var best := FirstMin(prios);
      assert ids[best] in ids;
      active := Some(ids[best]);
      forall g | (device, g) in members && g != ids[best] ensures groups[ids[best]] < groups[g] {
        var k :| 0 <= k < |ids| && ids[k] == g;
        assert prios[best] <= prios[k];
      }
    }
  }

  /** An identifier that is not in use. */
  method FreshId(used: set<nat>) returns (id: nat)
    ensures id !in used
  {
    id := 0;
    var rest := used;
    while rest != {}
      invariant rest <= used && forall k :: k in used && k !in rest ==> k < id
      decreases rest
    {
      var k :| k in rest;
      rest := rest - {k};
      id := if k >= id then k + 1 else id;
    }
  }

  method FirstMin(s: seq<int>) returns (best: nat)
    requires s != []
    ensures best < |s| && forall k :: 0 <= k < |s| ==> s[best] <= s[k]
    ensures forall k :: 0 <= k < best ==> s[best] < s[k]
  {
    best := 0;
    for i := 0 to |s|
      invariant best < |s| && (i == 0 ==> best == 0)
      invariant forall k :: 0 <= k < i ==> s[best] <= s[k]
      invariant forall k :: 0 <= k < best ==> s[best] < s[k]
    {
      if s[i] < s[best] {
        best := i;
      }
    }
  }
}
