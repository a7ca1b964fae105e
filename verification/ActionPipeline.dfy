/** The action pipeline of the Linux client: callers store requests, a command loop takes
    and executes them and stores the results, and a responder loop hands the results to a
    callback.  Any number of callers, both loops and crashes are interleaved step by step;
    a lock of a queue is held from the file step of a push or pop to its memory step. */
module ActionPipeline {
  import opened Wrappers
  import opened QueueSpec

  datatype Request = Request(execId: string, actionId: string)
  datatype Result = Result(execId: string, status: int, output: string)

  /** An item and its place in the order in which the items were stored. */
  datatype Numbered<T> = Numbered(no: nat, item: T)

  /** Where the command loop stands, and the number of the request it is working on. */
  datatype Command =
    | Idle
    | Waited
    | Removed(no: nat, req: Request)              // file gone, still in memory; holds the request lock
    | Popped(no: nat, req: Request)
    | Running(no: nat, req: Request)
    | Finished(no: nat, result: Result)
    | HoldsSlot(no: nat, result: Result)
    | ResultWritten(no: nat, result: Result)      // file there, not yet in memory; holds the result lock

  datatype Responder =
    | Asleep
    | Woken
    | Peeked(no: nat, seen: Result)
    | Delivered
    | Erased                                      // file gone, still in memory; holds the result lock

  datatype State = State(
    reqs: Queue<Request>,
    ress: Queue<Result>,
    callers: nat,                // callers that hold a slot and have not written yet
    writing: Option<Request>,    // the request a caller wrote to disk; it holds the request lock
    cmd: Command,
    rsp: Responder,
    // What happened so far; no step depends on it.
    accepted: seq<Request>,      // the requests written to disk
    taken: nat,                  // how many of them were removed again
    executed: seq<Numbered<Request>>,    // the requests whose execution began
    stored: seq<Result>,         // the results written to disk
    origins: seq<nat>,           // the request each of them belongs to
    removed: nat,                // how many of them were removed again
    delivered: seq<Numbered<Result>>)    // the results the callback accepted

  datatype Event =
    | CallerSlot | CallerWrite(request: Request) | CallerPush
    | CommandWait | CommandRemove | CommandPop | ExecuteStart | ExecuteEnd(status: int, output: string)
    | ResultLost | ResultSlot | ResultWrite | ResultPush
    | ResponderWait | ResponderPeek | Callback(ok: bool) | ResponderRemove | ResponderPop
    | Crash(reqCapacity: nat, resCapacity: nat)

  predicate Enabled(s: State, e: Event) {
    match e
    case CallerSlot => s.reqs.slots > 0
    case CallerWrite(_) => s.callers > 0 && s.writing.None? && !s.cmd.Removed?
    case CallerPush => s.writing.Some?
    case CommandWait => s.cmd.Idle? && s.reqs.items > 0
    case CommandRemove => s.cmd.Waited? && s.writing.None? && s.reqs.disk != [] && s.reqs.mem != []
    case CommandPop => s.cmd.Removed? && s.reqs.mem != []
    case ExecuteStart => s.cmd.Popped?
    case ExecuteEnd(_, _) => s.cmd.Running?
    case ResultLost => s.cmd.Finished?
    case ResultSlot => s.cmd.Finished? && s.ress.slots > 0
    case ResultWrite => s.cmd.HoldsSlot? && !s.rsp.Erased?
    case ResultPush => s.cmd.ResultWritten?
    case ResponderWait => s.rsp.Asleep? && s.ress.items > 0
    case ResponderPeek => s.rsp.Woken? && !s.cmd.ResultWritten? && s.ress.mem != []
    case Callback(_) => s.rsp.Peeked?
    case ResponderRemove => s.rsp.Delivered? && !s.cmd.ResultWritten? && s.ress.disk != []
    case ResponderPop => s.rsp.Erased? && s.ress.mem != []
    case Crash(_, _) => true
  }

  function Step(s: State, e: Event): State
    requires Enabled(s, e)
  {
    match e
    case CallerSlot => s.(reqs := s.reqs.TakeSlot(), callers := s.callers + 1)
    case CallerWrite(r) =>
      s.(reqs := s.reqs.PutFile(r), callers := s.callers - 1, writing := Some(r), accepted := s.accepted + [r])
    case CallerPush => s.(reqs := s.reqs.PutItem(s.writing.value), writing := None)
    case CommandWait => s.(reqs := s.reqs.TakeItem(), cmd := Waited)
    case CommandRemove => s.(reqs := s.reqs.DropFile(), cmd := Removed(s.taken, s.reqs.mem[0]), taken := s.taken + 1)
    case CommandPop => s.(reqs := s.reqs.DropItem(), cmd := Popped(s.cmd.no, s.cmd.req))
    case ExecuteStart => s.(cmd := Running(s.cmd.no, s.cmd.req), executed := s.executed + [Numbered(s.cmd.no, s.cmd.req)])
    case ExecuteEnd(status, output) => s.(cmd := Finished(s.cmd.no, Result(s.cmd.req.execId, status, output)))
    case ResultLost => s.(cmd := Idle)
    case ResultSlot => s.(ress := s.ress.TakeSlot(), cmd := HoldsSlot(s.cmd.no, s.cmd.result))
    case ResultWrite =>
      s.(ress := s.ress.PutFile(s.cmd.result), cmd := ResultWritten(s.cmd.no, s.cmd.result),
         stored := s.stored + [s.cmd.result], origins := s.origins + [s.cmd.no])
    case ResultPush => s.(ress := s.ress.PutItem(s.cmd.result), cmd := Idle)
    case ResponderWait => s.(ress := s.ress.TakeItem(), rsp := Woken)
    case ResponderPeek => s.(rsp := Peeked(s.removed, s.ress.mem[0]))
    case Callback(ok) => if ok then s.(rsp := Delivered, delivered := s.delivered + [Numbered(s.rsp.no, s.rsp.seen)]) else s
    case ResponderRemove => s.(ress := s.ress.DropFile(), rsp := Erased, removed := s.removed + 1)
    case ResponderPop => s.(ress := s.ress.DropItem(), rsp := Asleep)
    case Crash(a, b) =>
      s.(reqs := Started(s.reqs.disk, a), ress := Started(s.ress.disk, b), callers := 0, writing := None, cmd := Idle, rsp := Asleep)
  }

  /** Both queues start empty. */
  function Initial(a: nat, b: nat): State {
    State(Started([], a), Started([], b), 0, None, Idle, Asleep, [], 0, [], [], [], 0, [])
  }

  ghost predicate IsRun(states: seq<State>, events: seq<Event>) {
    && |states| == |events| + 1
    && (exists a: nat, b: nat :: states[0] == Initial(a, b))
    && forall k :: 0 <= k < |events| ==> Enabled(states[k], events[k]) && states[k + 1] == Step(states[k], events[k])
  }

  // The invariant

  function One(b: bool): nat { if b then 1 else 0 }

  /** Disk and memory hold the same items, but for one that is just being pushed or popped. */
  predicate InStep<T(==)>(q: Queue<T>, popping: bool, pushing: Option<T>) {
    && (popping ==> q.mem != [] && pushing.None?)
    && q.disk == (if popping then q.mem[1..] else q.mem) + (if pushing.Some? then [pushing.value] else [])
  }

  predicate RequestsOk(s: State) {
    && s.reqs.Balanced(s.callers + One(s.writing.Some?), One(s.cmd.Waited? || s.cmd.Removed?))
    && InStep(s.reqs, s.cmd.Removed?, s.writing)
    && s.taken <= |s.accepted| && s.reqs.disk == s.accepted[s.taken..]
  }

  predicate HasRequest(c: Command) { c.Removed? || c.Popped? || c.Running? }

  predicate HasResult(c: Command) { c.Finished? || c.HoldsSlot? || c.ResultWritten? }

  ghost predicate Ascending(a: seq<nat>) {
    forall i, j :: 0 <= i < j < |a| ==> a[i] < a[j]
  }

  ghost predicate Below(a: seq<nat>, n: int) {
    forall i :: 0 <= i < |a| ==> a[i] < n
  }

  function Numbers<T>(a: seq<Numbered<T>>): (ns: seq<nat>)
    ensures |ns| == |a| && forall i :: 0 <= i < |a| ==> ns[i] == a[i].no
  {
    seq(|a|, i requires 0 <= i < |a| => a[i].no)
  }

  /** Every entry carries the item that has its number. */
  ghost predicate Genuine<T>(a: seq<Numbered<T>>, all: seq<T>) {
    forall i :: 0 <= i < |a| ==> a[i].no < |all| && a[i].item == all[a[i].no]
  }

  /** The command loop works on the last request taken, and has not executed it before. */
  ghost predicate CommandOk(s: State) {
    && Ascending(Numbers(s.executed)) && Below(Numbers(s.executed), s.taken) && s.taken <= |s.accepted|
    && Genuine(s.executed, s.accepted)
    && (HasRequest(s.cmd) ==> s.cmd.no == s.taken - 1 && s.cmd.req == s.accepted[s.cmd.no])
    && (s.cmd.Removed? || s.cmd.Popped? ==> Below(Numbers(s.executed), s.cmd.no))
    && (s.cmd.Running? || HasResult(s.cmd) ==> s.cmd.no in Numbers(s.executed))
    && (HasResult(s.cmd) ==> s.cmd.no == s.taken - 1 && s.cmd.result.execId == s.accepted[s.cmd.no].execId)
  }

  /** Every stored result belongs to an executed request of its own, in the same order. */
  ghost predicate OriginsOk(s: State) {
    && |s.origins| == |s.stored| && Ascending(s.origins)
    && (forall k :: 0 <= k < |s.stored| ==>
          s.origins[k] in Numbers(s.executed) && s.origins[k] < |s.accepted| && s.stored[k].execId == s.accepted[s.origins[k]].execId)
    && (s.cmd.Running? || s.cmd.Finished? || s.cmd.HoldsSlot? ==> Below(s.origins, s.cmd.no))
  }

  predicate ResultsOk(s: State) {
    && s.ress.Balanced(One(s.cmd.HoldsSlot? || s.cmd.ResultWritten?), One(!s.rsp.Asleep?))
    && InStep(s.ress, s.rsp.Erased?, if s.cmd.ResultWritten? then Some(s.cmd.result) else None)
    && s.removed <= |s.stored| && s.ress.disk == s.stored[s.removed..]
    && (s.rsp.Peeked? ==> s.rsp.no == s.removed && s.ress.mem != [] && s.rsp.seen == s.ress.mem[0])
  }

  /** The numbers run from 0 to m - 1, repeating some of them. */
  ghost predicate Stutters(a: seq<nat>, m: nat) {
    if a == [] then m == 0
    else a[0] == 0 && a[|a| - 1] == m - 1 && forall i :: 0 <= i < |a| - 1 ==> a[i] <= a[i + 1] <= a[i] + 1
  }

  /** The first m stored results were delivered, and the last of them may not be removed yet. */
  ghost predicate DeliveredUpTo(s: State, m: nat) {
    && Stutters(Numbers(s.delivered), m) && s.removed <= m <= s.removed + 1 && m <= |s.stored|
    && (s.rsp.Delivered? ==> m == s.removed + 1)
  }

  ghost predicate DeliveryOk(s: State) {
    Genuine(s.delivered, s.stored) && exists m: nat :: DeliveredUpTo(s, m)
  }

  ghost predicate Inv(s: State) {
    RequestsOk(s) && CommandOk(s) && OriginsOk(s) && ResultsOk(s) && DeliveryOk(s)
  }

  lemma RequestPushKeeps(s: State, e: Event)
    requires Enabled(s, e) && RequestsOk(s) && (e.CallerSlot? || e.CallerWrite? || e.CallerPush?)
    ensures RequestsOk(Step(s, e))
  {
  }

  lemma RequestPopKeeps(s: State, e: Event)
    requires Enabled(s, e) && RequestsOk(s) && (e.CommandRemove? || e.CommandPop?)
    ensures RequestsOk(Step(s, e))
  {
  }

  lemma RequestsKept(s: State, e: Event)
    requires Enabled(s, e) && RequestsOk(s)
    ensures RequestsOk(Step(s, e))
  {
    if e.CallerSlot? || e.CallerWrite? || e.CallerPush? {
      RequestPushKeeps(s, e);
    } else if e.CommandRemove? || e.CommandPop? {
      RequestPopKeeps(s, e);
    }
  }

  lemma ResultPushKeeps(s: State, e: Event)
    requires Enabled(s, e) && ResultsOk(s) && (e.ResultSlot? || e.ResultWrite? || e.ResultPush?)
    ensures ResultsOk(Step(s, e))
  {
  }

  lemma ResultPopKeeps(s: State, e: Event)
    requires Enabled(s, e) && ResultsOk(s) && (e.ResponderRemove? || e.ResponderPop?)
    ensures ResultsOk(Step(s, e))
  {
  }

  lemma ResultsKept(s: State, e: Event)
    requires Enabled(s, e) && ResultsOk(s)
    ensures ResultsOk(Step(s, e))
  {
    if e.ResultSlot? || e.ResultWrite? || e.ResultPush? {
      ResultPushKeeps(s, e);
    } else if e.ResponderRemove? || e.ResponderPop? {
      ResultPopKeeps(s, e);
    }
  }

  lemma CommandKept(s: State, e: Event)
    requires Enabled(s, e) && RequestsOk(s) && CommandOk(s)
    ensures CommandOk(Step(s, e))
  {
    if e.CommandRemove? {
      assert s.reqs.mem[0] == s.reqs.disk[0] == s.accepted[s.taken];
    } else if e.ExecuteStart? {
      StartKeepsCommand(s);
    } else {
      assert Step(s, e).executed == s.executed && Step(s, e).taken == s.taken && s.accepted <= Step(s, e).accepted;
    }
  }

  lemma StartKeepsCommand(s: State)
    requires Enabled(s, ExecuteStart) && CommandOk(s)
    ensures CommandOk(Step(s, ExecuteStart))
  {
    var t := Step(s, ExecuteStart);
    assert Numbers(t.executed) == Numbers(s.executed) + [s.cmd.no];
    assert Numbers(t.executed)[|s.executed|] == s.cmd.no;
  }

  lemma OriginsKept(s: State, e: Event)
    requires Enabled(s, e) && CommandOk(s) && OriginsOk(s)
    ensures OriginsOk(Step(s, e))
  {
    if e.ExecuteStart? {
      var t := Step(s, e);
      assert Numbers(t.executed) == Numbers(s.executed) + [s.cmd.no];
    }
  }

  lemma DeliveryKept(s: State, e: Event)
    requires Enabled(s, e) && ResultsOk(s) && DeliveryOk(s)
    ensures DeliveryOk(Step(s, e))
  {
    if e == Callback(true) {
      AcceptKeepsDelivery(s);
    } else {
      var t := Step(s, e);
      var m: nat :| DeliveredUpTo(s, m);
      assert t.delivered == s.delivered && s.stored <= t.stored;
      assert DeliveredUpTo(t, m);
    }
  }

  lemma AcceptKeepsDelivery(s: State)
    requires Enabled(s, Callback(true)) && ResultsOk(s) && DeliveryOk(s)
    ensures DeliveryOk(Step(s, Callback(true)))
  {
    var t := Step(s, Callback(true));
    var m: nat :| DeliveredUpTo(s, m);
    assert s.rsp.seen == s.stored[s.removed];
    assert Numbers(t.delivered) == Numbers(s.delivered) + [s.removed];
    assert DeliveredUpTo(t, s.removed + 1);
  }

  lemma {:induction false} RunKeepsInv(states: seq<State>, events: seq<Event>, k: nat)
    requires IsRun(states, events) && k < |states|
    ensures Inv(states[k])
  {
    if k == 0 {
      var a: nat, b: nat :| states[0] == Initial(a, b);
      assert DeliveredUpTo(states[0], 0);
    } else {
      RunKeepsInv(states, events, k - 1);
      var s, e := states[k - 1], events[k - 1];
      assert Enabled(s, e) && states[k - 1 + 1] == Step(s, e);
      RequestsKept(s, e);
      ResultsKept(s, e);
      CommandKept(s, e);
      OriginsKept(s, e);
      DeliveryKept(s, e);
    }
  }

  // What every run keeps

  /** Each entry that repeats the one before it is dropped. */
  function Dedup<T(==)>(a: seq<T>): seq<T> {
    if |a| <= 1 then a
    else if a[|a| - 1] == a[|a| - 2] then Dedup(a[..|a| - 1])
    else Dedup(a[..|a| - 1]) + [a[|a| - 1]]
  }

  /** The items with their places. */
  function Labelled<T>(items: seq<T>): seq<Numbered<T>> { seq(|items|, i requires 0 <= i < |items| => Numbered(i, items[i])) }

  lemma LabelledStep<T>(all: seq<T>, m: nat)
    requires m < |all|
    ensures Labelled(all[..m + 1]) == Labelled(all[..m]) + [Numbered(m, all[m])]
  {
  }

  lemma {:induction false} DedupStutters<T>(a: seq<Numbered<T>>, all: seq<T>, m: nat)
    requires Stutters(Numbers(a), m) && Genuine(a, all) && m <= |all|
    ensures Dedup(a) == Labelled(all[..m])
  {
    if |a| == 1 {
      LabelledStep(all, 0);
    } else if |a| > 1 {
      var b, n := a[..|a| - 1], |a| - 2;
      StuttersPrefix(a, m);
      DedupStutters(b, all, a[n].no + 1);
      if a[n + 1].no != a[n].no {
        LabelledStep(all, a[n].no + 1);
      }
    }
  }

  lemma StuttersPrefix<T>(a: seq<Numbered<T>>, m: nat)
    requires Stutters(Numbers(a), m) && |a| > 1
    ensures var n := |a| - 2; a[n].no <= a[n + 1].no <= a[n].no + 1 && Stutters(Numbers(a[..n + 1]), a[n].no + 1)
  {
    var ns, n := Numbers(a), |a| - 2;
    assert Numbers(a[..n + 1]) == ns[..n + 1];
    assert ns[n] <= ns[n + 1] <= ns[n] + 1;
  }

  /** No request is executed twice, not even across crashes: the executed ones are those that were
      accepted, met in the same order.  Those not taken yet are all on disk. */
  lemma AtMostOnce(states: seq<State>, events: seq<Event>, k: nat)
    requires IsRun(states, events) && k < |states|
    ensures var s := states[k];
            && (forall i :: 0 <= i < |s.executed| ==>
                  s.executed[i].no < s.taken <= |s.accepted| && s.executed[i].item == s.accepted[s.executed[i].no])
            && (forall i, j :: 0 <= i < j < |s.executed| ==> s.executed[i].no < s.executed[j].no)
            && s.taken <= |s.accepted| && s.reqs.disk == s.accepted[s.taken..]
  {
    RunKeepsInv(states, events, k);
    var s := states[k];
    forall i, j | 0 <= i < j < |s.executed| ensures s.executed[i].no < s.executed[j].no {
      assert Numbers(s.executed)[i] < Numbers(s.executed)[j];
    }
    forall i | 0 <= i < |s.executed| ensures s.executed[i].no < s.taken {
      assert Numbers(s.executed)[i] < s.taken;
    }
  }

  /** Before state k an execution of the request `no` ended with the outcome that the result has. */
  ghost predicate Outcome(states: seq<State>, events: seq<Event>, k: nat, no: nat, result: Result)
    requires IsRun(states, events) && k < |states|
  {
    exists j :: 0 <= j < k && events[j] == ExecuteEnd(result.status, result.output) && states[j].cmd.Running? && states[j].cmd.no == no
  }

  ghost predicate OutcomesOk(states: seq<State>, events: seq<Event>, k: nat)
    requires IsRun(states, events) && k < |states|
  {
    var s := states[k];
    && |s.origins| == |s.stored|
    && (HasResult(s.cmd) ==> Outcome(states, events, k, s.cmd.no, s.cmd.result))
    && (forall i :: 0 <= i < |s.stored| ==> Outcome(states, events, k, s.origins[i], s.stored[i]))
  }

  lemma OutcomeStays(states: seq<State>, events: seq<Event>, k: nat, no: nat, result: Result)
    requires IsRun(states, events) && k + 1 < |states| && Outcome(states, events, k, no, result)
    ensures Outcome(states, events, k + 1, no, result)
  {
  }

  lemma CommandOutcome(states: seq<State>, events: seq<Event>, k: nat)
    requires IsRun(states, events) && k + 1 < |states| && OutcomesOk(states, events, k)
    ensures var c := states[k + 1].cmd; HasResult(c) ==> Outcome(states, events, k + 1, c.no, c.result)
  {
    var s, e, t := states[k], events[k], states[k + 1];
    assert Enabled(s, e) && t == Step(s, e);
    if e.ExecuteEnd? {
      assert Outcome(states, events, k + 1, t.cmd.no, t.cmd.result);
    } else if HasResult(t.cmd) {
      assert HasResult(s.cmd) && t.cmd.no == s.cmd.no && t.cmd.result == s.cmd.result;
      OutcomeStays(states, events, k, s.cmd.no, s.cmd.result);
    }
  }

  lemma NextStored(s: State, e: Event)
    requires Enabled(s, e)
    ensures var t := Step(s, e);
            if e.ResultWrite? then t.stored == s.stored + [s.cmd.result] && t.origins == s.origins + [s.cmd.no]
            else t.stored == s.stored && t.origins == s.origins
  {
  }

  lemma {:induction false} RunKeepsOutcomes(states: seq<State>, events: seq<Event>, k: nat)
    requires IsRun(states, events) && k < |states|
    ensures OutcomesOk(states, events, k)
  {
    if k > 0 {
      RunKeepsOutcomes(states, events, k - 1);
      CommandOutcome(states, events, k - 1);
      var s, t := states[k - 1], states[k - 1 + 1];
      NextStored(s, events[k - 1]);
      forall i | 0 <= i < |t.stored| ensures Outcome(states, events, k, t.origins[i], t.stored[i]) {
        if i < |s.stored| {
          OutcomeStays(states, events, k - 1, s.origins[i], s.stored[i]);
        } else {
          OutcomeStays(states, events, k - 1, s.cmd.no, s.cmd.result);
        }
      }
    }
  }

  /** Every stored result answers an executed request, each a different one, in order, and has the
      outcome that its execution ended with; and a stored result stays on disk until it is removed. */
  lemma ResultsMatchRequests(states: seq<State>, events: seq<Event>, k: nat)
    requires IsRun(states, events) && k < |states|
    ensures var s := states[k];
            && |s.origins| == |s.stored|
            && (forall i, j :: 0 <= i < j < |s.origins| ==> s.origins[i] < s.origins[j])
            && (forall i :: 0 <= i < |s.stored| ==>
                  exists e :: e in s.executed && e.no == s.origins[i] && s.stored[i].execId == e.item.execId)
            && (forall i :: 0 <= i < |s.stored| ==>
                  exists j :: 0 <= j < k && events[j] == ExecuteEnd(s.stored[i].status, s.stored[i].output)
                    && states[j].cmd.Running? && states[j].cmd.no == s.origins[i])
            && s.removed <= |s.stored| && s.ress.disk == s.stored[s.removed..]
  {
    RunKeepsInv(states, events, k);
    var s := states[k];
    forall i | 0 <= i < |s.stored|
      ensures exists e :: e in s.executed && e.no == s.origins[i] && s.stored[i].execId == e.item.execId
    {
      var j :| 0 <= j < |s.executed| && Numbers(s.executed)[j] == s.origins[i];
      assert s.executed[j] in s.executed;
    }
    RunKeepsOutcomes(states, events, k);
    forall i | 0 <= i < |s.stored|
      ensures exists j :: 0 <= j < k && events[j] == ExecuteEnd(s.stored[i].status, s.stored[i].output)
                && states[j].cmd.Running? && states[j].cmd.no == s.origins[i]
    {
      assert Outcome(states, events, k, s.origins[i], s.stored[i]);
    }
  }

  /** A result is removed only after the callback accepted it; and the accepted deliveries, with
      consecutive repeats dropped, are the first of the stored results, each one as it was stored. */
  lemma DeliveredInOrder(states: seq<State>, events: seq<Event>, k: nat)
    requires IsRun(states, events) && k < |states|
    ensures var s := states[k];
            exists m: nat :: s.removed <= m <= |s.stored| && Dedup(s.delivered) == Labelled(s.stored[..m])
    ensures var s := states[k];
            s.removed <= |s.stored| && forall i: nat :: i < s.removed ==> Numbered(i, s.stored[i]) in s.delivered
  {
    RunKeepsInv(states, events, k);
    var s := states[k];
    var m: nat :| DeliveredUpTo(s, m);
    DedupStutters(s.delivered, s.stored, m);
    forall i: nat | i < s.removed ensures Numbered(i, s.stored[i]) in s.delivered {
      assert Labelled(s.stored[..m])[i] == Numbered(i, s.stored[i]);
      DedupSubset(s.delivered, Numbered(i, s.stored[i]));
    }
  }

  lemma {:induction false} DedupSubset<T>(a: seq<T>, x: T)
    requires x in Dedup(a)
    ensures x in a
  {
    if |a| > 1 {
      if x != a[|a| - 1] {
        DedupSubset(a[..|a| - 1], x);
      }
    }
  }

  /** The loops never find a queue empty that they were woken for, so that only a lock can
      make them wait; and the semaphores stay within the capacity. */
  lemma NeverStarved(states: seq<State>, events: seq<Event>, k: nat)
    requires IsRun(states, events) && k < |states|
    ensures var s := states[k];
            && (s.cmd.Waited? && s.writing.None? ==> Enabled(s, CommandRemove)) && (s.cmd.Removed? ==> Enabled(s, CommandPop))
            && (s.rsp.Woken? && !s.cmd.ResultWritten? ==> Enabled(s, ResponderPeek))
            && (s.rsp.Delivered? && !s.cmd.ResultWritten? ==> Enabled(s, ResponderRemove))
            && (s.rsp.Erased? ==> Enabled(s, ResponderPop))
            && s.reqs.slots <= s.reqs.capacity && s.reqs.items <= s.reqs.capacity && |s.reqs.mem| <= s.reqs.capacity
            && s.ress.slots <= s.ress.capacity && s.ress.items <= s.ress.capacity && |s.ress.mem| <= s.ress.capacity
            && (s.writing.Some? ==> s.reqs.items < s.reqs.capacity)
            && (s.cmd.ResultWritten? ==> s.ress.items < s.ress.capacity)
            && (s.cmd.Removed? ==> s.reqs.slots < s.reqs.capacity)
            && (s.rsp.Erased? ==> s.ress.slots < s.ress.capacity)
  {
    RunKeepsInv(states, events, k);
    var s := states[k];
    BalancedBounds(s.reqs, s.callers + One(s.writing.Some?), One(s.cmd.Waited? || s.cmd.Removed?));
    BalancedBounds(s.ress, One(s.cmd.HoldsSlot? || s.cmd.ResultWritten?), One(!s.rsp.Asleep?));
  }
}
