/** One round of each loop of the action runner, on the file-backed stores.  The interleaving
    of the loops, and crashes, are the subject of the pipeline model; here each round is tied
    to the steps of that model. */
module ActionRunner {
  import opened Wrappers
  import opened QueueSpec
  import opened FileStore
  import opened ActionPipeline

  /** One call of the callback: the result it was given, its answer, and the results that were on
      disk and in memory at that time. */
  datatype Call = Call(result: Result, accepted: bool, onDisk: seq<Result>, inMemory: seq<Result>)

  /** The callback that delivers results; it refuses some finite number of times. */
  class ResultCallback {
    ghost var calls: seq<Call>
    var refusals: nat

    constructor (refusals: nat)
      ensures calls == [] && this.refusals == refusals
    {
      this.refusals, calls := refusals, [];
    }

    method Deliver(result: Result, store: FileStore<Result>) returns (ok: bool)
      requires store.Valid()
      modifies this
      ensures calls == old(calls) + [Call(result, ok, store.View().disk, store.View().mem)]
      ensures ok <==> old(refusals) == 0
      ensures !ok ==> refusals == old(refusals) - 1
    {
      ok := refusals == 0;
      if ok {
        refusals := *;
      } else {
        refusals := refusals - 1;
      }
      calls := calls + [Call(result, ok, store.View().disk, store.View().mem)];
    }
  }

  class Runner {
    const reqStore: FileStore<Request>
    const resStore: FileStore<Result>

    ghost predicate Valid()
      reads this, reqStore, reqStore.dir, reqStore.availableSlots, reqStore.availableItems
      reads resStore, resStore.dir, resStore.availableSlots, resStore.availableItems
    {
      && reqStore.Valid() && resStore.Valid()
      && {reqStore.availableSlots, reqStore.availableItems} !! {resStore.availableSlots, resStore.availableItems}
    }

    constructor (reqDir: ItemDir<Request>, resDir: ItemDir<Result>, queueSize: nat)
      ensures Valid() && reqStore.dir == reqDir && resStore.dir == resDir
      ensures reqStore.View() == Started(Stored(reqDir.files), queueSize)
      ensures resStore.View() == Started(Stored(resDir.files), queueSize)
    {
      reqStore := new FileStore(reqDir, queueSize);
      resStore := new FileStore(resDir, queueSize);
    }

    /** Stores a request; true is returned only when it is on disk. */
    method Execute(execId: string, actionId: string) returns (ok: bool)
      requires Valid()
      modifies reqStore, reqStore.dir, reqStore.availableSlots, reqStore.availableItems
      ensures Valid() && resStore.View() == old(resStore.View())
      ensures ok <==> old(reqStore.View()).slots > 0
      ensures ok ==> var r := Request(execId, actionId); reqStore.View() == old(reqStore.View()).TakeSlot().PutFile(r).PutItem(r)
      ensures !ok ==> reqStore.View() == old(reqStore.View())
    {
      var err := reqStore.TryEnqueue(Some(Request(execId, actionId)));
      ok := err.None?;
    }

    /** One round of the command loop: takes the oldest request, executes it with some outcome,
        and stores the result, unless the context is cancelled while it waits for a slot. */
    method CommandRound(status: int, output: string, granted: bool) returns (req: Request)
      requires Valid() && reqStore.View().items > 0
      requires granted ==> resStore.View().slots > 0
      modifies reqStore, reqStore.dir, reqStore.availableSlots, reqStore.availableItems
      modifies resStore, resStore.dir, resStore.availableSlots, resStore.availableItems
      ensures Valid()
      ensures old(reqStore.View()).mem != [] && req == old(reqStore.View()).mem[0]
      ensures reqStore.View() == old(reqStore.View()).TakeItem().DropFile().DropItem()
      ensures resStore.View() ==
              if granted then
                var r := Result(req.execId, status, output); old(resStore.View()).TakeSlot().PutFile(r).PutItem(r)
              else old(resStore.View())
    {
      var item, err := reqStore.Dequeue(true);
      req := item.value;
      var e := resStore.Enqueue(Some(Result(req.execId, status, output)), granted);
    }

    /** One round of the responder loop: hands the oldest result to the callback until that
        accepts it.  At every call the result is still stored; it is removed after the last one,
        which is the only one that was accepted. */
    method ResponderRound(callback: ResultCallback)
      requires Valid() && resStore.View().items > 0
      modifies callback, resStore, resStore.dir, resStore.availableSlots, resStore.availableItems
      ensures Valid() && reqStore.View() == old(reqStore.View())
      ensures old(resStore.View()).mem != [] && resStore.View() == old(resStore.View()).TakeItem().DropFile().DropItem()
      ensures old(callback.calls) < callback.calls && |callback.calls| == |old(callback.calls)| + old(callback.refusals) + 1
      ensures forall k :: |old(callback.calls)| <= k < |callback.calls| ==>
                var q := old(resStore.View()).mem; callback.calls[k] == Call(q[0], k == |callback.calls| - 1, q, q)
    {
      var err := resStore.WaitNonEmpty(true);
      var item := resStore.PeekFrontItem();
      DeliverUntilAccepted(callback, item.value);
      err := resStore.Pop();
    }

    method DeliverUntilAccepted(callback: ResultCallback, result: Result)
      requires resStore.Valid()
      modifies callback
      ensures resStore.Valid() && resStore.View() == old(resStore.View())
      ensures old(callback.calls) < callback.calls && |callback.calls| == |old(callback.calls)| + old(callback.refusals) + 1
      ensures forall k :: |old(callback.calls)| <= k < |callback.calls| ==>
                var q := resStore.View(); callback.calls[k] == Call(result, k == |callback.calls| - 1, q.disk, q.mem)
    {
      ghost var q := resStore.View();
      var ok := false;
      while !ok
        invariant resStore.Valid() && resStore.View() == q && old(callback.calls) <= callback.calls
        invariant var all := |old(callback.calls)| + old(callback.refusals);
                  if ok then |callback.calls| == all + 1 else |callback.calls| + callback.refusals == all
        invariant forall k :: |old(callback.calls)| <= k < |callback.calls| ==>
                    callback.calls[k] == Call(result, ok && k == |callback.calls| - 1, q.disk, q.mem)
        decreases !ok, callback.refusals
      {
        ok := callback.Deliver(result, resStore);
      }
    }
  }

  /** Storing a request is three steps of a caller in the pipeline model: they can be made in a row
      exactly if a slot is free and the request lock is, and do to the queue what Execute does. */
  lemma ExecuteIsSteps(s: State, r: Request)
    requires Inv(s) && s.writing.None? && !s.cmd.Removed?
    ensures Enabled(s, CallerSlot) <==> s.reqs.slots > 0
    ensures s.reqs.slots > 0 ==>
              var s1 := Step(s, CallerSlot);
              && Enabled(s1, CallerWrite(r))
              && var s2 := Step(s1, CallerWrite(r));
                 && Enabled(s2, CallerPush)
                 && var s3 := Step(s2, CallerPush);
                    s3 == s.(reqs := s.reqs.TakeSlot().PutFile(r).PutItem(r), accepted := s.accepted + [r])
  {
  }

  /** Taking a request is three steps of the command loop in the pipeline model: they can be
      made in a row, and together do to the queue what Dequeue does. */
  lemma DequeueIsSteps(s: State)
    requires Inv(s) && s.cmd.Idle? && s.writing.None? && s.reqs.items > 0
    ensures Enabled(s, CommandWait)
    ensures var s1 := Step(s, CommandWait); Enabled(s1, CommandRemove)
    ensures var s2 := Step(Step(s, CommandWait), CommandRemove); Enabled(s2, CommandPop)
    ensures s.reqs.mem != [] && s.reqs.disk != []
    ensures var s3 := Step(Step(Step(s, CommandWait), CommandRemove), CommandPop);
            && s3.reqs == s.reqs.TakeItem().DropFile().DropItem() && s3.ress == s.ress
            && s3.cmd == Popped(s.taken, s.reqs.mem[0])
  {
  }

  /** Executing a request is two steps, and its result has the outcome of the execution.  With those
      of DequeueIsSteps before and of EnqueueIsSteps behind them they make up a round of the
      command loop. */
  lemma RunCommandIsSteps(s: State, status: int, output: string)
    requires Inv(s) && s.cmd.Popped?
    ensures Enabled(s, ExecuteStart)
    ensures var s1 := Step(s, ExecuteStart); Enabled(s1, ExecuteEnd(status, output))
    ensures var s2 := Step(Step(s, ExecuteStart), ExecuteEnd(status, output));
            && s2.cmd == Finished(s.cmd.no, Result(s.cmd.req.execId, status, output))
            && s2.executed == s.executed + [Numbered(s.cmd.no, s.cmd.req)] && s2.reqs == s.reqs && s2.ress == s.ress
  {
  }

  /** Storing a result is three steps of the command loop. */
  lemma EnqueueIsSteps(s: State)
    requires Inv(s) && s.cmd.Finished? && !s.rsp.Erased? && s.ress.slots > 0
    ensures Enabled(s, ResultSlot)
    ensures var s1 := Step(s, ResultSlot); Enabled(s1, ResultWrite)
    ensures var s2 := Step(Step(s, ResultSlot), ResultWrite); Enabled(s2, ResultPush)
    ensures var s3 := Step(Step(Step(s, ResultSlot), ResultWrite), ResultPush);
            && s3.ress == s.ress.TakeSlot().PutFile(s.cmd.result).PutItem(s.cmd.result) && s3.reqs == s.reqs
            && s3.cmd.Idle?
  {
  }

  /** Waiting for a result and looking at it is two steps of the responder loop. */
  lemma PeekIsSteps(s: State)
    requires Inv(s) && s.rsp.Asleep? && !s.cmd.ResultWritten? && s.ress.items > 0
    ensures Enabled(s, ResponderWait) && s.ress.mem != []
    ensures var s1 := Step(s, ResponderWait); Enabled(s1, ResponderPeek)
    ensures Step(Step(s, ResponderWait), ResponderPeek) == s.(ress := s.ress.TakeItem(), rsp := Peeked(s.removed, s.ress.mem[0]))
  {
  }

  /** Removing a delivered result is two steps of the responder loop. */
  lemma PopIsSteps(s: State)
    requires Inv(s) && s.rsp.Delivered? && !s.cmd.ResultWritten?
    ensures s.ress.disk != [] && s.ress.mem != [] && Enabled(s, ResponderRemove)
    ensures var s1 := Step(s, ResponderRemove); Enabled(s1, ResponderPop)
    ensures var s2 := Step(Step(s, ResponderRemove), ResponderPop);
            s2.ress == s.ress.DropFile().DropItem() && s2.reqs == s.reqs && s2.rsp.Asleep?
  {
  }

  /** A round of the responder loop is a row of its steps, with as many refusals as there are: the
      result it looks at is what is delivered, and it is gone only behind that. */
  lemma ResponderRoundIsSteps(s: State)
    requires Inv(s) && s.rsp.Asleep? && !s.cmd.ResultWritten? && s.ress.items > 0
    ensures Enabled(s, ResponderWait) && s.ress.mem != [] && s.ress.disk != []
    ensures var s1 := Step(s, ResponderWait); Enabled(s1, ResponderPeek)
    ensures var s2 := Step(Step(s, ResponderWait), ResponderPeek);
            && Enabled(s2, Callback(false)) && Step(s2, Callback(false)) == s2
            && var s3 := Step(s2, Callback(true));
               && s3.ress == s.ress.TakeItem() && s3.delivered == s.delivered + [Numbered(s.removed, s.ress.mem[0])]
               && Enabled(s3, ResponderRemove)
               && var s4 := Step(s3, ResponderRemove);
                  && Enabled(s4, ResponderPop)
                  && var s5 := Step(s4, ResponderPop);
                     && s5.ress == s.ress.TakeItem().DropFile().DropItem() && s5.reqs == s.reqs
                     && s5.delivered == s3.delivered && s5.removed == s.removed + 1 && s5.rsp.Asleep?
  {
    PeekIsSteps(s);
  }
}
