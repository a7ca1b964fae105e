/** Complete runs of a group update, step by step: the outcomes that the theorems speak of
    are really reached, and a group that slipped comes up on its new image after a rollback. */
module GroupScenarios {
  import opened Wrappers
  import opened GroupUpdate

  const OLD := Image(1, "1")
  const NEW := Image(2, "2")

  const MEMBER := Member(NEW, false, Device(OLD, None, true, NoSwap), OLD, OLD, Ready, false, false, false, false, false, false)

  function Pair(phase: Phase, a: Member, b: Member): Group { Group(phase, "1", [a, b]) }

  /** A run from some initial state leads to g. */
  ghost predicate Reached(g: Group) { exists start, events :: Initial(start) && Run(start, events) == g }

  lemma Then(g: Group, e: Event)
    requires Reached(g)
    ensures Reached(Step(g, e))
  {
    var start, events :| Initial(start) && Run(start, events) == g;
    assert (events + [e])[..|events|] == events;
    assert Run(start, events + [e]) == Step(g, e);
  }

  lemma First(phase: Phase, a: Member, b: Member, r: Reply)
    requires Reached(Pair(phase, a, b))
    ensures Reached(Pair(phase, CallbackStep(phase, a, r), b))
  {
    Then(Pair(phase, a, b), Callback(0, r));
    assert [a, b][0 := CallbackStep(phase, a, r)] == [CallbackStep(phase, a, r), b];
  }

  lemma Second(phase: Phase, a: Member, b: Member, r: Reply)
    requires Reached(Pair(phase, a, b))
    ensures Reached(Pair(phase, a, CallbackStep(phase, b, r)))
  {
    Then(Pair(phase, a, b), Callback(1, r));
    assert [a, b][1 := CallbackStep(phase, b, r)] == [a, CallbackStep(phase, b, r)];
  }

  lemma FirstResets(phase: Phase, a: Member, b: Member)
    requires Reached(Pair(phase, a, b))
    ensures Reached(Pair(phase, ResetStep(a), b))
  {
    Then(Pair(phase, a, b), DeviceResets(0));
    assert [a, b][0 := ResetStep(a)] == [ResetStep(a), b];
  }

  /** Passes the barrier into a phase that is not the end. */
  lemma Pass(phase: Phase, a: Member, b: Member)
    requires Reached(Pair(phase, a, b)) && a.at.Reported? && b.at.Reported?
    requires !phase.Ended? && !NextPhase(phase, a.at.failed || b.at.failed).Ended?
    ensures Reached(Pair(NextPhase(phase, a.at.failed || b.at.failed), a.(at := Ready), b.(at := Ready)))
  {
    Then(Pair(phase, a, b), Barrier);
    assert a in [a, b] && b in [a, b];
    assert AnyFailed([a, b]) <==> a.at.failed || b.at.failed;
    assert Restarted([a, b]) == [a.(at := Ready), b.(at := Ready)];
  }

  // The members at the start of each phase

  const WRITTEN := Member(NEW, false, Device(OLD, Some(NEW), true, NoSwap), OLD, OLD, Ready, true, false, false, false, false, false)
  const MARKED := Member(NEW, false, Device(OLD, Some(NEW), true, Test), OLD, OLD, Ready, true, true, false, false, false, false)
  const BOOTED := Member(NEW, false, Device(NEW, Some(OLD), false, NoSwap), OLD, OLD, Ready, true, true, true, false, false, false)
  const CONFIRMED := Member(NEW, false, Device(NEW, Some(OLD), true, NoSwap), NEW, OLD, Ready, true, true, true, false, false, false)

  function Done(m: Member): Member { m.(at := Reported(false)) }

  /** The first member confirms by itself if `b` says so. */
  function Self(m: Member, b: bool): Member { m.(selfConfirm := b) }

  lemma Written(b: bool)
    ensures Reached(Pair(Pending, Self(WRITTEN, b), WRITTEN))
  {
    var start := Pair(Writing, Self(MEMBER, b), MEMBER);
    assert Initial(start) && Run(start, []) == start;
    var w := WRITTEN.(written := false, at := Wrote);
    First(Writing, Self(MEMBER, b), MEMBER, OpOk);
    First(Writing, Self(w, b), MEMBER, ReadOk);
    Second(Writing, Self(Done(WRITTEN), b), MEMBER, OpOk);
    Second(Writing, Self(Done(WRITTEN), b), w, ReadOk);
    Pass(Writing, Self(Done(WRITTEN), b), Done(WRITTEN));
  }

  lemma Marked(b: bool)
    ensures Reached(Pair(Rebooting, Self(MARKED, b), MARKED))
  {
    Written(b);
    First(Pending, Self(WRITTEN, b), WRITTEN, ReadOk);
    First(Pending, Self(WRITTEN.(at := PendingRead(NEW)), b), WRITTEN, OpOk);
    Second(Pending, Self(Done(MARKED), b), WRITTEN, ReadOk);
    Second(Pending, Self(Done(MARKED), b), WRITTEN.(at := PendingRead(NEW)), OpOk);
    Pass(Pending, Self(Done(MARKED), b), Done(MARKED));
  }

  lemma Booted(b: bool)
    ensures Reached(Pair(Booting, Self(BOOTED, b), BOOTED))
  {
    Marked(b);
    First(Rebooting, Self(MARKED, b), MARKED, OpOk);
    Second(Rebooting, Self(Done(BOOTED), b), MARKED, OpOk);
    Pass(Rebooting, Self(Done(BOOTED), b), Done(BOOTED));
  }

  lemma Answering(b: bool)
    ensures Reached(Pair(Confirming, Self(BOOTED, b), BOOTED))
  {
    Booted(b);
    First(Booting, Self(BOOTED, b), BOOTED, PingOk);
    Second(Booting, Self(Done(BOOTED), b), BOOTED, PingOk);
    Pass(Booting, Self(Done(BOOTED), b), Done(BOOTED));
  }

  lemma Confirmed()
    ensures Reached(Pair(Confirming, Done(CONFIRMED), Done(CONFIRMED)))
  {
    Answering(false);
    First(Confirming, BOOTED, BOOTED, ReadOk);
    First(Confirming, BOOTED.(at := ConfirmRead(NEW)), BOOTED, OpOk);
    Second(Confirming, Done(CONFIRMED), BOOTED, ReadOk);
    Second(Confirming, Done(CONFIRMED), BOOTED.(at := ConfirmRead(NEW)), OpOk);
  }

  /** An update in which nothing goes wrong succeeds. */
  lemma UpdateSucceeds() returns (g: Group)
    ensures Reached(g) && g.phase == Ended(Updated) && g.version == "2"
    ensures forall m :: m in g.members ==> OnNew(m) && m.cached == NEW
  {
    Confirmed();
    var all := Pair(Confirming, Done(CONFIRMED), Done(CONFIRMED));
    Then(all, Barrier);
    g := Step(all, Barrier);
  }

  const OWN := CONFIRMED.(selfConfirm := true)

  const WAITING := BOOTED.(selfConfirm := true)

  lemma ConfirmsItself()
    ensures Reached(Pair(Confirming, SelfConfirmStep(WAITING), BOOTED))
  {
    Answering(true);
    First(Confirming, WAITING, BOOTED, ReadOk);
    Then(Pair(Confirming, WAITING, BOOTED), DeviceConfirms(0));
    assert [WAITING, BOOTED][0 := SelfConfirmStep(WAITING)] == [SelfConfirmStep(WAITING), BOOTED];
  }

  lemma FirstIsAccepted()
    ensures Reached(Pair(Confirming, Done(OWN), BOOTED))
  {
    ConfirmsItself();
    First(Confirming, SelfConfirmStep(WAITING), BOOTED, ReadOk);
  }

  lemma ConfirmedByItself()
    ensures Reached(Pair(Confirming, Done(OWN), Done(CONFIRMED)))
  {
    FirstIsAccepted();
    Second(Confirming, Done(OWN), BOOTED, ReadOk);
    Second(Confirming, Done(OWN), BOOTED.(at := ConfirmRead(NEW)), OpOk);
  }

  /** An update succeeds whose first member confirms its image by itself; it is waited for until then. */
  lemma UpdateSucceedsByItself() returns (g: Group)
    ensures Reached(g) && g.phase == Ended(Updated) && g.version == "2"
    ensures |g.members| == 2 && g.members[0].selfConfirm && forall m :: m in g.members ==> OnNew(m) && m.cached == NEW
  {
    ConfirmedByItself();
    var all := Pair(Confirming, Done(OWN), Done(CONFIRMED));
    Then(all, Barrier);
    g := Step(all, Barrier);
  }

  /** A session that fails while the members restart does not fail the update: the barrier leads
      to the very state that a restart without failures leads to. */
  lemma FailedBootIsIgnored() returns (g: Group)
    ensures Reached(g) && g.phase == Booting && AllReported(g.members) && AnyFailed(g.members)
    ensures Step(g, Barrier) == Pair(Confirming, BOOTED, BOOTED)
  {
    Booted(false);
    var silent := BOOTED.(at := Reported(true));
    First(Booting, BOOTED, BOOTED, NoSession);
    Second(Booting, silent, BOOTED, PingOk);
    g := Pair(Booting, silent, Done(BOOTED));
    assert silent in g.members;
    assert Restarted(g.members) == [BOOTED, BOOTED];
  }

  // A rollback that does not last

  const SLIPPING := Member(NEW, false, Device(OLD, Some(NEW), true, NoSwap), OLD, OLD, ConfirmRead(NEW), true, true, true, true, false, false)
  const SLIPPED := Member(NEW, false, Device(OLD, Some(NEW), true, Permanent), NEW, OLD, Ready, true, true, true, true, false, false)
  const LEFT_ALONE := Member(NEW, false, Device(OLD, Some(NEW), true, Permanent), OLD, OLD, Ready, true, true, true, true, true, true)
  const BACK := Member(NEW, false, Device(OLD, Some(NEW), true, NoSwap), NEW, OLD, Ready, true, true, true, false, false, false)

  lemma FirstSlipsUnseen()
    ensures Reached(Pair(Confirming, Done(SLIPPED), BOOTED))
  {
    Answering(false);
    First(Confirming, BOOTED, BOOTED, ReadOk);
    FirstResets(Confirming, BOOTED.(at := ConfirmRead(NEW)), BOOTED);
    First(Confirming, SLIPPING, BOOTED, OpOk);
  }

  lemma SecondIsConfirmed()
    ensures Reached(Pair(Confirming, Done(SLIPPED), Done(CONFIRMED)))
  {
    FirstSlipsUnseen();
    Second(Confirming, Done(SLIPPED), BOOTED, ReadOk);
    Second(Confirming, Done(SLIPPED), BOOTED.(at := ConfirmRead(NEW)), OpOk);
  }

  /** An update that reports success although its first member slipped back: that member runs its
      old image, and a swap to the recorded one is still pending. */
  lemma UpdatedWhileSlipped() returns (g: Group)
    ensures Reached(g) && g.phase == Ended(Updated) && g.version == "2"
    ensures |g.members| == 2 && OnNew(g.members[1]) && var m := g.members[0];
              && m.slipped && m.cached == NEW && m.dev.primary == OLD && m.dev.swap == Permanent && !OnNew(m)
  {
    SecondIsConfirmed();
    var all := Pair(Confirming, Done(SLIPPED), Done(CONFIRMED));
    Then(all, Barrier);
    g := Step(all, Barrier);
  }

  lemma FirstSlips()
    ensures Reached(Pair(RollingBack, SLIPPED, BOOTED))
  {
    FirstSlipsUnseen();
    Second(Confirming, Done(SLIPPED), BOOTED, ReadError);
    Pass(Confirming, Done(SLIPPED), BOOTED.(at := Reported(true)));
  }

  const RETURNING := Member(NEW, false, Device(NEW, Some(OLD), false, Permanent), OLD, OLD, RollbackConfirmed(NEW), true, true, true, false, false, false)

  lemma FirstIsLeftAlone()
    ensures Reached(Pair(RollingBack, Done(LEFT_ALONE), BOOTED.(at := RollbackRead(NEW, OLD))))
  {
    FirstSlips();
    First(RollingBack, SLIPPED, BOOTED, ReadOk);
    Second(RollingBack, Done(LEFT_ALONE), BOOTED, ReadOk);
  }

  lemma SecondReturns()
    ensures Reached(Pair(RollingBack, Done(LEFT_ALONE), RETURNING))
  {
    FirstIsLeftAlone();
    Second(RollingBack, Done(LEFT_ALONE), BOOTED.(at := RollbackRead(NEW, OLD)), OpOk);
  }

  lemma SecondIsBack()
    ensures Reached(Pair(RollingBack, Done(LEFT_ALONE), Done(BACK)))
  {
    SecondReturns();
    Second(RollingBack, Done(LEFT_ALONE), RETURNING, OpOk);
  }

  lemma SecondGoesBack()
    ensures Reached(Pair(BootingBack, LEFT_ALONE, BACK))
  {
    SecondIsBack();
    Pass(RollingBack, Done(LEFT_ALONE), Done(BACK));
  }

  lemma RolledBack()
    ensures Reached(Pair(Ended(Outcome.RolledBack), Done(LEFT_ALONE), Done(BACK)))
  {
    SecondGoesBack();
    First(BootingBack, LEFT_ALONE, BACK, PingOk);
    Second(BootingBack, Done(LEFT_ALONE), BACK, PingOk);
    Then(Pair(BootingBack, Done(LEFT_ALONE), Done(BACK)), Barrier);
  }

  /** The first member slips back while it is being confirmed, the second one cannot be read;
      the rollback reports no error, and then the first member comes up on the new image.  The second
      one runs its old image, but the new one is recorded. */
  lemma RollbackIsUndone() returns (g: Group)
    ensures Reached(g) && g.phase == Ended(Outcome.RolledBack)
    ensures |g.members| == 2 && OnNew(g.members[0]) && OnOld(g.members[1]) && g.members[1].cached == NEW != g.members[1].dev.primary
  {
    RolledBack();
    FirstResets(Ended(Outcome.RolledBack), Done(LEFT_ALONE), Done(BACK));
    g := Pair(Ended(Outcome.RolledBack), ResetStep(Done(LEFT_ALONE)), Done(BACK));
  }
}
