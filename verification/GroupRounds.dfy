/** What each callback of a group update does to a device from its first request to its report:
    on every device state, in terms of the images in the slots. */
module GroupRounds {
  import opened Wrappers
  import opened GroupUpdate

  /** Writing puts the image into the other slot and leaves the running one alone; it is
      reported as a failure exactly if the device runs that image already. */
  lemma WriteRound(m: Member)
    requires m.at == Ready
    ensures var n := WriteStep(WriteStep(m, OpOk), ReadOk);
            && n.dev == Device(m.dev.primary, Some(m.image), m.dev.confirmed, NoSwap) && n.cached == m.cached
            && n.at == Reported(m.dev.primary.hash == m.image.hash)
  {
    assert WriteStep(m, OpOk) == m.(dev := Device(m.dev.primary, Some(m.image), m.dev.confirmed, NoSwap), at := Wrote);
  }

  /** Marking asks for a swap to the image in the other slot, to be reverted unless it is confirmed. */
  lemma PendingRound(m: Member)
    requires m.at == Ready && m.dev.secondary.Some?
    ensures var n := PendingStep(PendingStep(m, ReadOk), OpOk);
            n.dev == m.dev.(swap := Test) && n.cached == m.cached && n.at == Reported(false)
  {
  }

  /** A marked device comes up on the other image, unconfirmed; a further reset reverts it. */
  lemma RebootRound(m: Member)
    requires m.at == Ready && m.dev.secondary.Some? && m.dev.swap == Test
    ensures var n := RebootStep(m, OpOk);
            && n.dev == Device(m.dev.secondary.value, Some(m.dev.primary), false, NoSwap) && n.at == Reported(false)
            && ResetStep(n).dev == Device(m.dev.primary, m.dev.secondary, true, NoSwap)
  {
  }

  /** A ping that is not answered is repeated. */
  lemma BootRound(m: Member)
    requires m.at == Ready
    ensures BootStep(m, PingError) == m && BootStep(m, PingOk) == m.(at := Reported(false))
  {
  }

  /** What confirming a member leads to when all requests succeed. */
  function Confirmed(m: Member): Member {
    var n := ConfirmStep(m, ReadOk);
    if n.at.ConfirmRead? then ConfirmStep(n, OpOk) else n
  }

  /** Both kinds of confirmation report a failure exactly if the member runs the image recorded for
      it, and success exactly if it runs another one, which is confirmed then and recorded.  A
      member that confirms by itself is waited for as long as its image is not confirmed. */
  lemma ConfirmRound(m: Member)
    requires m.at == Ready && m.dev.secondary.Some?
    ensures var n, same := Confirmed(m), m.dev.primary.hash == m.cached.hash;
            && (n.at == Reported(true) <==> same && (m.selfConfirm ==> m.dev.confirmed))
            && (n.at == Reported(false) <==> !same && (m.selfConfirm ==> m.dev.confirmed))
            && (n.at == Reported(false) ==> n.dev == m.dev.(confirmed := true) && n.cached == m.dev.primary)
            && (n.at == Reported(true) ==> n.dev == m.dev && n.cached == m.cached)
            && (m.selfConfirm && !m.dev.confirmed ==> n == m)
  {
    if m.selfConfirm {
      OwnConfirmRound(m);
    } else {
      ManualConfirmRound(m);
    }
  }

  lemma OwnConfirmRound(m: Member)
    requires m.at == Ready && m.dev.secondary.Some? && m.selfConfirm
    ensures Confirmed(m) == if !m.dev.confirmed then m
                            else if m.dev.primary.hash == m.cached.hash then m.(at := Reported(true))
                            else m.(cached := m.dev.primary, at := Reported(false))
  {
  }

  lemma ManualConfirmRound(m: Member)
    requires m.at == Ready && m.dev.secondary.Some? && !m.selfConfirm
    ensures Confirmed(m) == if m.dev.primary.hash == m.cached.hash then m.(at := Reported(true))
                            else m.(dev := m.dev.(confirmed := true), cached := m.dev.primary, at := Reported(false))
  {
    if m.dev.primary.hash == m.cached.hash {
      assert ConfirmStep(m, ReadOk) == m.(at := Reported(true));
    } else {
      assert ConfirmStep(m, ReadOk) == m.(at := ConfirmRead(m.dev.primary));
    }
  }

  function RolledBack(m: Member): Member {
    var n := RollbackStep(m, ReadOk);
    if n.at.RollbackRead? then RollbackStep(RollbackStep(n, OpOk), OpOk) else n
  }

  /** Rolling back leaves a device alone that runs the image to go back to, fails on one that does not
      have it at all, and swaps it in on all others; then the image that ran before is recorded. */
  lemma RollbackRound(m: Member)
    requires m.at == Ready && m.dev.secondary.Some?
    ensures var n, back := RolledBack(m), m.rollback.hash;
            if m.dev.primary.hash == back then n.dev == m.dev && n.cached == m.dev.primary && n.at == Reported(false)
            else if m.dev.secondary.value.hash != back then n.dev == m.dev && n.cached == m.cached && n.at == Reported(true)
            else
              && n.dev == Device(m.dev.secondary.value, Some(m.dev.primary), true, NoSwap)
              && n.cached == m.dev.primary && n.at == Reported(false)
  {
    if m.dev.primary.hash != m.rollback.hash && m.dev.secondary.value.hash == m.rollback.hash {
      SwapRound(m);
    }
  }

  lemma SwapRound(m: Member)
    requires m.at == Ready && m.dev.secondary.Some?
    requires m.dev.primary.hash != m.rollback.hash == m.dev.secondary.value.hash
    ensures var n := RolledBack(m);
            && n.dev == Device(m.dev.secondary.value, Some(m.dev.primary), true, NoSwap)
            && n.cached == m.dev.primary && n.at == Reported(false)
  {
    var n := RollbackStep(m, ReadOk);
    assert n.at == RollbackRead(m.dev.primary, m.dev.secondary.value) && n.dev == m.dev;
    var c := RollbackStep(n, OpOk);
    assert c.at == RollbackConfirmed(m.dev.primary) && c.dev == m.dev.(swap := Permanent);
  }

  /** Without a session every callback reports a failure and leaves the device alone. */
  lemma NoSessionFails(phase: Phase, m: Member)
    requires !phase.Ended? && m.at == Ready
    ensures CallbackStep(phase, m, NoSession) == m.(at := Reported(true))
  {
  }

  /** A read that fails is reported and changes nothing else, or it is repeated. */
  lemma ReadErrorIsReported(phase: Phase, m: Member)
    requires CallbackStep(phase, m, ReadError) != m
    ensures CallbackStep(phase, m, ReadError) == m.(at := Reported(true))
  {
  }

  /** An operation that fails is reported; nothing is recorded for the member, unless it is
      the reset at the end of a rollback. */
  lemma OpErrorIsReported(phase: Phase, m: Member, took: bool, left: Option<Image>)
    requires CallbackStep(phase, m, OpError(took, left)) != m
    ensures CallbackStep(phase, m, OpError(took, left)).at == Reported(true)
    ensures !m.at.RollbackConfirmed? ==> CallbackStep(phase, m, OpError(took, left)).cached == m.cached
  {
    match phase
    case RollingBack => RollbackErrorIsReported(m, took, left);
    case Confirming => ConfirmErrorIsReported(m, took, left);
    case _ =>
  }

  lemma ConfirmErrorIsReported(m: Member, took: bool, left: Option<Image>)
    requires ConfirmStep(m, OpError(took, left)) != m
    ensures ConfirmStep(m, OpError(took, left)).at == Reported(true)
    ensures ConfirmStep(m, OpError(took, left)).cached == m.cached
  {
  }

  lemma RollbackErrorIsReported(m: Member, took: bool, left: Option<Image>)
    requires RollbackStep(m, OpError(took, left)) != m
    ensures RollbackStep(m, OpError(took, left)).at == Reported(true)
    ensures !m.at.RollbackConfirmed? ==> RollbackStep(m, OpError(took, left)).cached == m.cached
  {
    if m.at.RollbackRead? {
      var dev := if took then m.dev.Confirm(m.at.other.hash) else m.dev;
      assert RollbackStep(m, OpError(took, left)) == m.(dev := dev, at := Reported(true));
    } else if m.at.RollbackConfirmed? {
      var dev := if took then m.dev.Reset() else m.dev;
      assert RollbackStep(m, OpError(took, left)) == m.(cached := m.at.running, dev := dev, at := Reported(true));
    }
  }

  /** It is repeated only while a member is waited for that confirms by itself. */
  lemma ReadErrorIsRepeatedIff(phase: Phase, m: Member)
    requires phase.Pending? || phase.Confirming? || phase.RollingBack?
    requires m.at == Ready
    ensures CallbackStep(phase, m, ReadError) == m <==> phase.Confirming? && m.selfConfirm
  {
  }
}
