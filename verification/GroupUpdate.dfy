/** The phased update of a group of microcontrollers.

    Every phase runs one callback per member, each in a goroutine of its own, and the next
    phase starts when all of them have reported.  A step of the model is one request that a
    callback sends over its session, one thing a device does on its own, or the passage of
    a barrier; steps of different members interleave freely. */
module GroupUpdate {
  import opened Wrappers

  /** A firmware image; images are told apart by their hashes. */
  datatype Image = Image(hash: nat, version: string)

  // A device with two image slots and a bootloader that swaps them

  datatype Swap = NoSwap | Test | Permanent

  datatype Device = Device(primary: Image, secondary: Option<Image>, confirmed: bool, swap: Swap)
  {
    /** A restart swaps the slots when that was asked for, or to revert an unconfirmed image. */
    function Reset(): Device {
      if secondary.None? then this
      else if swap != NoSwap then Device(secondary.value, Some(primary), swap == Permanent, NoSwap)
      else if !confirmed then Device(secondary.value, Some(primary), true, NoSwap)
      else this
    }

    function Upload(image: Option<Image>): Device { this.(secondary := image, swap := NoSwap) }

    function SetPending(hash: nat): Device {
      if secondary.Some? && secondary.value.hash == hash then this.(swap := Test) else this
    }

    /** Confirms the running image, or asks for a permanent swap to the other one. */
    function Confirm(hash: nat): Device {
      if primary.hash == hash then this.(confirmed := true)
      else if secondary.Some? && secondary.value.hash == hash then this.(swap := Permanent)
      else this
    }
  }

  datatype Progress =
    | Ready
    | Wrote
    | PendingRead(image: Image)                    // setPending read this secondary image
    | ConfirmRead(image: Image)                    // manualConfirm read this primary image
    | RollbackRead(running: Image, other: Image)   // rollback read these images
    | RollbackConfirmed(running: Image)
    | Reported(failed: bool)

  datatype Member = Member(
    image: Image,          // the artifact's image for this member
    selfConfirm: bool,
    dev: Device,
    cached: Image,         // the primary image as last recorded
    rollback: Image,       // the image to go back to
    at: Progress,
    // What happened so far; no step depends on it.
    written: bool,         // its image was written and found to differ
    pended: bool,          // the image was marked as pending
    rebooted: bool,        // it was asked to reset into the new image
    slipped: bool,         // it fell back to its old image between the read and the confirmation
    armed: bool,           // rollback saw a swap that was still pending
    reverted: bool)        // rollback found it on its old image

  datatype Phase = Writing | Pending | Rebooting | Booting | Confirming | RollingBack | BootingBack | Ended(outcome: Outcome)

  datatype Outcome = Updated | Failed | RolledBack | RollbackFailed

  datatype Group = Group(phase: Phase, version: string, members: seq<Member>)

  /** What a member's callback meets next.  A failed operation may have taken effect. */
  datatype Reply = NoSession | ReadOk | ReadError | OpOk | OpError(took: bool, left: Option<Image>) | PingOk | PingError

  datatype Event =
    | Callback(i: nat, reply: Reply)
    | DeviceResets(i: nat)
    | DeviceConfirms(i: nat)
    | Barrier

  // The callbacks; a reply that does not fit changes nothing

  function Report(m: Member, failed: bool): Member { m.(at := Reported(failed)) }

  function WriteStep(m: Member, r: Reply): Member {
    match (m.at, r)
    case (Ready, NoSession) => Report(m, true)
    case (Ready, OpOk) => m.(dev := m.dev.Upload(Some(m.image)), at := Wrote)
    case (Ready, OpError(took, left)) => Report(if took then m.(dev := m.dev.Upload(left)) else m, true)
    case (Wrote, ReadError) => Report(m, true)
    case (Wrote, ReadOk) =>
      if m.dev.secondary.None? || m.dev.primary.hash == m.dev.secondary.value.hash then Report(m, true)
      else Report(m.(written := true), false)
    case _ => m
  }

  function PendingStep(m: Member, r: Reply): Member {
    match (m.at, r)
    case (Ready, NoSession) => Report(m, true)
    case (Ready, ReadError) => Report(m, true)
    case (Ready, ReadOk) => if m.dev.secondary.None? then Report(m, true) else m.(at := PendingRead(m.dev.secondary.value))
    case (PendingRead(s), OpOk) => Report(m.(dev := m.dev.SetPending(s.hash), pended := true), false)
    case (PendingRead(s), OpError(took, _)) =>
      Report(if took then m.(dev := m.dev.SetPending(s.hash), pended := true) else m, true)
    case _ => m
  }

  function RebootStep(m: Member, r: Reply): Member {
    match (m.at, r)
    case (Ready, NoSession) => Report(m, true)
    case (Ready, OpOk) => Report(m.(dev := m.dev.Reset(), rebooted := true), false)
    case (Ready, OpError(took, _)) => Report(m.(dev := if took then m.dev.Reset() else m.dev, rebooted := true), true)
    case _ => m
  }

  /** Waits until the device answers; a failed ping is repeated. */
  function BootStep(m: Member, r: Reply): Member {
    match (m.at, r)
    case (Ready, NoSession) => Report(m, true)
    case (Ready, PingOk) => Report(m, false)
    case _ => m
  }

  function ConfirmStep(m: Member, r: Reply): Member {
    if m.selfConfirm then DeviceConfirmStep(m, r) else ManualConfirmStep(m, r)
  }

  /** Waits for the device to confirm its image by itself. */
  function DeviceConfirmStep(m: Member, r: Reply): Member {
    match (m.at, r)
    case (Ready, NoSession) => Report(m, true)
    case (Ready, ReadOk) =>
      if m.dev.secondary.None? || !m.dev.confirmed then m
      else if m.dev.primary.hash == m.cached.hash then Report(m, true)
      else Report(m.(cached := m.dev.primary), false)
    case _ => m
  }

  function ManualConfirmStep(m: Member, r: Reply): Member {
    match (m.at, r)
    case (Ready, NoSession) => Report(m, true)
    case (Ready, ReadError) => Report(m, true)
    case (Ready, ReadOk) =>
      if m.dev.secondary.None? || m.dev.primary.hash == m.cached.hash then Report(m, true)
      else m.(at := ConfirmRead(m.dev.primary))
    case (ConfirmRead(p), OpOk) => Report(m.(dev := m.dev.Confirm(p.hash), cached := p), false)
    case (ConfirmRead(p), OpError(took, _)) => Report(m.(dev := if took then m.dev.Confirm(p.hash) else m.dev), true)
    case _ => m
  }

  function RollbackStep(m: Member, r: Reply): Member {
    match (m.at, r)
    case (Ready, NoSession) => Report(m, true)
    case (Ready, ReadError) => Report(m, true)
    case (Ready, ReadOk) =>
      var n := m.(armed := m.dev.swap != NoSwap, reverted := m.dev.primary.hash == m.rollback.hash);
      if m.dev.secondary.None? then Report(n, true)
      else if n.reverted then Report(n.(cached := m.dev.primary), false)
      else if m.dev.secondary.value.hash != m.rollback.hash then Report(n, true)
      else n.(at := RollbackRead(m.dev.primary, m.dev.secondary.value))
    case (RollbackRead(p, s), OpOk) => m.(dev := m.dev.Confirm(s.hash), at := RollbackConfirmed(p))
    case (RollbackRead(p, s), OpError(took, _)) => Report(m.(dev := if took then m.dev.Confirm(s.hash) else m.dev), true)
    case (RollbackConfirmed(p), OpOk) => Report(m.(cached := p, dev := m.dev.Reset()), false)
    case (RollbackConfirmed(p), OpError(took, _)) => Report(m.(cached := p, dev := if took then m.dev.Reset() else m.dev), true)
    case _ => m
  }

  function CallbackStep(phase: Phase, m: Member, r: Reply): Member {
    match phase
    case Writing => WriteStep(m, r)
    case Pending => PendingStep(m, r)
    case Rebooting => RebootStep(m, r)
    case Booting => BootStep(m, r)
    case Confirming => ConfirmStep(m, r)
    case RollingBack => RollbackStep(m, r)
    case BootingBack => BootStep(m, r)
    case Ended(_) => m
  }

  /** A reset the client did not ask for. */
  function ResetStep(m: Member): Member {
    m.(dev := m.dev.Reset(), slipped := m.slipped || (m.at.ConfirmRead? && m.dev.Reset().primary != m.dev.primary))
  }

  /** The running firmware confirms itself. */
  function SelfConfirmStep(m: Member): Member { m.(dev := m.dev.(confirmed := true)) }

  predicate AllReported(ms: seq<Member>) { forall m :: m in ms ==> m.at.Reported? }

  predicate AnyFailed(ms: seq<Member>) { exists m :: m in ms && m.at.Reported? && m.at.failed }

  function NextPhase(phase: Phase, failed: bool): Phase {
    match phase
    case Writing => if failed then Ended(Failed) else Pending
    case Pending => if failed then Ended(Failed) else Rebooting
    case Rebooting => if failed then Ended(Failed) else Booting
    case Booting => Confirming
    case Confirming => if failed then RollingBack else Ended(Updated)
    case RollingBack => if failed then Ended(RollbackFailed) else BootingBack
    case BootingBack => Ended(RolledBack)
    case Ended(_) => phase
  }

  function Restarted(ms: seq<Member>): seq<Member> { seq(|ms|, i requires 0 <= i < |ms| => ms[i].(at := Ready)) }

  /** All callbacks of a phase have reported: the next phase starts, or the update ends.  The
      group takes over the first member's version only after a success. */
  function BarrierStep(g: Group): Group {
    if g.phase.Ended? || !AllReported(g.members) || g.members == [] then g else
      var next := NextPhase(g.phase, AnyFailed(g.members));
      if next.Ended? then Group(next, if next.outcome.Updated? then g.members[0].cached.version else g.version, g.members)
      else Group(next, g.version, Restarted(g.members))
  }

  function Step(g: Group, e: Event): Group {
    match e
    case Barrier => BarrierStep(g)
    case Callback(i, r) => if i < |g.members| then g.(members := g.members[i := CallbackStep(g.phase, g.members[i], r)]) else g
    case DeviceResets(i) => if i < |g.members| then g.(members := g.members[i := ResetStep(g.members[i])]) else g
    case DeviceConfirms(i) => if i < |g.members| then g.(members := g.members[i := SelfConfirmStep(g.members[i])]) else g
  }

  function Run(g: Group, events: seq<Event>): Group {
    if events == [] then g else Step(Run(g, events[..|events| - 1]), events[|events| - 1])
  }

  /** A member as the group's initialisation leaves it: it runs a confirmed image, which is the
      one recorded and the one to go back to, and no swap is pending. */
  predicate FreshMember(m: Member) {
    && m.dev.primary == m.cached == m.rollback && m.dev.confirmed && m.dev.swap == NoSwap && m.at == Ready
    && !m.written && !m.pended && !m.rebooted && !m.slipped && !m.armed && !m.reverted
  }

  predicate Initial(g: Group) {
    && g.phase == Writing && g.members != []
    && forall m :: m in g.members ==> FreshMember(m) && m.cached.version == g.version
  }

  // What holds of a member in every phase

  /** The two slots hold the old and the new image, in either order; the old one only runs
      confirmed. */
  predicate TwoImages(m: Member) {
    && m.image.hash != m.rollback.hash
    && ((m.dev.primary == m.rollback && m.dev.secondary == Some(m.image) && m.dev.confirmed)
        || (m.dev.primary == m.image && m.dev.secondary == Some(m.rollback)))
  }

  predicate OnOld(m: Member) { m.dev.primary == m.rollback && m.dev.confirmed && m.dev.swap == NoSwap }

  predicate OnNew(m: Member) { m.dev.primary == m.image && m.dev.confirmed && m.dev.swap == NoSwap }

  /** The new image runs confirmed, or the next reset will bring it up confirmed. */
  predicate WillRunNew(m: Member) {
    TwoImages(m) && (OnNew(m) || (m.slipped && m.dev.primary == m.rollback && m.dev.swap == Permanent))
  }

  predicate WritingInv(m: Member) {
    && OnOld(m) && m.cached == m.rollback && !m.pended && !m.rebooted && !m.slipped
    && (m.at == Ready || m.at == Wrote || m.at.Reported?)
    && (m.at == Wrote ==> m.dev.secondary == Some(m.image))
    && (m.at == Reported(false) ==> m.written && TwoImages(m))
  }

  predicate PendingInv(m: Member) {
    && TwoImages(m) && m.cached == m.rollback && m.written && !m.rebooted && !m.slipped
    && m.dev.swap != Permanent && (m.dev.primary == m.image ==> m.dev.swap == NoSwap)
    && (m.at == Ready || m.at == PendingRead(m.image) || m.at.Reported?)
    && (!m.at.Reported? ==> !m.pended) && (!m.pended ==> OnOld(m))
    && (m.at == Reported(false) ==> m.pended)
  }

  predicate RebootingInv(m: Member) {
    && TwoImages(m) && m.cached == m.rollback && m.written && m.pended && !m.slipped
    && m.dev.swap != Permanent && (m.dev.primary == m.image ==> m.dev.swap == NoSwap)
    && (m.at == Ready || m.at.Reported?)
    && (m.at == Reported(false) ==> m.dev.swap == NoSwap)
  }

  predicate BootingInv(m: Member) {
    && TwoImages(m) && m.cached == m.rollback && m.written && m.pended && !m.slipped
    && m.dev.swap == NoSwap && (m.at == Ready || m.at.Reported?)
  }

  predicate ConfirmingInv(m: Member) {
    && TwoImages(m) && m.written && m.pended
    && m.dev.swap != Test && (m.dev.swap == Permanent ==> m.slipped && m.dev.primary == m.rollback)
    && (m.at == Ready || m.at == ConfirmRead(m.image) || m.at.Reported?)
    && (m.at != Reported(false) ==> m.cached == m.rollback)
    && (!m.at.Reported? ==> m.dev.swap == NoSwap)
    && (m.at.ConfirmRead? && !m.slipped ==> m.dev.primary == m.image)
    && (m.at == Ready ==> !m.slipped)
    && (m.at == Reported(false) ==> m.cached == m.image && WillRunNew(m))
  }

  /** Rolled back for good, unless a swap to the new image was still pending. */
  predicate BackInv(m: Member) {
    && TwoImages(m) && m.written && m.pended && (m.armed ==> m.slipped)
    && m.cached == (if m.reverted then m.rollback else m.image)
    && (if m.armed then WillRunNew(m) && m.reverted else OnOld(m))
  }

  predicate RollingBackInv(m: Member) {
    && TwoImages(m) && m.written && m.pended && m.dev.swap != Test
    && (m.at == Ready || m.at == RollbackRead(m.image, m.rollback) || m.at == RollbackConfirmed(m.image) || m.at.Reported?)
    && (m.at == Ready ==> (m.dev.swap == Permanent ==> m.slipped && m.dev.primary == m.rollback))
    && (m.at.RollbackRead? || m.at.RollbackConfirmed? ==> !m.reverted && !m.armed)
    && (m.at.RollbackRead? ==> m.dev.swap == NoSwap)
    && (m.at.RollbackConfirmed? ==> OnOld(m) || (m.dev.primary == m.image && m.dev.swap == Permanent))
    && (m.at == Reported(false) ==> BackInv(m))
  }

  /** A failure before the reboot leaves a member alone whose image was not yet marked. */
  predicate FailedInv(m: Member) {
    m.cached == m.rollback && (m.pended || OnOld(m))
  }

  predicate MemberInv(phase: Phase, m: Member) {
    match phase
    case Writing => WritingInv(m)
    case Pending => PendingInv(m)
    case Rebooting => RebootingInv(m)
    case Booting => BootingInv(m)
    case Confirming => ConfirmingInv(m)
    case RollingBack => RollingBackInv(m)
    case BootingBack => BackInv(m)
    case Ended(Updated) => m.written && m.pended && m.cached == m.image && WillRunNew(m)
    case Ended(RolledBack) => BackInv(m)
    case Ended(Failed) => FailedInv(m)
    case Ended(RollbackFailed) => true
  }

  /** What one step of a phase may do to a member's history. */
  ghost predicate Grows(phase: Phase, was: Member, m: Member) {
    && SameMember(was, m)
    && (was.written ==> m.written) && (was.pended ==> m.pended)
    && (m.pended && !was.pended ==> phase == Pending)
    && (m.rebooted && !was.rebooted ==> phase == Rebooting)
  }

  ghost predicate SameMember(m0: Member, m: Member) {
    m.image == m0.image && m.rollback == m0.rollback && m.selfConfirm == m0.selfConfirm
  }

  lemma WriteKeepsInv(m: Member, r: Reply)
    requires WritingInv(m)
    ensures WritingInv(WriteStep(m, r)) && Grows(Writing, m, WriteStep(m, r))
  {
  }

  lemma PendingKeepsInv(m: Member, r: Reply)
    requires PendingInv(m)
    ensures PendingInv(PendingStep(m, r)) && Grows(Pending, m, PendingStep(m, r))
  {
  }

  lemma RebootKeepsInv(m: Member, r: Reply)
    requires RebootingInv(m)
    ensures RebootingInv(RebootStep(m, r)) && Grows(Rebooting, m, RebootStep(m, r))
  {
  }

  lemma BootKeepsInv(m: Member, r: Reply)
    requires BootingInv(m)
    ensures BootingInv(BootStep(m, r)) && Grows(Booting, m, BootStep(m, r))
  {
  }

  lemma ConfirmKeepsInv(m: Member, r: Reply)
    requires ConfirmingInv(m)
    ensures ConfirmingInv(ConfirmStep(m, r)) && Grows(Confirming, m, ConfirmStep(m, r))
  {
    if m.selfConfirm {
      DeviceConfirmKeepsInv(m, r);
    } else {
      ManualConfirmKeepsInv(m, r);
    }
  }

  lemma DeviceConfirmKeepsInv(m: Member, r: Reply)
    requires ConfirmingInv(m)
    ensures ConfirmingInv(DeviceConfirmStep(m, r)) && Grows(Confirming, m, DeviceConfirmStep(m, r))
  {
  }

  lemma ManualConfirmKeepsInv(m: Member, r: Reply)
    requires ConfirmingInv(m)
    ensures ConfirmingInv(ManualConfirmStep(m, r)) && Grows(Confirming, m, ManualConfirmStep(m, r))
  {
    if m.at.ConfirmRead? {
      ConfirmationKeepsInv(m, r);
    } else if m.at == Ready {
      ConfirmReadKeepsInv(m, r);
    }
  }

  lemma ConfirmReadKeepsInv(m: Member, r: Reply)
    requires ConfirmingInv(m) && m.at == Ready
    ensures ConfirmingInv(ManualConfirmStep(m, r)) && Grows(Confirming, m, ManualConfirmStep(m, r))
  {
  }

  /** The part of a manual confirmation behind the read. */
  lemma ConfirmationKeepsInv(m: Member, r: Reply)
    requires ConfirmingInv(m) && m.at.ConfirmRead?
    ensures ConfirmingInv(ManualConfirmStep(m, r)) && Grows(Confirming, m, ManualConfirmStep(m, r))
  {
  }

  lemma RollbackKeepsInv(m: Member, r: Reply)
    requires RollingBackInv(m)
    ensures RollingBackInv(RollbackStep(m, r)) && Grows(RollingBack, m, RollbackStep(m, r))
  {
    match m.at
    case Ready => RollbackReadKeepsInv(m, r);
    case RollbackRead(_, _) => RollbackConfirmKeepsInv(m, r);
    case RollbackConfirmed(_) => RollbackResetKeepsInv(m, r);
    case _ =>
  }

  lemma RollbackReadKeepsInv(m: Member, r: Reply)
    requires RollingBackInv(m) && m.at == Ready
    ensures RollingBackInv(RollbackStep(m, r)) && Grows(RollingBack, m, RollbackStep(m, r))
  {
    if r == ReadOk && m.dev.primary == m.rollback {
      FoundOnOld(m);
    } else if r == ReadOk {
      FoundOnNew(m);
    } else {
      assert RollbackStep(m, r) == m || RollbackStep(m, r) == Report(m, true);
    }
  }

  lemma FoundOnNew(m: Member)
    requires RollingBackInv(m) && m.at == Ready && m.dev.primary != m.rollback
    ensures m.dev.primary == m.image && m.dev.secondary == Some(m.rollback) && m.dev.swap == NoSwap
    ensures RollbackStep(m, ReadOk) == m.(armed := false, reverted := false, at := RollbackRead(m.image, m.rollback))
  {
  }

  /** Rollback leaves a member alone that is on its old image. */
  lemma FoundOnOld(m: Member)
    requires RollingBackInv(m) && m.at == Ready && m.dev.primary == m.rollback
    ensures var n := RollbackStep(m, ReadOk);
            n == m.(armed := m.dev.swap == Permanent, reverted := true, cached := m.rollback, at := Reported(false)) && BackInv(n)
  {
  }

  lemma RollbackConfirmKeepsInv(m: Member, r: Reply)
    requires RollingBackInv(m) && m.at.RollbackRead?
    ensures RollingBackInv(RollbackStep(m, r)) && Grows(RollingBack, m, RollbackStep(m, r))
  {
  }

  lemma RollbackResetKeepsInv(m: Member, r: Reply)
    requires RollingBackInv(m) && m.at.RollbackConfirmed?
    ensures RollingBackInv(RollbackStep(m, r)) && Grows(RollingBack, m, RollbackStep(m, r))
  {
  }

  /** Whatever the devices do on their own, they do not break the invariant either. */
  lemma DeviceKeepsInv(phase: Phase, m: Member)
    requires MemberInv(phase, m)
    ensures MemberInv(phase, ResetStep(m)) && MemberInv(phase, SelfConfirmStep(m))
  {
    ResetKeepsInv(phase, m);
  }

  lemma ResetKeepsInv(phase: Phase, m: Member)
    requires MemberInv(phase, m)
    ensures MemberInv(phase, ResetStep(m))
  {
  }

  lemma CallbackKeepsInv(phase: Phase, m: Member, r: Reply)
    requires MemberInv(phase, m)
    ensures MemberInv(phase, CallbackStep(phase, m, r)) && Grows(phase, m, CallbackStep(phase, m, r))
  {
    match phase
    case Writing => WriteKeepsInv(m, r);
    case Pending => PendingKeepsInv(m, r);
    case Rebooting => RebootKeepsInv(m, r);
    case Booting => BootKeepsInv(m, r);
    case BootingBack => assert BackInv(BootStep(m, r));
    case Confirming => ConfirmKeepsInv(m, r);
    case RollingBack => RollbackKeepsInv(m, r);
    case _ =>
  }

  /** A barrier hands every member over in a state that suits the next phase. */
  lemma BarrierHandsOver(phase: Phase, m: Member, failed: bool)
    requires !phase.Ended? && MemberInv(phase, m) && m.at.Reported?
    requires m.at.failed ==> failed
    ensures var next := NextPhase(phase, failed);
            MemberInv(next, if next.Ended? then m else m.(at := Ready))
  {
  }

  // What holds of the group

  /** Nothing is marked as pending before everything is written, and nothing is asked to
      reset before everything is marked. */
  ghost predicate Barriers(ms: seq<Member>) {
    && ((exists m :: m in ms && m.pended) ==> forall m :: m in ms ==> m.written && m.image.hash != m.rollback.hash)
    && ((exists m :: m in ms && m.rebooted) ==> forall m :: m in ms ==> m.pended)
  }

  /** The members and the version the update started with are still there. */
  ghost predicate SameGroup(g0: Group, g: Group) {
    && |g.members| == |g0.members|
    && (forall i :: 0 <= i < |g.members| ==> SameMember(g0.members[i], g.members[i]))
    && g.version == (if g.phase == Ended(Updated) && g.members != [] then g.members[0].cached.version else g0.version)
  }

  ghost predicate GroupInv(g: Group) {
    g.members != [] && (forall m :: m in g.members ==> MemberInv(g.phase, m)) && Barriers(g.members)
  }

  lemma ReplaceMember(g0: Group, g: Group, i: nat, m: Member)
    requires GroupInv(g) && SameGroup(g0, g) && i < |g.members|
    requires MemberInv(g.phase, m) && Grows(g.phase, g.members[i], m)
    requires g.phase.Ended? ==> m.cached == g.members[i].cached
    ensures var h := g.(members := g.members[i := m]); GroupInv(h) && SameGroup(g0, h)
  {
    var ms, was := g.members[i := m], g.members[i];
    assert was in g.members && MemberInv(g.phase, was);
    assert forall n :: n in ms ==> n == m || n in g.members;
    ReplaceKeepsBarriers(g.phase, g.members, i, m);
  }

  lemma ReplaceKeepsBarriers(phase: Phase, ms: seq<Member>, i: nat, m: Member)
    requires Barriers(ms) && (forall n :: n in ms ==> MemberInv(phase, n)) && i < |ms|
    requires MemberInv(phase, m) && Grows(phase, ms[i], m)
    ensures Barriers(ms[i := m])
  {
    var was, now := ms[i], ms[i := m];
    assert was in ms;
    assert forall n :: n in now ==> n == m || n in ms;
    if exists n :: n in now && n.pended {
      assert phase == Pending ==> forall k :: k in ms ==> PendingInv(k);
    }
    if exists n :: n in now && n.rebooted {
      assert phase == Rebooting ==> forall k :: k in ms ==> RebootingInv(k);
    }
  }

  lemma BarrierKeepsInv(g0: Group, g: Group)
    requires GroupInv(g) && SameGroup(g0, g)
    ensures GroupInv(BarrierStep(g)) && SameGroup(g0, BarrierStep(g))
  {
    if !g.phase.Ended? && AllReported(g.members) {
      var failed := AnyFailed(g.members);
      var next := NextPhase(g.phase, failed);
      forall m | m in g.members
        ensures MemberInv(next, if next.Ended? then m else m.(at := Ready))
      {
        BarrierHandsOver(g.phase, m, failed);
      }
      if !next.Ended? {
        RestartKeepsBarriers(g.members);
        forall n | n in Restarted(g.members) ensures MemberInv(next, n) {
          var k :| 0 <= k < |g.members| && n == g.members[k].(at := Ready);
          assert g.members[k] in g.members;
        }
      }
    }
  }

  lemma RestartKeepsBarriers(ms: seq<Member>)
    requires Barriers(ms)
    ensures Barriers(Restarted(ms))
  {
    var rs := Restarted(ms);
    forall m | m in rs ensures exists n :: n in ms && m == n.(at := Ready) {
      var k :| 0 <= k < |rs| && rs[k] == m;
      assert ms[k] in ms;
    }
    forall n | n in ms ensures n.(at := Ready) in rs {
      var k :| 0 <= k < |ms| && ms[k] == n;
      assert rs[k] == n.(at := Ready);
    }
  }

  lemma StepKeepsInv(g0: Group, g: Group, e: Event)
    requires GroupInv(g) && SameGroup(g0, g)
    ensures GroupInv(Step(g, e)) && SameGroup(g0, Step(g, e))
  {
    if e.Barrier? {
      BarrierKeepsInv(g0, g);
    } else if e.i < |g.members| {
      var m := g.members[e.i];
      assert m in g.members;
      DeviceKeepsInv(g.phase, m);
      match e
      case Callback(i, r) =>
        CallbackKeepsInv(g.phase, m, r);
        ReplaceMember(g0, g, i, CallbackStep(g.phase, m, r));
      case DeviceResets(i) =>
        ReplaceMember(g0, g, i, ResetStep(m));
      case DeviceConfirms(i) =>
        ReplaceMember(g0, g, i, SelfConfirmStep(m));
    }
  }

  lemma {:induction false} RunKeepsInv(g0: Group, events: seq<Event>)
    requires Initial(g0)
    ensures GroupInv(Run(g0, events)) && SameGroup(g0, Run(g0, events))
  {
    if events != [] {
      var n := |events| - 1;
      RunKeepsInv(g0, events[..n]);
      StepKeepsInv(g0, Run(g0, events[..n]), events[n]);
    }
  }

  lemma MemberAfter(g0: Group, events: seq<Event>, i: nat)
    requires Initial(g0) && i < |g0.members|
    ensures var g := Run(g0, events);
            && |g.members| == |g0.members| && MemberInv(g.phase, g.members[i])
            && SameMember(g0.members[i], g.members[i]) && FreshMember(g0.members[i])
  {
    RunKeepsInv(g0, events);
    assert Run(g0, events).members[i] in Run(g0, events).members && g0.members[i] in g0.members;
  }

  // What every update keeps, under every interleaving

  /** No member's image is marked as pending before every member's image is written and
      differs from the one to go back to, and no member is asked to reset into it before every
      member's image is marked. */
  lemma PhaseBarriers(g0: Group, events: seq<Event>)
    requires Initial(g0)
    ensures var ms := Run(g0, events).members;
            && (forall m, n :: m in ms && n in ms && m.pended ==> n.written && n.image.hash != n.rollback.hash)
            && (forall m, n :: m in ms && n in ms && m.rebooted ==> n.pended)
  {
    RunKeepsInv(g0, events);
  }

  /** A successful update: every member recorded its own artifact image, and runs it confirmed
      unless it slipped back just before the confirmation.  Then a swap may be pending, and the
      next reset brings the image up confirmed.  The image to go back to is still the one from before. */
  lemma UpdatedMeans(g0: Group, events: seq<Event>, i: nat)
    requires Initial(g0) && Run(g0, events).phase == Ended(Updated) && i < |g0.members|
    ensures var g := Run(g0, events);
            && |g.members| == |g0.members| && g.version == g0.members[0].image.version
            && var m := g.members[i];
            && m.image == g0.members[i].image && m.cached == m.image
            && (!m.slipped ==> OnNew(m)) && (OnNew(m) <==> m.dev.swap == NoSwap) && (OnNew(m) || OnNew(ResetStep(m)))
            && (OnNew(m) <==> m.dev.primary == m.image && m.dev.confirmed && m.dev.swap == NoSwap)
            && m.rollback == g0.members[i].dev.primary != m.image
  {
    RunKeepsInv(g0, events);
    MemberAfter(g0, events, i);
    MemberAfter(g0, events, 0);
  }

  /** A rollback that reports no error: a member runs its old image for good exactly when no
      swap was pending as rollback looked at it, which is only possible if it slipped.  The
      recorded image is right exactly when the member had gone back by itself, and the
      group's version is the old one. */
  lemma RolledBackMeans(g0: Group, events: seq<Event>, i: nat)
    requires Initial(g0) && Run(g0, events).phase == Ended(RolledBack) && i < |g0.members|
    ensures var g := Run(g0, events);
            && |g.members| == |g0.members| && g.version == g0.version
            && var m := g.members[i];
            && m.rollback == g0.members[i].dev.primary
            && (OnOld(m) <==> !m.armed) && (m.armed ==> m.slipped)
            && (OnOld(m) <==> m.dev.primary == m.rollback && m.dev.confirmed && m.dev.swap == NoSwap)
            && (m.cached == m.rollback <==> m.reverted)
  {
    RunKeepsInv(g0, events);
    MemberAfter(g0, events, i);
  }

  /** A member's old image that runs for good keeps running, whatever the device does. */
  lemma OldStays(m: Member)
    requires OnOld(m)
    ensures OnOld(ResetStep(m)) && OnOld(SelfConfirmStep(m))
  {
  }

  /** An update that fails before the confirmation leaves the version and the recorded images
      alone, and a member whose image was not yet marked runs its old one. */
  lemma FailedMeans(g0: Group, events: seq<Event>, i: nat)
    requires Initial(g0) && Run(g0, events).phase == Ended(Failed) && i < |g0.members|
    ensures var g := Run(g0, events);
            && |g.members| == |g0.members| && g.version == g0.version
            && var m := g.members[i];
            m.cached == g0.members[i].dev.primary && (m.pended || OnOld(m))
  {
    RunKeepsInv(g0, events);
    MemberAfter(g0, events, i);
  }

  /** How a rolled back group can come up on its new image: the member reverts by itself
      between the read and the confirmation, so that the confirmation asks for a swap; rollback
      sees the old image and leaves it alone; and the next reset swaps. */
  lemma SlippedMemberComesBack(m: Member)
    requires ConfirmingInv(m) && m.at.ConfirmRead? && !m.dev.confirmed && !m.selfConfirm
    ensures var confirmed := ConfirmStep(ResetStep(m), OpOk);
            var back := RollbackStep(confirmed.(at := Ready), ReadOk);
            && confirmed.at == Reported(false) && confirmed.cached == m.image
            && back.at == Reported(false) && back.armed && back.dev.primary == m.rollback
            && OnNew(ResetStep(back))
  {
  }
}
