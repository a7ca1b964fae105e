/** The drop-oldest buffer of the telemetry pipeline: a goroutine moves items from an input
    channel to a bounded output channel, and makes room by taking the oldest item back out.
    A consumer reads the output channel at the same time, so every operation on a channel is
    a step of its own.  Items are represented by their arrival numbers. */
module RingBuffer {
  /** Where the goroutine stands with the item it took from the input. */
  datatype Hand = Free | Offering(item: nat) | MakingRoom(item: nat) | Resending(item: nat)

  datatype State = State(
    capacity: nat,
    channel: seq<nat>,      // the output channel, oldest item first
    hand: Hand,
    arrived: nat,           // how many items came in
    consumed: seq<nat>,
    discarded: seq<nat>)

  datatype Event = Arrive | Offer | TakeBack | Resend | Consume

  /** Offering never blocks; taking back waits for an item, and resending for room. */
  predicate Enabled(s: State, e: Event) {
    match e
    case Arrive => s.hand.Free?
    case Offer => s.hand.Offering?
    case TakeBack => s.hand.MakingRoom? && s.channel != []
    case Resend => s.hand.Resending? && |s.channel| < s.capacity
    case Consume => s.channel != []
  }

  function Step(s: State, e: Event): State
    requires Enabled(s, e)
  {
    match e
    case Arrive => s.(hand := Offering(s.arrived), arrived := s.arrived + 1)
    case Offer =>
      if |s.channel| < s.capacity then s.(channel := s.channel + [s.hand.item], hand := Free)
      else s.(hand := MakingRoom(s.hand.item))
    case TakeBack =>
      s.(channel := s.channel[1..], discarded := s.discarded + [s.channel[0]], hand := Resending(s.hand.item))
    case Resend => s.(channel := s.channel + [s.hand.item], hand := Free)
    case Consume => s.(channel := s.channel[1..], consumed := s.consumed + [s.channel[0]])
  }

  function Initial(capacity: nat): State { State(capacity, [], Free, 0, [], []) }

  ghost predicate IsRun(states: seq<State>, events: seq<Event>) {
    && |states| == |events| + 1
    && forall k :: 0 <= k < |events| ==> Enabled(states[k], events[k]) && states[k + 1] == Step(states[k], events[k])
  }

  function Held(s: State): nat { if s.hand.Free? then 0 else 1 }

  /** The channel holds consecutive items, up to the one in hand, and everything older has
      left, either way. */
  ghost predicate Inv(s: State) {
    && |s.channel| <= s.capacity
    && |s.consumed| + |s.discarded| + |s.channel| + Held(s) == s.arrived
    && (!s.hand.Free? ==> s.hand.item == s.arrived - 1)
    && (forall i :: 0 <= i < |s.channel| ==> s.channel[i] == |s.consumed| + |s.discarded| + i)
    && Ascending(s.consumed) && Ascending(s.discarded)
    && (forall x :: x in s.consumed || x in s.discarded <==> 0 <= x < |s.consumed| + |s.discarded|)
    && (forall x :: x in s.consumed ==> x !in s.discarded)
  }

  ghost predicate Ascending(a: seq<nat>) {
    forall i, j :: 0 <= i < j < |a| ==> a[i] < a[j]
  }

  lemma AppendAscends(a: seq<nat>, x: nat)
    requires Ascending(a) && forall y :: y in a ==> y < x
    ensures Ascending(a + [x])
  {
    forall i | 0 <= i < |a| ensures a[i] < x {
      assert a[i] in a;
    }
  }

  lemma StepKeepsInv(s: State, e: Event)
    requires Enabled(s, e) && Inv(s)
    ensures Inv(Step(s, e))
  {
    if e.Consume? {
      AppendAscends(s.consumed, s.channel[0]);
    } else if e.TakeBack? {
      AppendAscends(s.discarded, s.channel[0]);
    }
  }

  lemma {:induction false} RunKeepsInv(states: seq<State>, events: seq<Event>, k: nat)
    requires IsRun(states, events) && k < |states| && Inv(states[0])
    ensures Inv(states[k])
  {
    if k > 0 {
      RunKeepsInv(states, events, k - 1);
      StepKeepsInv(states[k - 1], events[k - 1]);
      assert states[k - 1 + 1] == Step(states[k - 1], events[k - 1]);
    }
  }

  /** Under every interleaving each item that arrived is in exactly one place: consumed,
      discarded, in the channel, or in hand; items are consumed in the order they arrived in;
      and whatever is in the channel is younger than whatever was discarded. */
  lemma Conservation(capacity: nat, states: seq<State>, events: seq<Event>, k: nat)
    requires IsRun(states, events) && k < |states| && states[0] == Initial(capacity)
    ensures var s := states[k];
            && |s.consumed| + |s.discarded| + |s.channel| + Held(s) == s.arrived
            && (forall x :: 0 <= x < s.arrived <==>
                  x in s.consumed || x in s.discarded || x in s.channel || (!s.hand.Free? && x == s.hand.item))
            && (forall x :: x in s.consumed ==> x !in s.discarded && x !in s.channel)
            && (forall i, j :: 0 <= i < j < |s.consumed| ==> s.consumed[i] < s.consumed[j])
            && (forall x, y :: x in s.discarded && y in s.channel ==> x < y)
            && |s.channel| <= capacity
  {
    RunKeepsInv(states, events, k);
    SameCapacity(states, events, k);
    var s := states[k];
    var gone := |s.consumed| + |s.discarded|;
    forall x | gone <= x < gone + |s.channel| ensures x in s.channel {
      assert s.channel[x - gone] == x;
    }
  }

  lemma {:induction false} SameCapacity(states: seq<State>, events: seq<Event>, k: nat)
    requires IsRun(states, events) && k < |states|
    ensures states[k].capacity == states[0].capacity
  {
    if k > 0 {
      SameCapacity(states, events, k - 1);
      assert states[k - 1 + 1] == Step(states[k - 1], events[k - 1]);
    }
  }

  // With an idle consumer

  function Least(a: int, b: int): int { if a <= b then a else b }

  /** How full the channel is, counting the item in hand, if nothing is consumed. */
  ghost predicate Filling(s0: State, s: State) {
    && s.arrived >= s0.arrived && s.consumed == s0.consumed && s.capacity == s0.capacity
    && var all := |s0.channel| + (s.arrived - s0.arrived);
    match s.hand
    case Free => |s.channel| == Least(all, s.capacity)
    case Offering(_) => |s.channel| == Least(all - 1, s.capacity)
    case MakingRoom(_) => |s.channel| == s.capacity < all
    case Resending(_) => |s.channel| == s.capacity - 1 && s.capacity < all
  }

  lemma {:induction false} KeepsFilling(states: seq<State>, events: seq<Event>, k: nat)
    requires IsRun(states, events) && k < |states| && Inv(states[0]) && states[0].hand.Free? && states[0].capacity > 0
    requires forall e :: e in events ==> !e.Consume?
    ensures Filling(states[0], states[k])
  {
    RunKeepsInv(states, events, k);
    if k > 0 {
      KeepsFilling(states, events, k - 1);
      assert events[k - 1] in events;
      assert states[k - 1 + 1] == Step(states[k - 1], events[k - 1]);
    }
  }

  /** While nothing is consumed the channel holds the latest items, as many as fit. */
  lemma KeepsLatest(states: seq<State>, events: seq<Event>, k: nat)
    requires IsRun(states, events) && k < |states| && Inv(states[0]) && states[0].hand.Free? && states[0].capacity > 0
    requires forall e :: e in events ==> !e.Consume?
    requires states[k].hand.Free?
    ensures var s := states[k];
            s.arrived >= states[0].arrived &&
            var all := |states[0].channel| + (s.arrived - states[0].arrived);
            var n := if all <= s.capacity then all else s.capacity;
            s.channel == seq(n, i => s.arrived - n + i)
  {
    RunKeepsInv(states, events, k);
    KeepsFilling(states, events, k);
  }

  // Blocking

  ghost predicate Stuck(s: State) { forall e :: !Enabled(s, e) }

  /** The goroutine and the consumer block each other for good exactly when the channel was
      emptied between the failed offer and the attempt to take the oldest item back. */
  lemma StuckIff(s: State)
    requires Inv(s) && s.capacity > 0
    ensures Stuck(s) <==> s.hand.MakingRoom? && s.channel == []
  {
    if !(s.hand.MakingRoom? && s.channel == []) {
      assert Enabled(s, Arrive) || Enabled(s, Offer) || Enabled(s, TakeBack) || Enabled(s, Resend) || Enabled(s, Consume);
    }
  }

  function Drained(s: State): State
    decreases |s.channel|
  {
    if s.channel == [] then s else Drained(Step(s, Consume))
  }

  /** This happens whenever the consumer is quick enough: from every state in which an offer
      has just failed, reading the channel empty blocks both. */
  lemma {:induction false} QuickConsumerBlocks(s: State)
    requires Inv(s) && s.capacity > 0 && s.hand.MakingRoom?
    ensures Inv(Drained(s)) && Stuck(Drained(s))
    decreases |s.channel|
  {
    if s.channel == [] {
      StuckIff(s);
    } else {
      StepKeepsInv(s, Consume);
      QuickConsumerBlocks(Step(s, Consume));
    }
  }

  /** It does happen: two items, room for one, and a consumer that reads just in time. */
  lemma BlockingIsReachable() returns (states: seq<State>, events: seq<Event>)
    ensures IsRun(states, events) && states[0] == Initial(1) && Stuck(states[|events|])
  {
    events := [Arrive, Offer, Arrive, Offer, Consume];
    var a := Initial(1);
    var b := Step(a, Arrive);
    var c := Step(b, Offer);
    var d := Step(c, Arrive);
    var e := Step(d, Offer);
    var f := Step(e, Consume);
    states := [a, b, c, d, e, f];
    forall k | 0 <= k < |events| ensures Enabled(states[k], events[k]) && states[k + 1] == Step(states[k], events[k]) {
      assert k == 0 || k == 1 || k == 2 || k == 3 || k == 4;
    }
  }
}
