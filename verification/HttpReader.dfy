/** The resuming HTTP reader of the Linux client: when the connection breaks in the middle
    of a read, the rest is asked for again from the byte where it broke. */
module HttpReader {
  import opened Bytes
  import opened Wrappers

  /** What the network does in one attempt: whether a request is answered, whether range support is
      advertised, how many bytes arrive at most, whether the connection breaks behind them, and
      whether the end of the body is reported together with its last bytes. */
  datatype Moment = Moment(answers: bool, ranges: bool, arriving: nat, breaks: bool, ends: bool)

  /** The server side: the image, how often a broken read is retried, and what the network does
      over time.  A request for the bytes from some offset is answered with exactly those
      (RFC 9110, section 14.2), or with an error, as it is if there are none (section 15.5.17). */
  datatype Server = Server(image: seq<byte>, retries: nat, network: nat -> Moment)
  {
    /** Every response says the same about range support. */
    ghost predicate Offers(ranges: bool) { forall t: nat :: network(t).ranges == ranges }

    ghost predicate Steady() { Offers(true) || Offers(false) }

    ghost predicate Answers() { forall t: nat :: network(t).answers }

    /** No fault: every request is answered, and something arrives in every attempt. */
    ghost predicate Healthy() { Answers() && forall t: nat :: network(t).arriving > 0 && !network(t).breaks }
  }

  datatype ReadError = EOF | Broken | NoRanges | Exhausted

  /** A response body: the image from `next` on, as long as the connection is open. */
  datatype Body = Body(next: nat, open: bool)

  function Min(a: int, b: int): int { if a <= b then a else b }

  // What the attempts of one read bring

  /** A read of `size` bytes from `start` on.  Attempt 0 is made on the body at hand, if it is
      `open`, and each further one on the response to a new request. */
  datatype Reading = Reading(server: Server, tick: nat, open: bool, start: nat, size: nat)
  {
    function At(k: nat): Moment { server.network(tick + k) }

    predicate Sound() { start <= |server.image| }

    /** Attempt k finds a body to read from when `came` bytes came before. */
    predicate Opens(k: nat, came: nat) {
      if k == 0 then open else At(k).answers && At(k).ranges && start + came < |server.image|
    }

    function Brought(k: nat, came: nat): (n: nat)
      requires came <= size && start + came <= |server.image|
      ensures came + n <= size && start + came + n <= |server.image|
    {
      if Opens(k, came) then Min(At(k).arriving, Min(size - came, |server.image| - start - came)) else 0
    }

    /** How many bytes the attempts before k bring. */
    function Came(k: nat): (n: nat)
      requires Sound()
      ensures n <= size && start + n <= |server.image|
    {
      if k == 0 then 0 else Came(k - 1) + Brought(k - 1, Came(k - 1))
    }

    predicate Reads(k: nat)
      requires Sound()
    {
      Opens(k, Came(k))
    }

    function Brings(k: nat): nat
      requires Sound()
    {
      Brought(k, Came(k))
    }

    /** The new response does not offer ranges. */
    predicate Refuses(k: nat)
      requires Sound()
    {
      k > 0 && At(k).answers && !At(k).ranges && start + Came(k) < |server.image|
    }

    /** There is no response to read from, or the connection breaks. */
    predicate Fails(k: nat)
      requires Sound()
    {
      !Refuses(k) && (Reads(k) ==> At(k).breaks)
    }

    /** The attempt reports the end of the body: with its last bytes, or for want of any. */
    predicate Finishes(k: nat)
      requires Sound()
    {
      start + Came(k + 1) == |server.image| && (At(k).ends || (Brings(k) == 0 && Came(k) < size))
    }

    predicate FailsBefore(k: nat)
      requires Sound()
    {
      k == 0 || (FailsBefore(k - 1) && Fails(k - 1))
    }

    lemma {:induction false} FailedBefore(k: nat, i: nat)
      requires Sound() && FailsBefore(k) && i < k
      ensures Fails(i)
    {
      if i < k - 1 {
        FailedBefore(k - 1, i);
      }
    }

    /** What attempt k leads to. */
    predicate Yields(k: nat, err: Option<ReadError>)
      requires Sound()
    {
      match err
      case None => Reads(k) && !Fails(k) && !Finishes(k)
      case Some(EOF) => Reads(k) && !Fails(k) && Finishes(k)
      case Some(Broken) => Fails(k)
      case Some(NoRanges) => Refuses(k)
      case Some(Exhausted) => false
    }

    /** Attempt k is the last one, and `err` is how it ends. */
    predicate EndsWith(k: nat, err: Option<ReadError>)
      requires Sound()
    {
      && k <= server.retries && FailsBefore(k) && err != Some(Broken)
      && if err == Some(Exhausted) then Fails(k) && k == server.retries else Yields(k, err)
    }

    /** Attempt k is the last one, n the count that is returned, and `err` the error. */
    predicate Returns(k: nat, n: nat, err: Option<ReadError>)
      requires Sound()
    {
      EndsWith(k, err) && n == if err == Some(NoRanges) then LastBrought(k) else Came(k + 1)
    }

    /** Attempt k ends the read like that, or it fails and the count of the last read is n. */
    predicate Leaves(k: nat, n: nat, err: Option<ReadError>)
      requires Sound()
    {
      if err == Some(Broken) then FailsBefore(k + 1) && n == LastBrought(k + 1) else Returns(k, n, err)
    }

    lemma FirstLeaves(n: nat, err: Option<ReadError>)
      requires Sound() && Yields(0, err) && n == Came(1) == LastBrought(1)
      ensures Leaves(0, n, err)
    {
      assert FailsBefore(0);
      assert Fails(0) ==> FailsBefore(1);
    }

    lemma AllFailed()
      requires Sound() && FailsBefore(server.retries + 1)
      ensures Returns(server.retries, Came(server.retries + 1), Some(Exhausted))
    {
    }

    /** How many bytes the last of the attempts before k brings that reads at all. */
    function LastBrought(k: nat): nat
      requires Sound()
    {
      if k == 0 then 0 else if Reads(k - 1) then Brings(k - 1) else LastBrought(k - 1)
    }

    /** Some bytes came, and a later attempt went on from there. */
    ghost predicate ResumedBefore(k: nat)
      requires Sound()
    {
      exists i: nat, j: nat :: i < j < k && Brings(i) > 0 && Reads(j)
    }

    /** Range support is withdrawn from a read that was resumed. */
    ghost predicate CountIsShort()
      requires Sound()
    {
      exists k: nat :: k <= server.retries && FailsBefore(k) && Refuses(k) && ResumedBefore(k)
    }

    lemma {:induction false} SomeCame(k: nat) returns (i: nat)
      requires Sound() && Came(k) > 0
      ensures i < k && Brings(i) > 0
    {
      if Came(k - 1) > 0 {
        i := SomeCame(k - 1);
      } else {
        i := k - 1;
      }
    }

    lemma {:induction false} CameGrows(i: nat, k: nat)
      requires Sound() && i < k
      ensures Came(i) + Brings(i) <= Came(k)
    {
      if i < k - 1 {
        CameGrows(i, k - 1);
      }
    }

    lemma {:induction false} LastIsAllIff(k: nat)
      requires Sound()
      ensures LastBrought(k) <= Came(k)
      ensures LastBrought(k) < Came(k) <==> ResumedBefore(k)
    {
      if k > 0 {
        if !Reads(k - 1) {
          LastIsAllIff(k - 1);
          assert ResumedBefore(k) <==> ResumedBefore(k - 1);
        } else if Came(k - 1) > 0 {
          var i := SomeCame(k - 1);
          assert ResumedBefore(k);
        } else {
          forall i: nat | i < k - 1 ensures Brings(i) == 0 {
            CameGrows(i, k - 1);
          }
        }
      }
    }

    /** The count that is returned is what came exactly if range support was not withdrawn from a
        resumed read. */
    lemma CountIsRightIff(k: nat, n: nat, err: Option<ReadError>)
      requires Sound() && Returns(k, n, err)
      ensures n == Came(k + 1) <==> !CountIsShort()
    {
      LastIsAllIff(k);
      forall j: nat | j <= server.retries && FailsBefore(j) && Refuses(j) && ResumedBefore(j)
        ensures j == k && err == Some(NoRanges)
      {
        OneRefusal(k, err, j);
      }
      assert err == Some(NoRanges) ==> !Reads(k);
    }

    lemma OneRefusal(k: nat, err: Option<ReadError>, j: nat)
      requires Sound() && EndsWith(k, err) && j <= server.retries && FailsBefore(j) && Refuses(j)
      ensures j == k && err == Some(NoRanges)
    {
      if j < k {
        FailedBefore(k, j);
      } else if k < j {
        FailedBefore(j, k);
      }
    }

    /** What the count is good for. */
    lemma CountIsGood(k: nat, n: nat, err: Option<ReadError>)
      requires Sound() && Returns(k, n, err)
      ensures n <= Came(k + 1)
      ensures err != Some(NoRanges) || server.Steady() ==> n == Came(k + 1)
      ensures err == Some(EOF) ==> start + Came(k + 1) == |server.image|
    {
      LastIsAllIff(k);
      CountIsRightIff(k, n, err);
      if server.Steady() {
        SteadyCountsRight();
      }
    }

    /** Why the read went on, attempt after attempt: no response, or a connection that broke, or
        nothing was left to ask for. */
    lemma WhyResumed(k: nat, n: nat, err: Option<ReadError>)
      requires Sound() && Returns(k, n, err)
      ensures forall t: nat :: tick < t < tick + k ==>
                var m := server.network(t); !m.answers || (m.ranges && m.breaks) || start + Came(k + 1) == |server.image|
      ensures k > 0 && open ==> server.network(tick).breaks
    {
      forall t: nat | tick < t < tick + k
        ensures var m := server.network(t); !m.answers || (m.ranges && m.breaks) || start + Came(k + 1) == |server.image|
      {
        FailedBefore(k, t - tick);
        CameGrows(t - tick, k + 1);
      }
      if k > 0 {
        FailedBefore(k, 0);
        assert At(0) == server.network(tick);
      }
    }

    /** Why it ended. */
    lemma WhyEnded(k: nat, n: nat, err: Option<ReadError>)
      requires Sound() && Returns(k, n, err)
      ensures var m := server.network(tick + k);
              match err
              case Some(NoRanges) => k > 0 && m.answers && !m.ranges
              case Some(Exhausted) => k == server.retries
              case Some(Broken) => false
              case _ => !m.breaks && (k > 0 ==> m.answers && m.ranges)
    {
    }

    lemma SteadyCountsRight()
      requires Sound() && server.Steady()
      ensures !CountIsShort()
    {
      if server.Offers(true) {
        forall k: nat ensures !Refuses(k) {
          assert At(k).ranges;
        }
      } else {
        forall k: nat ensures k > 0 ==> !Reads(k) {
          assert !At(k).ranges;
        }
      }
    }

    /** Without faults the first attempt is the last one, and brings something or the end. */
    lemma HealthyCount(k: nat, n: nat, err: Option<ReadError>)
      requires Sound() && Returns(k, n, err) && server.Healthy() && open
      ensures (err.None? && (size > 0 ==> n > 0)) || err == Some(EOF)
    {
      assert At(0) == server.network(tick + 0) && Came(1) == Brings(0);
      if k > 0 {
        FailedBefore(k, 0);
        assert false;
      }
    }
  }

  /** Two adjacent stretches of the image, filled in one after the other, make one. */
  lemma Extend(q: seq<byte>, at: nat, n: nat, image: seq<byte>, start: nat)
    requires at + n <= |q| && start + at + n <= |image|
    requires q[..at] == image[start..start + at] && q[at..at + n] == image[start + at..start + at + n]
    ensures q[..at + n] == image[start..start + at + n]
  {
    assert q[..at + n] == q[..at] + q[at..at + n];
  }

  class HttpUpdateReader {
    const server: Server
    var offset: nat
    var body: Body
    var tick: nat  // how many attempts were made

    ghost predicate Valid() reads this {
      offset <= |server.image| && (body.open ==> body.next == offset)
    }

    constructor (server: Server, offset: nat, body: Body, tick: nat)
      requires offset <= |server.image| && (body.open ==> body.next == offset)
      ensures Valid() && this.server == server && this.offset == offset && this.body == body && this.tick == tick
    {
      this.server, this.offset, this.body, this.tick := server, offset, body, tick;
    }

    /** p holds the image from `start` up to the offset. */
    ghost predicate Filled(p: array<byte>, start: nat)
      requires Valid()
      reads this, p
    {
      start <= offset <= start + p.Length && p[..offset - start] == server.image[start..offset]
    }

    /** Reads from the response body into p, behind what came since `start`.  Bytes may arrive
        with or without an error; the offset follows. */
    method ReadBody(p: array<byte>, start: nat) returns (n: nat, err: Option<ReadError>)
      requires Valid() && Filled(p, start)
      modifies this, p
      ensures Valid() && Filled(p, start) && body.open == old(body.open) && tick == old(tick) + 1
      ensures offset == old(offset) + n
      ensures var m, at := server.network(old(tick)), old(offset) - start;
              if !body.open then n == 0 && err == Some(Broken)
              else
                && n == Min(m.arriving, Min(p.Length - at, |server.image| - old(offset)))
                && err == if m.breaks then Some(Broken)
                          else if offset == |server.image| && (m.ends || (n == 0 && at < p.Length)) then Some(EOF) else None
    {
      var m, at := server.network(tick), offset - start;
      tick := tick + 1;
      if !body.open {
        return 0, Some(Broken);
      }
      n := Min(m.arriving, Min(p.Length - at, |server.image| - offset));
      forall i | at <= i < at + n {
        p[i] := server.image[start + i];
      }
      assert p[..at] == old(p[..at]);
      Extend(p[..], at, n, server.image, start);
      offset := offset + n;
      body := body.(next := offset);
      err := if m.breaks then Some(Broken)
             else if offset == |server.image| && (m.ends || (n == 0 && at < p.Length)) then Some(EOF) else None;
    }

    /** r describes the read from `start` on, and k attempts of it are made. */
    ghost predicate Made(r: Reading, k: nat, p: array<byte>, start: nat)
      requires Valid()
      reads this, p
    {
      && r.server == server && r.start == start && r.size == p.Length && r.Sound()
      && tick == r.tick + k && offset == start + r.Came(k) && Filled(p, start)
    }

    /** Asks for the rest of the image, and reads on if there is a response; `last` is the count of
        the read before. */
    method Retry(p: array<byte>, start: nat, last: nat, ghost r: Reading, ghost k: nat) returns (n: nat, err: Option<ReadError>)
      requires Valid() && 0 < k <= server.retries && Made(r, k, p, start) && r.FailsBefore(k) && last == r.LastBrought(k)
      modifies this, p
      ensures Valid() && Made(r, k + 1, p, start)
      ensures r.Leaves(k, n, err)
      ensures err.None? || err == Some(EOF) ==> body.open
    {
      body := body.(open := false);
      var response, supportsRanges := Connect(server, offset, tick);
      if response.None? {
        tick := tick + 1;
        return last, Some(Broken);
      }
      if !supportsRanges {
        tick := tick + 1;
        return last, Some(NoRanges);
      }
      body := response.value;
      n, err := ReadBody(p, start);
      if err != Some(Broken) {
        n := offset - start;
      }
    }

    /** Fills p from the image, resuming as often as is allowed.  The buffer holds all that came;
        the count is that of the last attempt alone if a new response offers no ranges. */
    method Read(p: array<byte>) returns (n: nat, err: Option<ReadError>)
      requires Valid()
      modifies this, p
      ensures Valid() && Filled(p, old(offset))
      ensures err.None? || err == Some(EOF) ==> body.open
      ensures var r := Reading(server, old(tick), old(body.open), old(offset), p.Length);
              && tick > r.tick && Made(r, tick - r.tick, p, old(offset)) && r.Returns(tick - r.tick - 1, n, err)
              && (n == offset - old(offset) <==> !r.CountIsShort())
      ensures n <= offset - old(offset) && (err != Some(NoRanges) || server.Steady() ==> n == offset - old(offset))
      ensures err == Some(EOF) ==> offset == |server.image|
      ensures old(body.open) && server.Healthy() ==> (err.None? && (p.Length > 0 ==> n > 0)) || err == Some(EOF)
      ensures tick > old(tick) && forall t: nat :: old(tick) < t < tick - 1 ==>
                var m := server.network(t); !m.answers || (m.ranges && m.breaks) || offset == |server.image|
      ensures tick > old(tick) + 1 && old(body.open) ==> server.network(old(tick)).breaks
      ensures var m := server.network(tick - 1);
              match err
              case Some(NoRanges) => tick > old(tick) + 1 && m.answers && !m.ranges
              case Some(Exhausted) => tick == old(tick) + server.retries + 1
              case Some(Broken) => false
              case _ => !m.breaks && (tick > old(tick) + 1 ==> m.answers && m.ranges)
    {
      ghost var r := Reading(server, tick, body.open, offset, p.Length);
      ghost var last;
      n, err, last := ReadOn(p, r);
      r.CountIsRightIff(last, n, err);
      r.CountIsGood(last, n, err);
      r.WhyResumed(last, n, err);
      r.WhyEnded(last, n, err);
      if r.open && server.Healthy() {
        r.HealthyCount(last, n, err);
      }
    }

    method ReadOn(p: array<byte>, ghost r: Reading) returns (n: nat, err: Option<ReadError>, ghost k: nat)
      requires Valid() && r == Reading(server, tick, body.open, offset, p.Length)
      modifies this, p
      ensures Valid() && Made(r, k + 1, p, r.start) && r.Returns(k, n, err)
      ensures err.None? || err == Some(EOF) ==> body.open
    {
      var startOffset := offset;
      k := 0;
      n, err := FirstAttempt(p, r);
      if err != Some(Broken) {
        return;
      }
      for i := 0 to server.retries
        invariant k == i && Valid() && Made(r, i + 1, p, startOffset) && r.FailsBefore(i + 1) && n == r.LastBrought(i + 1)
      {
        k := i + 1;
        n, err := Retry(p, startOffset, n, r, k);
        if err != Some(Broken) {
          return;
        }
      }
      n, err := offset - startOffset, Some(Exhausted);
      r.AllFailed();
    }

    method FirstAttempt(p: array<byte>, ghost r: Reading) returns (n: nat, err: Option<ReadError>)
      requires Valid() && r == Reading(server, tick, body.open, offset, p.Length)
      modifies this, p
      ensures Valid() && Made(r, 1, p, r.start) && r.Leaves(0, n, err)
      ensures body.open == old(body.open)
    {
      assert p[..0] == server.image[offset..offset];
      n, err := ReadBody(p, offset);
      assert n == r.Came(1) == r.LastBrought(1) && r.Yields(0, err);
      r.FirstLeaves(n, err);
    }
  }

  /** One read into a buffer of its own. */
  method ReadUpTo(reader: HttpUpdateReader, size: nat) returns (p: seq<byte>, err: Option<ReadError>)
    requires reader.Valid()
    modifies reader
    ensures reader.Valid() && reader.offset >= old(reader.offset) && |p| <= size
    ensures p <= reader.server.image[old(reader.offset)..reader.offset]
    ensures err != Some(NoRanges) || reader.server.Steady() ==> p == reader.server.image[old(reader.offset)..reader.offset]
    ensures err == Some(EOF) ==> reader.offset == |reader.server.image|
    ensures old(reader.body.open) && reader.server.Healthy() ==>
              && reader.body.open && (err.None? || err == Some(EOF)) && (err.None? && size > 0 ==> p != [])
  {
    ghost var image, start := reader.server.image, reader.offset;
    var buffer := new byte[size];
    var n;
    n, err := reader.Read(buffer);
    Prefix(buffer[..], n, image, start, reader.offset);
    p := buffer[..n];
  }

  /** Asks for the image from `offset` on: no answer, or a body and whether ranges are on offer. */
  method Connect(server: Server, offset: nat, tick: nat) returns (response: Option<Body>, supportsRanges: bool)
    ensures response == if server.network(tick).answers && offset < |server.image| then Some(Body(offset, true)) else None
    ensures supportsRanges == server.network(tick).ranges
  {
    var m := server.network(tick);
    response := if m.answers && offset < |server.image| then Some(Body(offset, true)) else None;
    supportsRanges := m.ranges;
  }

  /** A read whose count is short: it is resumed once, and then range support is withdrawn.  Two of
      the three bytes came, but one is reported. */
  method ShortCount() returns (n: nat, reader: HttpUpdateReader)
    ensures n == 1 && reader.offset == 2
  {
    var server := Server([1, 2, 3], 2, t => Moment(true, t < 2, 1, true, false));
    reader := new HttpUpdateReader(server, 0, Body(0, true), 0);
    var p := new byte[3];
    ghost var r := Reading(server, 0, true, 0, 3);
    assert r.Brings(0) == 1 && r.Came(1) == 1;
    assert r.Brings(1) == 1 && r.Came(2) == 2;
    assert r.Refuses(2) && r.Fails(0) && r.Fails(1) && r.LastBrought(2) == 1;
    var err;
    n, err := reader.Read(p);
  }

  /** Reads with buffers of the given sizes up to the first error: what is returned is the
      image from the starting offset on, with nothing lost or repeated. */
  method ReadMany(reader: HttpUpdateReader, sizes: seq<nat>) returns (data: seq<byte>, err: Option<ReadError>)
    requires reader.Valid()
    modifies reader
    ensures reader.Valid() && reader.offset >= old(reader.offset)
    ensures err != Some(NoRanges) || reader.server.Steady() ==> data == reader.server.image[old(reader.offset)..reader.offset]
    ensures data <= reader.server.image[old(reader.offset)..reader.offset]
    ensures err == Some(EOF) ==> data == reader.server.image[old(reader.offset)..]
    ensures old(reader.body.open) && reader.server.Healthy() && EnoughReads(sizes, |reader.server.image| - old(reader.offset)) ==>
              err == Some(EOF)
  {
    data, err := [], None;
    ghost var image, start, healthy := reader.server.image, reader.offset, reader.body.open && reader.server.Healthy();
    for i := 0 to |sizes|
      invariant reader.Valid() && reader.offset >= start && err.None? && data == image[start..reader.offset]
      invariant healthy ==> reader.body.open && (AllPositive(sizes) ==> |data| >= i)
    {
      ghost var before := reader.offset;
      var p, e := ReadUpTo(reader, sizes[i]);
      Stitch(image, start, before, reader.offset);
      data, err := data + p, e;
      if err.Some? {
        return;
      }
    }
  }

  ghost predicate AllPositive(sizes: seq<nat>) { forall i :: 0 <= i < |sizes| ==> sizes[i] > 0 }

  /** Non-empty reads, enough to get n bytes one at a time, and then the end. */
  ghost predicate EnoughReads(sizes: seq<nat>, n: int) { AllPositive(sizes) && |sizes| > n }

  lemma Prefix(q: seq<byte>, n: nat, image: seq<byte>, a: nat, b: nat)
    requires n <= b - a <= |q| && b <= |image| && q[..b - a] == image[a..b]
    ensures q[..n] <= image[a..b] && (n == b - a ==> q[..n] == image[a..b])
  {
    assert q[..n] == q[..b - a][..n];
  }

  lemma Stitch(image: seq<byte>, a: nat, b: nat, c: nat)
    requires a <= b <= c <= |image|
    ensures image[a..b] + image[b..c] == image[a..c]
    ensures forall p :: p <= image[b..c] ==> image[a..b] + p <= image[a..c]
  {
    forall p | p <= image[b..c] ensures image[a..b] + p <= image[a..c] {
      assert image[a..b] + image[b..c] == image[a..c];
    }
  }
}
