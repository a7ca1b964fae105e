/** The caching download of the Linux client: what a session reads is kept in a file, and the
    next session replays the file and fetches only the rest. */
module CachedFetcher {
  import opened Bytes
  import opened Wrappers
  import opened HttpReader

  /** Keeps what is written to it and gives it back from the start. */
  class ReadSaver {
    var data: seq<byte>
    var offset: nat

    ghost predicate Valid() reads this { offset <= |data| }

    constructor ()
      ensures Valid() && data == [] && offset == 0
    {
      data, offset := [], 0;
    }

    method Write(p: seq<byte>)
      requires Valid()
      modifies this
      ensures Valid() && data == old(data) + p && offset == old(offset)
    {
      data := data + p;
    }

    /** Reads at most `size` bytes; at the end there are none left. */
    method Read(size: nat) returns (p: seq<byte>, eof: bool)
      requires Valid()
      modifies this`offset
      ensures Valid() && offset == old(offset) + |p| && p == data[old(offset)..offset] && |p| <= size
      ensures eof <==> old(offset) == |data|
      ensures !eof && size > 0 ==> p != []
    {
      if offset >= |data| {
        return [], true;
      }
      var n := if size <= |data| - offset then size else |data| - offset;
      p, eof := data[offset..offset + n], false;
      offset := offset + n;
    }
  }

  /** The cache file of one image; it outlives the session. */
  class CacheFile {
    var present: bool
    var content: seq<byte>
    var cursor: nat

    ghost predicate Valid() reads this { cursor <= |content| && (!present ==> content == []) }

    constructor ()
      ensures Valid() && !present
    {
      present, content, cursor := false, [], 0;
    }

    method Create()
      modifies this
      ensures Valid() && present && content == [] && cursor == 0
    {
      present, content, cursor := true, [], 0;
    }

    /** Opens an existing file for reading from its start and appending at its end. */
    method Open()
      requires Valid() && present
      modifies this`cursor
      ensures Valid() && cursor == 0
    {
      cursor := 0;
    }

    method Append(p: seq<byte>)
      requires Valid() && present
      modifies this`content
      ensures Valid() && content == old(content) + p
    {
      content := content + p;
    }

    method Read(size: nat) returns (p: seq<byte>, eof: bool)
      requires Valid()
      modifies this`cursor
      ensures Valid() && cursor == old(cursor) + |p| && p == content[old(cursor)..cursor] && |p| <= size
      ensures eof <==> old(cursor) == |content|
      ensures !eof && size > 0 ==> p != []
    {
      if cursor >= |content| {
        return [], true;
      }
      var most := if size <= |content| - cursor then size else |content| - cursor;
      var n :| 0 <= n <= most && (most > 0 ==> n > 0);
      p, eof := content[cursor..cursor + n], false;
      cursor := cursor + n;
    }
  }

  /** Where a stream takes its first part from: what the header reading saved, or the cache. */
  datatype First = Saved(saver: ReadSaver) | Cached(file: CacheFile)

  /** What a session hands to the installer: the first part, then the image from the network.
      Behind a saved part everything read is also written to the cache file; behind a cached
      part only what comes from the network is. */
  class UpdateStream {
    const first: First
    var firstReaderEOF: bool
    const image: HttpUpdateReader
    const cache: CacheFile

    ghost var presented: seq<byte>  // what the consumer got so far

    /** The consumer has a prefix of the image, and so has the cache; nothing is skipped. */
    ghost predicate Valid()
      reads this, image, cache, if first.Saved? then {first.saver} else {}
    {
      && image.Valid() && cache.Valid() && cache.present && image.server.Offers(true)
      && presented <= image.server.image && cache.content <= image.server.image
      && match first
         case Saved(saver) =>
           && saver.Valid() && saver.data <= image.server.image && |saver.data| <= image.offset
           && |cache.content| == |presented|
           && (if firstReaderEOF then |presented| == image.offset
               else |presented| == saver.offset && |saver.data| == image.offset)
         case Cached(file) =>
           && file == cache && |cache.content| == image.offset
           && |presented| == if firstReaderEOF then image.offset else cache.cursor
    }

    constructor (first: First, image: HttpUpdateReader, cache: CacheFile)
      requires image.Valid() && cache.Valid() && cache.present && image.server.Offers(true)
      requires match first
               case Saved(saver) => saver.Valid() && saver.offset == 0 && saver.data == image.server.image[..image.offset] && cache.content == []
               case Cached(file) => file == cache && cache.cursor == 0 && cache.content == image.server.image[..image.offset]
      ensures Valid() && presented == [] && this.first == first && this.image == image && this.cache == cache && !firstReaderEOF
    {
      this.first, this.image, this.cache := first, image, cache;
      firstReaderEOF, presented := false, [];
    }

    method ReadSaved(saver: ReadSaver, size: nat) returns (p: seq<byte>)
      requires Valid() && !firstReaderEOF && first == Saved(saver)
      modifies this`firstReaderEOF, this`presented, cache, saver
      ensures Valid() && presented == old(presented) + p && cache.content == old(cache.content) + p
      ensures |p| <= size && (size > 0 ==> (firstReaderEOF <==> p == []))
    {
      p, firstReaderEOF := saver.Read(size);
      Continues(image.server.image, presented, saver.data, p);
      Continues(image.server.image, cache.content, saver.data, p);
      cache.Append(p);
      presented := presented + p;
    }

    method ReadCached(size: nat) returns (p: seq<byte>)
      requires Valid() && !firstReaderEOF && first.Cached?
      modifies this`firstReaderEOF, this`presented, cache`cursor
      ensures Valid() && presented == old(presented) + p
      ensures |p| <= size && (size > 0 ==> (firstReaderEOF <==> p == []))
    {
      p, firstReaderEOF := cache.Read(size);
      Continues(image.server.image, presented, cache.content, p);
      presented := presented + p;
    }

    method ReadImage(size: nat) returns (p: seq<byte>, err: Option<ReadError>)
      requires Valid() && firstReaderEOF
      modifies this`presented, image, cache
      ensures Valid() && presented == old(presented) + p && cache.content == old(cache.content) + p && |p| <= size
      ensures err == Some(EOF) ==> presented == image.server.image && cache.content == image.server.image
      ensures old(image.body.open) && image.server.Healthy() ==>
                && image.body.open && (err.None? || err == Some(EOF)) && (err.None? && size > 0 ==> p != [])
    {
      ghost var whole, at := image.server.image, image.offset;
      SameStart(whole, presented, cache.content);
      p, err := ReadUpTo(image, size);
      assert p == whole[at..at + |p|];
      Continues(whole, presented, whole, p);
      cache.Append(p);
      if image.offset == |whole| {
        SameStart(whole, presented + p, whole);
      }
      presented := presented + p;
    }

    /** One read of at most `size` bytes.  At the end of the first part the stream changes over
        to the network, without an error. */
    method Read(size: nat) returns (p: seq<byte>, err: Option<ReadError>)
      requires Valid()
      modifies this`firstReaderEOF, this`presented, image, cache, if first.Saved? then {first.saver} else {}
      ensures Valid() && presented == old(presented) + p
      ensures old(cache.content) <= cache.content && |p| <= size
      ensures old(!firstReaderEOF) && size > 0 ==> (firstReaderEOF <==> p == [])
      ensures old(firstReaderEOF) ==> firstReaderEOF
      ensures err == Some(EOF) ==> presented == image.server.image && cache.content == image.server.image
      ensures err.Some? ==> firstReaderEOF
      ensures old(image.body.open) && image.server.Healthy() ==>
                && image.body.open && (err.None? || err == Some(EOF))
                && (err.None? && size > 0 ==> p != [] || old(!firstReaderEOF))
    {
      err := None;
      if firstReaderEOF {
        p, err := ReadImage(size);
      } else {
        match first
        case Saved(saver) => p := ReadSaved(saver, size);
        case Cached(_) => p := ReadCached(size);
      }
    }
  }

  lemma SameStart(image: seq<byte>, a: seq<byte>, b: seq<byte>)
    requires a <= image && b <= image && |a| == |b|
    ensures a == b
  {
  }

  /** Bytes read from a prefix of the image, right behind what was presented, go on with it. */
  lemma Continues(image: seq<byte>, presented: seq<byte>, from: seq<byte>, p: seq<byte>)
    requires presented <= image && from <= image && |presented| + |p| <= |from|
    requires p == from[|presented|..|presented| + |p|]
    ensures presented + p <= image
  {
    assert p == image[|presented|..|presented| + |p|];
  }

  /** Opens the image at an offset: a reader, its content length, and whether ranges are on offer. */
  method OpenImage(server: Server, offset: nat, tick: nat)
    returns (reader: Option<HttpUpdateReader>, length: nat, supportsRanges: bool)
    ensures reader.Some? <==> server.network(tick).answers && offset < |server.image|
    ensures reader.Some? ==>
              && fresh(reader.value) && reader.value.Valid() && reader.value.server == server && reader.value.offset == offset
              && reader.value.body.open && length == |server.image| - offset && supportsRanges == server.network(tick).ranges
  {
    var response, ranges := Connect(server, offset, tick);
    if response.None? {
      return None, 0, false;
    }
    var r := new HttpUpdateReader(server, offset, response.value, tick + 1);
    return Some(r), |server.image| - offset, ranges;
  }

  /** Reads the artifact header: some reads from the start of the image, all of them saved.
      An error ends it and is otherwise ignored. */
  method ReadHeader(image: HttpUpdateReader, saver: ReadSaver, sizes: seq<nat>)
    requires image.Valid() && image.server.Offers(true)
    requires saver.Valid() && saver.offset == 0 && saver.data == image.server.image[..image.offset]
    modifies image, saver
    ensures image.Valid() && saver.Valid() && saver.offset == 0 && saver.data == image.server.image[..image.offset]
    ensures old(image.body.open) && image.server.Healthy() ==> image.body.open
  {
    for i := 0 to |sizes|
      invariant image.Valid() && saver.Valid() && saver.offset == 0 && saver.data == image.server.image[..image.offset]
      invariant old(image.body.open) && image.server.Healthy() ==> image.body.open
    {
      ghost var before := image.offset;
      var p, err := ReadUpTo(image, sizes[i]);
      assert image.server.image[..before] + p == image.server.image[..image.offset];
      saver.Write(p);
      if err.Some? {
        return;
      }
    }
  }

  /** What a session is given: a stream backed by the cache, the bare image when caching is off,
      or an error. */
  datatype Fetched = Stream(stream: UpdateStream) | Bare(reader: HttpUpdateReader) | Failed

  /** The session uses the cache file. */
  ghost predicate Caching(server: Server, cacheEnabled: bool) { cacheEnabled && server.Offers(true) }

  /** The cache file is there and holds the whole image already. */
  ghost predicate Complete(server: Server, cache: CacheFile)
    reads cache
  {
    cache.present && cache.content == server.image
  }

  /** Opens the image for the installer.  When the server answers, this fails exactly for an empty
      image, and with a cache file that is already complete: nothing is left to ask for. */
  method FetchAndCacheUpdate(server: Server, cacheEnabled: bool, cache: CacheFile, headerSizes: seq<nat>)
    returns (r: Fetched, imageSize: nat)
    requires server.Steady() && cache.Valid() && cache.content <= server.image
    modifies cache
    ensures cache.Valid() && cache.content == old(cache.content) && (old(cache.present) ==> cache.present)
    ensures server.image == [] || (cacheEnabled && server.network(0).ranges && old(Complete(server, cache))) ==> r.Failed?
    ensures server.Answers() && r.Failed? ==>
              server.image == [] || (cacheEnabled && server.network(0).ranges && old(Complete(server, cache)))
    ensures r.Stream? ==>
              && fresh(r.stream) && fresh(r.stream.image) && (r.stream.first.Saved? ==> fresh(r.stream.first.saver))
              && r.stream.cache == cache && r.stream.image.server == server && r.stream.Valid() && r.stream.presented == []
              && (server.Healthy() ==> r.stream.image.body.open)
    ensures r.Stream? ==> (r.stream.first.Cached? <==> old(cache.present)) && !r.stream.firstReaderEOF
    ensures r.Bare? ==> fresh(r.reader) && r.reader.Valid() && r.reader.server == server && r.reader.offset == 0 && r.reader.body.open
    ensures !r.Failed? ==> imageSize == |server.image| && (r.Stream? <==> cacheEnabled && server.network(0).ranges)
    ensures Caching(server, cacheEnabled) <==> cacheEnabled && server.network(0).ranges
  {
    var reader, length, supportsRanges := OpenImage(server, 0, 0);
    if reader.None? {
      return Failed, 0;
    }
    var image := reader.value;
    imageSize := length;
    if !supportsRanges || !cacheEnabled {
      return Bare(image), imageSize;
    }
    var saver := new ReadSaver();
    ReadHeader(image, saver, headerSizes);
    var stream: UpdateStream;
    if cache.present {
      reader, length, supportsRanges := OpenImage(server, |cache.content|, image.tick);
      if reader.None? {
        return Failed, 0;
      }
      cache.Open();
      stream := new UpdateStream(Cached(cache), reader.value, cache);
    } else {
      cache.Create();
      stream := new UpdateStream(Saved(saver), image, cache);
    }
    return Stream(stream), imageSize;
  }

  /** One download session, ended by an error, the end of the image, or by running out of
      `sizes`, that is by an interruption at any point.  The cache keeps all that is presented;
      what it held before is presented if there are reads enough; and without faults the whole
      image is, unless the cache was complete. */
  method Session(server: Server, cacheEnabled: bool, cache: CacheFile, headerSizes: seq<nat>, sizes: seq<nat>)
    returns (presented: seq<byte>, complete: bool)
    requires server.Steady() && cache.Valid() && cache.content <= server.image
    modifies cache
    ensures cache.Valid() && old(cache.content) <= cache.content <= server.image
    ensures presented <= server.image && (complete ==> presented == server.image)
    ensures if cacheEnabled && server.network(0).ranges then presented <= cache.content else cache.content == old(cache.content)
    ensures server.image == [] || (Caching(server, cacheEnabled) && old(Complete(server, cache))) ==> !complete && presented == []
    ensures server.Answers() && Caching(server, cacheEnabled) && !old(Complete(server, cache)) && EnoughReads(sizes, |server.image|) ==>
              old(cache.content) <= presented
    ensures server.Healthy() && EnoughReads(sizes, |server.image| + 1) ==>
              (complete <==> server.image != [] && !(Caching(server, cacheEnabled) && old(Complete(server, cache))))
  {
    presented, complete := [], false;
    var r, size := FetchAndCacheUpdate(server, cacheEnabled, cache, headerSizes);
    match r
    case Failed =>
    case Bare(reader) =>
      var err;
      presented, err := ReadMany(reader, sizes);
      complete := err == Some(EOF);
    case Stream(stream) =>
      presented, complete := Drain(stream, sizes);
  }

  /** Reads a stream up to its end, an error, or the end of `sizes`. */
  method Drain(stream: UpdateStream, sizes: seq<nat>) returns (presented: seq<byte>, complete: bool)
    requires stream.Valid() && stream.presented == [] && !stream.firstReaderEOF
    modifies stream, stream.image, stream.cache, if stream.first.Saved? then {stream.first.saver} else {}
    ensures stream.Valid() && presented <= stream.cache.content && old(stream.cache.content) <= stream.cache.content
    ensures complete ==> presented == stream.image.server.image == stream.cache.content
    ensures EnoughReads(sizes, |stream.image.server.image|) ==> old(stream.cache.content) <= presented
    ensures old(stream.image.body.open) && stream.image.server.Healthy() && EnoughReads(sizes, |stream.image.server.image| + 1) ==>
              complete
  {
    presented, complete := [], false;
    ghost var healthy := stream.image.body.open && stream.image.server.Healthy();
    ghost var cached := stream.cache.content;
    for i := 0 to |sizes|
      invariant stream.Valid() && stream.presented == presented && !complete
      invariant cached <= stream.cache.content && (stream.firstReaderEOF ==> cached <= presented)
      invariant AllPositive(sizes) && !stream.firstReaderEOF ==> |presented| >= i
      invariant healthy ==> stream.image.body.open && (AllPositive(sizes) ==> |presented| + 1 >= i)
    {
      var p, err := stream.Read(sizes[i]);
      presented := presented + p;
      if err.Some? {
        complete := err == Some(EOF);
        return;
      }
    }
  }

  /** Two downloads of three bytes over a healthy network: the first one completes and fills the
      cache, and the second one fails because of that. */
  method DownloadTwice() returns (first: seq<byte>, second: seq<byte>, complete: bool, again: bool, cache: CacheFile)
    ensures first == [1, 2, 3] && complete && cache.content == [1, 2, 3] && second == [] && !again
  {
    var server := Server([1, 2, 3], 0, t => Moment(true, true, 1, false, false));
    cache := new CacheFile();
    assert server.Offers(true) && EnoughReads([8, 8, 8, 8, 8], 4);
    first, complete := Session(server, true, cache, [2], [8, 8, 8, 8, 8]);
    assert server.Healthy() && complete && cache.content == server.image != [];
    second, again := Session(server, true, cache, [2], [8, 8, 8, 8, 8]);
  }

  /** One session of many: what the network does, how often reads are retried, the setting of the
      client, and the reads of the header parser and of the installer. */
  datatype Plan = Plan(network: nat -> Moment, retries: nat, cacheEnabled: bool, headerSizes: seq<nat>, sizes: seq<nat>)
  {
    function Serve(image: seq<byte>): Server { Server(image, retries, network) }

    ghost predicate Caches(image: seq<byte>) { Caching(Serve(image), cacheEnabled) }

    /** The session meets no fault, and is not interrupted. */
    ghost predicate Undisturbed(image: seq<byte>) { Serve(image).Healthy() && EnoughReads(sizes, |image| + 1) }
  }

  /** Any number of sessions, each interrupted anywhere: the cache file stays a prefix of the
      image and never shrinks, and each session presents the image from its first byte.  `sizes`
      are the sizes of the cache file after the sessions, and that before the first one.  An
      undisturbed session presents the whole image unless the cache was complete before, and then
      the cache is complete. */
  method Sessions(image: seq<byte>, cache: CacheFile, plans: seq<Plan>) returns (presented: seq<seq<byte>>, sizes: seq<nat>)
    requires cache.Valid() && cache.content <= image
    requires forall k :: 0 <= k < |plans| ==> plans[k].Serve(image).Steady()
    modifies cache
    ensures cache.Valid() && old(cache.content) <= cache.content <= image
    ensures |presented| == |plans| && |sizes| == |plans| + 1 && sizes[0] == |old(cache.content)| && sizes[|plans|] == |cache.content|
    ensures forall k :: 0 <= k < |plans| ==> presented[k] <= image && SessionMeans(image, plans[k], presented[k], sizes[k], sizes[k + 1])
  {
    presented, sizes := [], [|cache.content|];
    for i := 0 to |plans|
      invariant cache.Valid() && old(cache.content) <= cache.content <= image
      invariant |presented| == i && |sizes| == i + 1 && sizes[0] == |old(cache.content)| && sizes[i] == |cache.content|
      invariant forall k :: 0 <= k < i ==> presented[k] <= image && SessionMeans(image, plans[k], presented[k], sizes[k], sizes[k + 1])
    {
      assert cache.content == image != [] ==> cache.present;
      var data, complete := Session(plans[i].Serve(image), plans[i].cacheEnabled, cache, plans[i].headerSizes, plans[i].sizes);
      presented := presented + [data];
      sizes := sizes + [|cache.content|];
      assert SessionMeans(image, plans[i], data, sizes[i], sizes[i + 1]);
    }
  }

  /** What a session did: it presented data, and the cache grew from `before` to `after` bytes. */
  ghost predicate SessionMeans(image: seq<byte>, plan: Plan, data: seq<byte>, before: nat, after: nat) {
    && before <= after <= |image| && data <= image
    && (if plan.Caches(image) then |data| <= after else after == before)
    && (plan.Undisturbed(image) && image != [] ==> (data == image <==> !(plan.Caches(image) && before == |image|)))
    && (plan.Undisturbed(image) && plan.Caches(image) ==> after == |image|)
  }
}
