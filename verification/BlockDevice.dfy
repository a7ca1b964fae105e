/** The optimized block device writer of the Linux client.

    Data is gathered into frames; a frame is written only when the device holds
    something else there.  The result must be that of plainly overwriting the device. */
module BlockDevice {
  import opened Bytes
  import opened Wrappers

  const MAXIMUM_CHUNK_SIZE: nat := 1024 * 1024

  datatype IoError = EOF | ENOSPC

  /** What a plain overwrite of the start of the device leaves behind. */
  function Overwrite(device: seq<byte>, s: seq<byte>): seq<byte>
    requires |s| <= |device|
  {
    s + device[|s|..]
  }

  function Min(a: nat, b: nat): nat { if a <= b then a else b }

  // Frame sizes

  /** n copies of x. */
  function Times(n: nat, x: nat): nat { if n == 0 then 0 else Times(n - 1, x) + x }

  lemma {:induction false} TimesIs(n: nat, x: nat)
    ensures Times(n, x) == n * x
  {
    if n > 0 {
      TimesIs(n - 1, x);
    }
  }

  /** x doubled k times. */
  function Doubled(x: nat, k: nat): nat { if k == 0 then x else 2 * Doubled(x, k - 1) }

  /** size is sector * 2^k, with the least k that makes it at least a chunk. */
  ghost predicate IsFrameSize(sector: nat, size: nat, k: nat) {
    && size == Doubled(sector, k) && size >= MAXIMUM_CHUNK_SIZE
    && forall j: nat :: j < k ==> Doubled(sector, j) < MAXIMUM_CHUNK_SIZE
  }

  method CalculateFrameSize(sectorSize: nat) returns (frameSize: nat)
    requires sectorSize > 0
    ensures exists k: nat :: IsFrameSize(sectorSize, frameSize, k)
    ensures frameSize >= sectorSize && Aligned(frameSize, sectorSize)
    ensures frameSize >= 0x100000 && (frameSize == sectorSize || exists half :: frameSize == 2 * half && sectorSize <= half < 0x100000)
  {
    frameSize := sectorSize;
    ghost var k: nat := 0;
    assert frameSize == Times(1, sectorSize);
    while frameSize < MAXIMUM_CHUNK_SIZE
      invariant frameSize == Doubled(sectorSize, k) && frameSize >= sectorSize && Aligned(frameSize, sectorSize)
      invariant forall j: nat :: j < k ==> Doubled(sectorSize, j) < MAXIMUM_CHUNK_SIZE
      invariant frameSize == sectorSize || exists half :: frameSize == 2 * half && sectorSize <= half < 0x100000
      decreases MAXIMUM_CHUNK_SIZE - frameSize
    {
      AlignedSum(frameSize, frameSize, sectorSize);
      frameSize := frameSize * 2;
      k := k + 1;
    }
    assert IsFrameSize(sectorSize, frameSize, k);
  }

  /** x is a whole number of sectors. */
  ghost predicate Aligned(x: nat, sector: nat) {
    exists m: nat :: x == Times(m, sector)
  }

  lemma {:induction false} TimesAdds(m: nat, n: nat, x: nat)
    ensures Times(m + n, x) == Times(m, x) + Times(n, x)
  {
    if n > 0 {
      TimesAdds(m, n - 1, x);
    }
  }

  lemma AlignedSum(x: nat, y: nat, sector: nat)
    requires Aligned(x, sector) && Aligned(y, sector)
    ensures Aligned(x + y, sector)
  {
    var m: nat :| x == Times(m, sector);
    var n: nat :| y == Times(n, sector);
    TimesAdds(m, n, sector);
  }

  /** The number of the first n frames in which the device differs from the stream. */
  function Dirty(device: seq<byte>, s: seq<byte>, frame: nat, n: nat): nat
    requires Times(n, frame) <= |device| && Times(n, frame) <= |s|
  {
    if n == 0 then 0 else
      Dirty(device, s, frame, n - 1)
      + if device[Times(n - 1, frame)..Times(n, frame)] != s[Times(n - 1, frame)..Times(n, frame)] then 1 else 0
  }

  lemma {:induction false} DirtyExtends(device: seq<byte>, s: seq<byte>, more: seq<byte>, frame: nat, n: nat)
    requires Times(n, frame) <= |device| && Times(n, frame) <= |s|
    ensures Dirty(device, s + more, frame, n) == Dirty(device, s, frame, n)
  {
    if n > 0 {
      DirtyExtends(device, s, more, frame, n - 1);
      assert (s + more)[Times(n - 1, frame)..Times(n, frame)] == s[Times(n - 1, frame)..Times(n, frame)];
    }
  }

  lemma NextFrame(s: seq<byte>, from: nat, frame: nat)
    requires from + frame <= |s|
    ensures s[from..][..frame] == s[from..from + frame] && s[from..][frame..] == s[from + frame..]
  {
  }

  /** Putting the frame at `from` in its place is one step of the plain overwrite, and one of the
      count of frames that differ. */
  lemma FrameDone(device: seq<byte>, s: seq<byte>, frame: nat, n: nat, from: nat, was: seq<byte>, now: seq<byte>, dirty: nat, dirtyNow: nat)
    requires from == Times(n, frame) && from + frame <= |device| && from + frame <= |s|
    requires was == Overwrite(device, s[..from]) && dirty == Dirty(device, s, frame, n)
    requires now == was[..from] + s[from..from + frame] + was[from + frame..]
    requires dirtyNow == dirty + if was[from..from + frame] != s[from..from + frame] then 1 else 0
    ensures from + frame == Times(n + 1, frame)
    ensures now == Overwrite(device, s[..from + frame]) && dirtyNow == Dirty(device, s, frame, n + 1)
  {
    assert was[..from] == s[..from];
    assert was[from..] == device[from..];
    assert was[from + frame..] == was[from..][frame..];
    assert was[from..from + frame] == was[from..][..frame] == device[from..from + frame];
    assert Times(n + 1, frame) == from + frame;
    assert s[..from] + s[from..from + frame] == s[..from + frame];
  }

  /** An open device file: its contents, the cursor, and what has not been synced yet. */
  class DeviceFile {
    const data: array<byte>
    var cursor: nat
    var unsynced: nat
    var offsets: seq<nat>  // where the writes so far started

    constructor (data: array<byte>)
      ensures this.data == data && cursor == 0 && unsynced == 0 && offsets == []
    {
      this.data := data;
      cursor, unsynced, offsets := 0, 0, [];
    }

    ghost predicate Valid() reads this {
      cursor <= data.Length
    }

    /** Reads n bytes, or fails at the end of the device and leaves the cursor there. */
    method ReadFull(n: nat) returns (b: seq<byte>, err: Option<IoError>)
      requires Valid()
      modifies this`cursor
      ensures Valid()
      ensures err.None? <==> old(cursor) + n <= data.Length
      ensures err.None? ==> b == data[old(cursor)..old(cursor) + n] && cursor == old(cursor) + n
      ensures err.Some? ==> cursor == data.Length && err.value == EOF
    {
      var end := Min(cursor + n, data.Length);
      b := data[cursor..end];
      err := if end < cursor + n then Some(EOF) else None;
      cursor := end;
    }

    method SeekBack(n: nat)
      requires Valid() && n <= cursor
      modifies this`cursor
      ensures Valid() && cursor == old(cursor) - n
    {
      cursor := cursor - n;
    }

    method Write(b: seq<byte>)
      requires Valid() && cursor + |b| <= data.Length
      modifies this, data
      ensures Valid() && cursor == old(cursor) + |b|
      ensures data[..] == old(data[..])[..old(cursor)] + b + old(data[..])[old(cursor) + |b|..]
      ensures unsynced == old(unsynced) + |b| && offsets == old(offsets) + [old(cursor)]
    {
      forall i | 0 <= i < |b| {
        data[cursor + i] := b[i];
      }
      unsynced := unsynced + |b|;
      offsets := offsets + [cursor];
      cursor := cursor + |b|;
    }

    method Sync()
      modifies this`unsynced
      ensures unsynced == 0
    {
      unsynced := 0;
    }
  }

  class BlockDeviceWriter {
    var bytesToUpdate: nat
    var buffer: seq<byte>
    const sectorSize: nat
    const frameSize: nat
    var framesChecked: nat
    var framesOverwritten: nat
    var bytesUntilFlush: int
    const deviceFile: DeviceFile

    ghost const original: seq<byte>  // the device before the update
    ghost var accepted: seq<byte>    // the stream taken so far
    ghost var done: nat              // how much of it went through whole frames

    ghost predicate Sized() reads this {
      && 0 < sectorSize <= frameSize && Aligned(frameSize, sectorSize)
      && |original| == deviceFile.data.Length
    }

    /** The device holds the accepted stream up to `done` and its old contents behind it,
        the buffer holds the rest of the stream, and the cursor stands at the frame border.
        There was one write for every frame that differed. */
    ghost predicate Consistent()
      reads this, deviceFile, deviceFile.data
    {
      && Sized() && deviceFile.Valid()
      && done == Times(framesChecked, frameSize) && Aligned(done, sectorSize)
      && done <= |accepted| && done <= |original|
      && buffer == accepted[done..]
      && deviceFile.cursor == done
      && deviceFile.data[..] == Overwrite(original, accepted[..done])
      && framesOverwritten == Dirty(original, accepted, frameSize, framesChecked) == |deviceFile.offsets|
      && Flushed()
    }

    /** At most a sector's worth of bytes is unsynced. */
    ghost predicate Flushed() reads this, deviceFile {
      && 0 <= bytesUntilFlush && deviceFile.unsynced + bytesUntilFlush <= sectorSize
      && forall o :: o in deviceFile.offsets ==> Aligned(o, sectorSize)
    }

    ghost predicate Valid()
      reads this, deviceFile, deviceFile.data
    {
      Consistent() && |buffer| < frameSize
    }

    constructor (deviceFile: DeviceFile, sectorSize: nat, updateSize: nat)
      requires sectorSize > 0 && deviceFile.cursor == 0 && deviceFile.unsynced == 0 && deviceFile.offsets == []
      ensures Valid() && accepted == [] && buffer == [] && done == 0
      ensures this.deviceFile == deviceFile && this.sectorSize == sectorSize
      ensures bytesToUpdate == updateSize && original == deviceFile.data[..]
      ensures exists k: nat :: IsFrameSize(sectorSize, frameSize, k)
    {
      var size := CalculateFrameSize(sectorSize);
      this.deviceFile, this.sectorSize, frameSize := deviceFile, sectorSize, size;
      assert 0 == Times(0, sectorSize);
      bytesToUpdate, buffer := updateSize, [];
      framesChecked, framesOverwritten, bytesUntilFlush := 0, 0, 0;
      original, accepted, done := deviceFile.data[..], [], 0;
    }

    method Sync()
      modifies this`bytesUntilFlush, deviceFile`unsynced
      ensures bytesUntilFlush == sectorSize && deviceFile.unsynced == 0
    {
      bytesUntilFlush := sectorSize;
      deviceFile.Sync();
    }

    method WriteAndSyncIfNeeded(b: seq<byte>)
      requires deviceFile.Valid() && deviceFile.cursor + |b| <= deviceFile.data.Length
      requires Flushed() && Aligned(deviceFile.cursor, sectorSize)
      modifies this`bytesUntilFlush, deviceFile, deviceFile.data
      ensures deviceFile.Valid() && deviceFile.cursor == old(deviceFile.cursor) + |b|
      ensures var was, at := old(deviceFile.data[..]), old(deviceFile.cursor);
              deviceFile.data[..] == was[..at] + b + was[at + |b|..]
      ensures deviceFile.offsets == old(deviceFile.offsets) + [old(deviceFile.cursor)]
      ensures if old(bytesUntilFlush) < |b| then deviceFile.unsynced == 0 && bytesUntilFlush == sectorSize
              else deviceFile.unsynced == old(deviceFile.unsynced) + |b| && bytesUntilFlush == old(bytesUntilFlush) - |b|
      ensures Flushed()
    {
      deviceFile.Write(b);
      bytesUntilFlush := bytesUntilFlush - |b|;
      if bytesUntilFlush < 0 {
        Sync();
      }
    }

    /** Compares b with the device frame under the cursor. */
    method CmpFrames(b: seq<byte>) returns (differ: bool, err: Option<IoError>)
      requires deviceFile.Valid()
      modifies deviceFile`cursor
      ensures deviceFile.Valid()
      ensures err.None? <==> old(deviceFile.cursor) + frameSize <= deviceFile.data.Length
      ensures err.Some? ==> deviceFile.cursor == deviceFile.data.Length
      ensures var at := old(deviceFile.cursor);
              err.None? ==> deviceFile.cursor == at + frameSize && (differ <==> b != deviceFile.data[at..at + frameSize])
    {
      var frame;
      frame, err := deviceFile.ReadFull(frameSize);
      differ := b != frame;
    }

    /** Puts b, at most a frame, at the cursor; fails when no whole frame is left there. */
    method WriteFrameIfDiff(b: seq<byte>) returns (err: Option<IoError>)
      requires deviceFile.Valid() && Flushed()
      requires deviceFile.cursor + frameSize <= deviceFile.data.Length ==> |b| <= frameSize && Aligned(deviceFile.cursor, sectorSize)
      modifies this`bytesUntilFlush, this`framesChecked, this`framesOverwritten, deviceFile, deviceFile.data
      ensures deviceFile.Valid() && Flushed()
      ensures err.None? <==> old(deviceFile.cursor) + frameSize <= deviceFile.data.Length
      ensures var was, at := old(deviceFile.data[..]), old(deviceFile.cursor);
              if err.Some? then
                deviceFile.data[..] == was && deviceFile.cursor == deviceFile.data.Length && framesChecked == old(framesChecked) && framesOverwritten == old(framesOverwritten)
              else
                && deviceFile.data[..] == was[..at] + b + was[at + |b|..]
                && deviceFile.cursor == at + |b|
                && framesChecked == old(framesChecked) + 1
                && framesOverwritten == old(framesOverwritten) + (if was[at..at + frameSize] != b then 1 else 0)
      ensures var was, at := old(deviceFile.data[..]), old(deviceFile.cursor);
              deviceFile.offsets == old(deviceFile.offsets) + if err.None? && was[at..at + frameSize] != b then [at] else []
      ensures |deviceFile.offsets| - framesOverwritten == old(|deviceFile.offsets| - framesOverwritten)
    {
      ghost var was, at := deviceFile.data[..], deviceFile.cursor;
      var differ;
      differ, err := CmpFrames(b);
      if err.Some? {
        return;
      }
      framesChecked := framesChecked + 1;
      if differ {
        deviceFile.SeekBack(frameSize);
        WriteAndSyncIfNeeded(b);
        framesOverwritten := framesOverwritten + 1;
      } else {
        assert was == was[..at] + was[at..at + frameSize] + was[at + frameSize..];
      }
    }

    /** Takes the next frame out of the buffer and puts it on the device. */
    method FlushFrame() returns (err: Option<IoError>)
      requires Consistent() && |buffer| >= frameSize
      modifies this`buffer, this`done, this`bytesUntilFlush, this`framesChecked, this`framesOverwritten, deviceFile, deviceFile.data
      ensures buffer == old(buffer)[frameSize..]
      ensures err.None? <==> old(done) + frameSize <= |original|
      ensures err.None? ==> Consistent() && done == old(done) + frameSize
      ensures err.Some? ==> done == old(done) && framesChecked == old(framesChecked) && deviceFile.data[..] == old(deviceFile.data[..])
      ensures err.Some? ==> deviceFile.Valid() && Flushed() && deviceFile.cursor == deviceFile.data.Length
    {
      ghost var from, was, dirty := done, deviceFile.data[..], framesOverwritten;
      NextFrame(accepted, from, frameSize);
      var b := buffer[..frameSize];
      buffer := buffer[frameSize..];
      err := WriteFrameIfDiff(b);
      if err.None? {
        done := done + frameSize;
        AlignedSum(from, frameSize, sectorSize);
        FrameDone(original, accepted, frameSize, framesChecked - 1, from, was, deviceFile.data[..], dirty, framesOverwritten);
      }
    }

    /** Buffers b, then writes out every whole frame. */
    method BufferedWrite(b: seq<byte>) returns (n: nat, err: Option<IoError>)
      requires Valid()
      modifies this`buffer, this`accepted, this`done, this`bytesUntilFlush, this`framesChecked, this`framesOverwritten, deviceFile, deviceFile.data
      ensures accepted == old(accepted) + b
      ensures err.None? ==> Valid() && n == |b|
      ensures err.Some? ==> n == 0 && Stuck()
    {
      DirtyExtends(original, accepted, b, frameSize, framesChecked);
      assert (accepted + b)[..done] == accepted[..done];
      accepted := accepted + b;
      buffer := buffer + b;
      while |buffer| >= frameSize
        invariant Consistent() && accepted == old(accepted) + b
        decreases |buffer|
      {
        err := FlushFrame();
        if err.Some? {
          return 0, err;
        }
      }
      n, err := |b|, None;
    }

    /** The state after a write error: the device has no room for the next frame, it holds
        every whole frame of the stream that did fit, and the cursor stands at its end. */
    ghost predicate Stuck()
      reads this, deviceFile, deviceFile.data
    {
      && Sized() && deviceFile.Valid() && Flushed() && deviceFile.cursor == |original|
      && done == Times(framesChecked, frameSize)
      && done <= |original| < done + frameSize <= |accepted|
      && deviceFile.data[..] == Overwrite(original, accepted[..done])
    }

    /** Takes at most the bytes still to be updated. */
    method Write(b: seq<byte>) returns (n: nat, err: Option<IoError>)
      requires Valid()
      modifies this`bytesToUpdate, this`buffer, this`accepted, this`done, this`bytesUntilFlush, this`framesChecked, this`framesOverwritten, deviceFile, deviceFile.data
      ensures accepted == old(accepted) + if |b| <= old(bytesToUpdate) then b else b[..old(bytesToUpdate)]
      ensures bytesToUpdate == old(bytesToUpdate) - n
      ensures err.None? ==> Valid() && n == if |b| <= old(bytesToUpdate) then |b| else old(bytesToUpdate)
      ensures err.None? ==> deviceFile.cursor == framesChecked * frameSize && deviceFile.unsynced <= sectorSize
      ensures err.None? ==> forall o :: o in deviceFile.offsets ==> Aligned(o, sectorSize)
      ensures err.Some? ==> n == 0 && Stuck() && (err.value == ENOSPC <==> |b| > old(bytesToUpdate))
    {
      var noSpace := false;
      var c := b;
      if |b| > bytesToUpdate {
        c := b[..bytesToUpdate];
        noSpace := true;
      }
      n, err := BufferedWrite(c);
      TimesIs(framesChecked, frameSize);
      if err.Some? {
        err := Some(if noSpace then ENOSPC else EOF);
      }
      bytesToUpdate := bytesToUpdate - n;
    }

    /** Writes the tail out and syncs; an error while writing the tail is only logged. */
    method Close() returns (err: Option<IoError>)
      requires Valid() || Stuck()
      modifies this, deviceFile, deviceFile.data
      ensures err.None? && deviceFile.unsynced == 0 && accepted == old(accepted) && done == old(done)
      ensures deviceFile.data[..] ==
              if old(done) + frameSize <= |original| then Overwrite(original, accepted)
              else Overwrite(original, accepted[..done])
    {
      var tail := WriteFrameIfDiff(buffer);
      Sync();
      err := None;
    }
  }

  // The whole update

  function Flatten(chunks: seq<seq<byte>>): seq<byte> {
    if chunks == [] then [] else chunks[0] + Flatten(chunks[1..])
  }

  /** The device is at least as long as n rounded up to whole frames. */
  ghost predicate Room(length: nat, n: nat, frame: nat) {
    exists q: nat :: n <= Times(q, frame) <= length
  }

  /** A whole frame of the stream ends behind the device. */
  ghost predicate Overflows(length: nat, n: nat, frame: nat) {
    exists q: nat :: length < Times(q, frame) <= n
  }

  /** done is the length of the device rounded down to whole frames. */
  ghost predicate RoundedDown(done: nat, length: nat, frame: nat) {
    done <= length < done + frame && exists q: nat :: done == Times(q, frame)
  }

  /** The pieces in a row: a piece alone is itself, and two rows of pieces follow each other. */
  lemma {:induction false} FlattenConcat(a: seq<seq<byte>>, b: seq<seq<byte>>)
    ensures Flatten(a + b) == Flatten(a) + Flatten(b)
    ensures forall s: seq<byte> :: Flatten([s]) == s
  {
    if a == [] {
      assert a + b == b;
    } else {
      assert (a + b)[1..] == a[1..] + b;
      FlattenConcat(a[1..], b);
    }
  }

  /** What the writer takes of the stream: all of it up to the byte budget. */
  function Taken(chunks: seq<seq<byte>>, budget: nat): seq<byte> {
    var s := Flatten(chunks);
    if |s| <= budget then s else s[..budget]
  }

  lemma TakenStep(before: seq<byte>, chunks: seq<seq<byte>>, budget: nat)
    requires chunks != []
    ensures var c := if |chunks[0]| <= budget then chunks[0] else chunks[0][..budget];
            before + Taken(chunks, budget) == before + c + Taken(chunks[1..], budget - |c|)
  {
    var c, rest := chunks[0], Flatten(chunks[1..]);
    if |c| > budget {
      assert (c + rest)[..budget] == c[..budget];
    } else if |c| + |rest| > budget {
      assert (c + rest)[..budget] == c + rest[..budget - |c|];
    }
  }

  /** Passes the stream to the writer in the given pieces, up to the first error. */
  method WriteAll(writer: BlockDeviceWriter, chunks: seq<seq<byte>>) returns (err: Option<IoError>)
    requires writer.Valid()
    modifies writer, writer.deviceFile, writer.deviceFile.data
    ensures err.None? ==> writer.Valid() && writer.accepted == old(writer.accepted) + Taken(chunks, old(writer.bytesToUpdate))
    ensures err.Some? ==> writer.Stuck() && writer.accepted <= old(writer.accepted) + Taken(chunks, old(writer.bytesToUpdate))
    ensures err.None? && |Flatten(chunks)| <= old(writer.bytesToUpdate) ==> writer.accepted == old(writer.accepted) + Flatten(chunks)
    ensures err.None? && |Flatten(chunks)| > old(writer.bytesToUpdate) ==>
              writer.accepted == old(writer.accepted) + Flatten(chunks)[..old(writer.bytesToUpdate)]
    decreases |chunks|
  {
    if chunks == [] {
      return None;
    }
    TakenStep(writer.accepted, chunks, writer.bytesToUpdate);
    var n;
    n, err := writer.Write(chunks[0]);
    if err.None? {
      err := WriteAll(writer, chunks[1..]);
    }
  }

  /** Opens the writer, passes it the stream in the given pieces, and closes it.
      If the device has room for the stream in whole frames, the outcome is that of a plain
      overwrite by what the budget admits.  If not, the device is overwritten as far as its
      own whole frames go; and that is reported only if a whole frame of the stream is missing. */
  method Install(device: array<byte>, sectorSize: nat, updateSize: nat, chunks: seq<seq<byte>>)
    returns (failed: bool, frame: nat, ghost done: nat)
    requires sectorSize > 0
    modifies device
    ensures exists k: nat :: IsFrameSize(sectorSize, frame, k)
    ensures var all := Flatten(chunks);
            var s, was := if |all| <= updateSize then all else all[..updateSize], old(device[..]);
            && (failed <==> Overflows(device.Length, |s|, frame))
            && if Room(device.Length, |s|, frame) then
                 !failed && |s| <= device.Length && device[..|s|] == s && device[|s|..] == was[|s|..]
               else
                 && RoundedDown(done, device.Length, frame) && done < |s| && (failed <==> done + frame <= |s|)
                 && device[..done] == s[..done] && device[done..] == was[done..]
                 && (|s| <= device.Length ==> (device[..|s|] == s <==> s[done..] == was[done..|s|]))
  {
    ghost var was, s := device[..], Taken(chunks, updateSize);
    var file := new DeviceFile(device);
    var writer := new BlockDeviceWriter(file, sectorSize, updateSize);
    frame := writer.frameSize;
    var err := WriteAll(writer, chunks);
    ghost var taken := writer.accepted;
    assert [] + s == s;
    done, failed := writer.done, err.Some?;
    ghost var frames := writer.framesChecked;
    var closed := writer.Close();
    InstallMeans(was, device[..], s, taken, frame, frames, failed);
  }

  /** What follows from what the writer did: it took `taken`, and whole frames of it are in place. */
  lemma InstallMeans(was: seq<byte>, now: seq<byte>, s: seq<byte>, taken: seq<byte>, frame: nat, frames: nat, failed: bool)
    requires var done := Times(frames, frame);
             && done <= |was| && done <= |taken|
             && now == (if done + frame <= |was| && !failed then
                          if |taken| <= |was| then Overwrite(was, taken) else was
                        else Overwrite(was, taken[..done]))
             && if failed then |was| < done + frame <= |taken| && taken <= s else |taken| < done + frame && taken == s
    ensures var done := Times(frames, frame);
            && |now| == |was| && (failed <==> Overflows(|was|, |s|, frame))
            && if Room(|was|, |s|, frame) then !failed && |s| <= |was| && now[..|s|] == s && now[|s|..] == was[|s|..]
               else
                 && RoundedDown(done, |was|, frame) && done < |s| && (failed <==> done + frame <= |s|)
                 && now[..done] == s[..done] && now[done..] == was[done..]
                 && (|s| <= |was| ==> (now[..|s|] == s <==> s[done..] == was[done..|s|]))
  {
    var done := Times(frames, frame);
    if failed {
      NoRoom(|was|, |s|, frame, frames);
      assert taken[..done] == s[..done];
    } else {
      TailRoom(|was|, |s|, frame, frames);
    }
    assert s[..|s|] == s;
    if Room(|was|, |s|, frame) {
      OverwriteParts(was, s);
    } else {
      OverwriteParts(was, s[..done]);
      if |s| <= |was| {
        LostTail(was, s, done);
      }
    }
  }

  lemma TimesGrows(a: nat, b: nat, x: nat)
    requires a <= b
    ensures Times(a, x) <= Times(b, x)
  {
    TimesAdds(a, b - a, x);
  }

  lemma NothingBetween(q: nat, frames: nat, frame: nat)
    ensures if q <= frames then Times(q, frame) <= Times(frames, frame) else Times(q, frame) >= Times(frames, frame) + frame
  {
    if q <= frames {
      TimesGrows(q, frames, frame);
    } else {
      TimesGrows(frames + 1, q, frame);
    }
  }

  lemma NoRoom(length: nat, n: nat, frame: nat, frames: nat)
    requires Times(frames, frame) <= length < Times(frames, frame) + frame <= n
    ensures !Room(length, n, frame) && Overflows(length, n, frame)
  {
    assert length < Times(frames + 1, frame) <= n;
    forall q: nat ensures !(n <= Times(q, frame) <= length) {
      NothingBetween(q, frames, frame);
    }
  }

  /** With a partial frame left over, the device has room exactly when that frame fits; no whole
      frame of the stream is missing. */
  lemma TailRoom(length: nat, n: nat, frame: nat, frames: nat)
    requires Times(frames, frame) <= n < Times(frames, frame) + frame && Times(frames, frame) <= length
    ensures Room(length, n, frame) <==> n == Times(frames, frame) || Times(frames, frame) + frame <= length
    ensures !Overflows(length, n, frame)
  {
    forall q: nat
      ensures !(length < Times(q, frame) <= n)
      ensures n <= Times(q, frame) <= length ==> n == Times(frames, frame) || Times(frames, frame) + frame <= length
    {
      NothingBetween(q, frames, frame);
    }
    if Times(frames, frame) + frame <= length {
      assert n <= Times(frames + 1, frame) <= length;
    }
  }

  /** A tail that was not written makes no difference exactly when the device held it already. */
  lemma LostTail(device: seq<byte>, s: seq<byte>, done: nat)
    requires done <= |s| <= |device|
    ensures Overwrite(device, s[..done])[..|s|] == s <==> s[done..] == device[done..|s|]
  {
    var a := Overwrite(device, s[..done])[..|s|];
    assert a == s[..done] + device[done..|s|];
    assert s == s[..done] + s[done..];
    assert a[done..] == device[done..|s|];
  }

  lemma OverwriteParts(device: seq<byte>, s: seq<byte>)
    requires |s| <= |device|
    ensures |Overwrite(device, s)| == |device| && Overwrite(device, s)[..|s|] == s && Overwrite(device, s)[|s|..] == device[|s|..]
  {
  }

  // The two conditions as a caller can check them

  lemma Quotient(n: nat, x: nat)
    requires x > 0
    ensures Times(n / x, x) <= n < Times(n / x, x) + x && n % x == n - Times(n / x, x)
  {
    TimesIs(n / x, x);
  }

  /** A whole frame of the stream is missing exactly if the stream has more of them than the device. */
  lemma OverflowsIff(length: nat, n: nat, frame: nat)
    requires frame > 0
    ensures Overflows(length, n, frame) <==> length / frame < n / frame
  {
    Quotient(length, frame);
    Quotient(n, frame);
    OverflowsAt(length, n, frame, length / frame, n / frame);
  }

  lemma AlignedIff(x: nat, sector: nat)
    requires sector > 0
    ensures Aligned(x, sector) <==> x % sector == 0
  {
    var a := x / sector;
    Quotient(x, sector);
    forall m: nat | x == Times(m, sector) ensures Times(m, sector) == Times(a, sector) {
      NothingBetween(m, a, sector);
      NothingBetween(a, m, sector);
    }
  }

  /** The part of the device that its own whole frames make up. */
  lemma RoundedDownIff(done: nat, length: nat, frame: nat)
    requires frame > 0
    ensures RoundedDown(done, length, frame) <==> done == length - length % frame
  {
    var a := length / frame;
    Quotient(length, frame);
    assert length - length % frame == Times(a, frame);
    forall q: nat | Times(q, frame) <= length < Times(q, frame) + frame ensures Times(q, frame) == Times(a, frame) {
      NothingBetween(q, a, frame);
      NothingBetween(a, q, frame);
    }
  }

  lemma OverflowsAt(length: nat, n: nat, frame: nat, a: nat, b: nat)
    requires Times(a, frame) <= length < Times(a, frame) + frame && Times(b, frame) <= n < Times(b, frame) + frame
    ensures Overflows(length, n, frame) <==> a < b
  {
    NothingBetween(b, a, frame);
    forall q: nat | length < Times(q, frame) <= n ensures a < b {
      NothingBetween(q, a, frame);
      NothingBetween(q, b, frame);
    }
  }

  /** There is room exactly if n fits and so does its last frame in full. */
  lemma RoomIff(length: nat, n: nat, frame: nat)
    requires frame > 0
    ensures Room(length, n, frame) <==> n <= length && (n % frame == 0 || n / frame < length / frame)
  {
    Quotient(length, frame);
    Quotient(n, frame);
    RoomAt(length, n, frame, length / frame, n / frame);
  }

  lemma RoomAt(length: nat, n: nat, frame: nat, a: nat, b: nat)
    requires Times(a, frame) <= length < Times(a, frame) + frame && Times(b, frame) <= n < Times(b, frame) + frame
    ensures Room(length, n, frame) <==> n <= length && (n == Times(b, frame) || b < a)
  {
    if n <= length {
      TailRoom(length, n, frame, b);
      NothingBetween(a, b, frame);
    }
  }

  /** An update that reports success and lost its tail: one frame and a half of zeros, overwritten by
      one frame and a quarter of ones. */
  method TailIsLost() returns (device: array<byte>, s: seq<byte>, failed: bool)
    ensures !failed && 0 < |s| < device.Length && device[|s| - 1] != s[|s| - 1]
  {
    var frame;
    ghost var done;
    device := new byte[0x180000](_ => 0);
    s := seq(0x140000, _ => 1);
    ghost var was := device[..];
    failed, frame, done := Install(device, MAXIMUM_CHUNK_SIZE, |s|, [s]);
    ghost var k: nat :| IsFrameSize(MAXIMUM_CHUNK_SIZE, frame, k);
    assert Doubled(MAXIMUM_CHUNK_SIZE, 0) == MAXIMUM_CHUNK_SIZE && k == 0;
    assert Flatten([s]) == s && Taken([s], |s|) == s;
    OverflowsIff(device.Length, |s|, frame);
    RoomIff(device.Length, |s|, frame);
    assert s[done..][|s| - 1 - done] == 1 && was[done..|s|][|s| - 1 - done] == 0;
    assert device[|s| - 1] == device[..][|s| - 1] == was[|s| - 1];
  }
}
