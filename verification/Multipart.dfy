/** Multipart transfers: how an upload is cut into parts, how the device sends them, and how
    the server puts the file together again. */
module Multipart {
  import opened Bytes
  import opened Wrappers

  const MIN_PART_SIZE: int := 5 * 0x10_0000
  const MAX_PART_SIZE: int := 5 * 0x4000_0000
  const MAX_PART_COUNT: int := 10000
  const MAX_UPLOAD_SIZE: int := 5 * 0x100_0000_0000

  datatype Parts = Parts(count: int, size: int)

  /** The desired part size, within the limits. */
  function Clamp(desired: int): int {
    if desired < MIN_PART_SIZE then MIN_PART_SIZE else if desired > MAX_PART_SIZE then MAX_PART_SIZE else desired
  }

  function CeilDiv(a: int, b: int): int
    requires b > 0
  {
    (a + b - 1) / b
  }

  /** The number and the size of the parts, or None for an upload that is too large. */
  function UploadPartCount(uploadSize: int, desiredPartSize: int): Option<Parts> {
    var part := Clamp(desiredPartSize);
    if uploadSize > MAX_UPLOAD_SIZE then None
    else if uploadSize <= part then Some(Parts(1, uploadSize))
    else if CeilDiv(uploadSize, part) <= MAX_PART_COUNT then Some(Parts(CeilDiv(uploadSize, part), part))
    else Some(Parts(MAX_PART_COUNT, CeilDiv(uploadSize, MAX_PART_COUNT)))
  }

  lemma CeilDivBounds(a: int, b: int)
    requires b > 0
    ensures (CeilDiv(a, b) - 1) * b < a <= CeilDiv(a, b) * b
  {
    var q := CeilDiv(a, b);
    assert a + b - 1 == b * q + (a + b - 1) % b;
  }

  /** The parts cover the upload exactly, all but the last are full, and their number and size
      keep to the limits of the storage service. */
  lemma PartsFit(uploadSize: int, desiredPartSize: int)
    ensures UploadPartCount(uploadSize, desiredPartSize).None? <==> uploadSize > 5_497_558_138_880
    ensures 0 < uploadSize <= 5_497_558_138_880 ==>
              var p := UploadPartCount(uploadSize, desiredPartSize).value;
              && 1 <= p.count <= 10_000 && 0 < p.size <= 5_368_709_120
              && (p.count > 1 ==> p.size >= 5_242_880)
              && (p.count - 1) * p.size < uploadSize <= p.count * p.size
  {
    var part := Clamp(desiredPartSize);
    if part < uploadSize <= MAX_UPLOAD_SIZE {
      CeilDivBounds(uploadSize, part);
      CeilDivBounds(uploadSize, MAX_PART_COUNT);
      var q := CeilDiv(uploadSize, part);
      if q > MAX_PART_COUNT {
        TimesGrows(MAX_PART_COUNT, q - 1, part);
      } else if q < 1 {
        TimesGrows(q, 0, part);
        assert false;
      }
    }
  }

  /** The parts have the desired size, or the limit next to it, if that needs no more of them than
      allowed, and are as small as possible if not.  An upload that fits into one is one part. */
  lemma PartSizeIsBest(uploadSize: int, desiredPartSize: int, part: int)
    requires uploadSize <= 5_497_558_138_880
    requires 5_242_880 <= part <= 5_368_709_120
    requires desiredPartSize < part ==> part == 5_242_880
    requires desiredPartSize > part ==> part == 5_368_709_120
    ensures var p := UploadPartCount(uploadSize, desiredPartSize).value;
            if uploadSize <= part then p == Parts(1, uploadSize)
            else if uploadSize <= 10_000 * part then p.size == part && (p.count - 1) * part < uploadSize <= p.count * part
            else p.count == 10_000 && (p.size - 1) * 10_000 < uploadSize <= p.size * 10_000
  {
    assert part == Clamp(desiredPartSize);
    CeilDivBounds(uploadSize, part);
    CeilDivBounds(uploadSize, MAX_PART_COUNT);
    var q := CeilDiv(uploadSize, part);
    if q > MAX_PART_COUNT {
      TimesGrows(MAX_PART_COUNT, q - 1, part);
    } else {
      TimesGrows(q, MAX_PART_COUNT, part);
    }
  }

  lemma TimesGrows(a: int, b: int, x: int)
    requires a <= b && x >= 0
    ensures a * x <= b * x
  {
  }

  /** Part i of the upload with the given name. */
  datatype PartName = PartName(upload: nat, index: nat)

  /** The stored parts of the given names, one after the other. */
  function Joined(storage: map<PartName, seq<byte>>, names: seq<PartName>): seq<byte>
    requires forall n :: n in names ==> n in storage
  {
    if names == [] then [] else
      assert names[|names| - 1] in names;
      Joined(storage, names[..|names| - 1]) + storage[names[|names| - 1]]
  }

  class MultipartUploader {
    var partFiles: seq<PartName>
    var partCount: int
    var partSize: int
    var storage: map<PartName, seq<byte>>  // the uploaded parts
    var finalFile: Option<seq<byte>>

    constructor ()
      ensures partFiles == [] && finalFile == None && storage == map[]
    {
      partFiles, partCount, partSize, storage, finalFile := [], 0, 0, map[], None;
    }

    /** Where to put the parts of an upload, in order, and how large they are. */
    method GenerateUrls(uploadSize: int, desiredPartSize: int, uploadName: nat) returns (urls: seq<PartName>, ok: bool)
      requires partFiles == []
      modifies this`partFiles, this`partCount, this`partSize
      ensures ok <==> uploadSize <= MAX_UPLOAD_SIZE
      ensures ok ==> UploadPartCount(uploadSize, desiredPartSize) == Some(Parts(partCount, partSize))
      ensures ok ==> urls == partFiles && |urls| == partCount && forall i :: 0 <= i < |urls| ==> urls[i] == PartName(uploadName, i)
    {
      urls := [];
      PartsFit(uploadSize, desiredPartSize);
      var parts := UploadPartCount(uploadSize, desiredPartSize);
      if parts.None? {
        return urls, false;
      }
      partCount, partSize := parts.value.count, parts.value.size;
      for i := 0 to parts.value.count
        invariant partCount == parts.value.count && partSize == parts.value.size
        invariant urls == partFiles && |urls| == i && forall k :: 0 <= k < i ==> urls[k] == PartName(uploadName, k)
      {
        partFiles := partFiles + [PartName(uploadName, i)];
        urls := urls + [PartName(uploadName, i)];
      }
      ok := true;
    }

    /** Stores a part and answers with its name. */
    method Put(url: PartName, content: seq<byte>) returns (etag: PartName)
      modifies this`storage
      ensures storage == old(storage)[url := content] && etag == url
    {
      storage := storage[url := content];
      etag := url;
    }

    /** Joins the parts, if the etags are those of all parts in order. */
    method CompleteUpload(etags: seq<PartName>)
      requires forall n :: n in partFiles ==> n in storage
      modifies this`finalFile
      ensures finalFile == if etags == partFiles then Some(Joined(storage, partFiles)) else old(finalFile)
    {
      if |etags| != |partFiles| {
        return;
      }
      for i := 0 to |etags|
        invariant etags[..i] == partFiles[..i]
      {
        if etags[i] != partFiles[i] {
          return;
        }
      }
      assert etags == etags[..|etags|] == partFiles[..|etags|] == partFiles;
      var out: seq<byte> := [];
      for i := 0 to |partFiles|
        invariant forall n :: n in partFiles[..i] ==> n in storage
        invariant out == Joined(storage, partFiles[..i])
      {
        assert partFiles[..i + 1][..i] == partFiles[..i];
        out := out + storage[partFiles[i]];
      }
      assert partFiles[..|partFiles|] == partFiles;
      finalFile := Some(out);
    }
  }

  function AtMost(n: nat, limit: nat): nat { if n <= limit then n else limit }

  /** Sends the file piece by piece, each read into the same buffer of the part's size, to the
      given places.  Running into the end of the file, before a piece, ends it with a failure. */
  method SendFile(file: seq<byte>, partSize: nat, urls: seq<PartName>, server: MultipartUploader)
    returns (etags: seq<PartName>, status: int)
    requires forall i, j :: 0 <= i < j < |urls| ==> urls[i] != urls[j]
    modifies server`storage
    ensures status == 0 || status == 1
    ensures status == 0 <==> urls == [] || partSize == 0 || (|urls| - 1) * partSize < |file|
    ensures status == 0 ==> etags == urls
    ensures etags <= urls && forall n :: n in etags ==> n in server.storage && (partSize > 0 ==> server.storage[n] != [])
    ensures Joined(server.storage, etags) == file[..if status == 0 then AtMost(|urls| * partSize, |file|) else |file|]
  {
    etags := [];
    var cursor := 0;
    for i := 0 to |urls|
      invariant etags == urls[..i] && cursor == AtMost(i * partSize, |file|)
      invariant i > 0 && partSize > 0 ==> (i - 1) * partSize < |file|
      invariant forall n :: n in etags ==> n in server.storage && (partSize > 0 ==> server.storage[n] != [])
      invariant Joined(server.storage, etags) == file[..cursor]
    {
      var c := AtMost(partSize, |file| - cursor);
      if c == 0 && partSize > 0 {
        TimesGrows(i, |urls| - 1, partSize);
        return etags, 1;
      }
      NextPiece(file, partSize, cursor, i);
      ghost var before := server.storage;
      var etag := server.Put(urls[i], file[cursor..cursor + c]);
      JoinedKeeps(before, server.storage, etags, urls[i]);
      assert (etags + [etag])[..i] == etags;
      etags := etags + [etag];
      cursor := cursor + c;
    }
    assert urls[..|urls|] == urls;
    status := 0;
  }

  lemma NextPiece(file: seq<byte>, partSize: nat, cursor: nat, i: nat)
    requires cursor == AtMost(i * partSize, |file|)
    ensures var c := AtMost(partSize, |file| - cursor);
            && file[..cursor] + file[cursor..cursor + c] == file[..cursor + c]
            && cursor + c == AtMost((i + 1) * partSize, |file|)
            && (c > 0 ==> i * partSize < |file|)
  {
    assert (i + 1) * partSize == i * partSize + partSize;
  }

  /** Storing another part does not disturb those already there. */
  lemma {:induction false} JoinedKeeps(a: map<PartName, seq<byte>>, b: map<PartName, seq<byte>>, names: seq<PartName>, other: PartName)
    requires (forall n :: n in names ==> n in a) && other !in names
    requires forall n :: n in a && n != other ==> n in b && b[n] == a[n]
    ensures forall n :: n in names ==> n in b
    ensures Joined(a, names) == Joined(b, names)
  {
    if names != [] {
      assert names[|names| - 1] in names;
      JoinedKeeps(a, b, names[..|names| - 1], other);
    }
  }

  /** A whole transfer: for every file up to the size limit and every desired part size the
      device sends exactly as many pieces as there are parts, and the server ends up with
      the file. */
  method Transfer(file: seq<byte>, desiredPartSize: int, uploadName: nat) returns (server: MultipartUploader, ok: bool)
    ensures fresh(server) && (ok <==> |file| <= MAX_UPLOAD_SIZE)
    ensures server.finalFile == if ok then Some(file) else None
    ensures ok && file != [] ==> forall n :: n in server.partFiles ==> n in server.storage && server.storage[n] != []
  {
    server := new MultipartUploader();
    var urls;
    PartsFit(|file|, desiredPartSize);
    urls, ok := server.GenerateUrls(|file|, desiredPartSize, uploadName);
    if !ok {
      return;
    }
    var etags, status := SendFile(file, server.partSize, urls, server);
    assert file[..|file|] == file;
    server.CompleteUpload(etags);
  }
}
