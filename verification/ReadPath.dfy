/**
 Whole reads: an adapter is drained by a consumer that polls it with buffers of arbitrary sizes.
 The theorems here are about complete objects and name neither frames nor chunks.
 */
module ReadPath {
  import opened Base
  import opened Arithmetic
  import opened Framing
  import opened Streams
  import opened ChunkStore
  import opened ChunkLayout
  import opened FrameStreams

  const COPY_BUFFER: nat := 8192

  /** The sizes of the buffers a consumer offers, one per poll; afterwards it uses a fixed size. */
  function NextCap(caps: seq<nat>, i: nat): (c: nat)
    requires forall j :: 0 <= j < |caps| ==> caps[j] > 0
    ensures c > 0
  {
    if i < |caps| then caps[i] else COPY_BUFFER
  }

  method DrainEncryptor(enc: FrameEncryptor, caps: seq<nat>) returns (out: seq<Byte>, e: Option<IoError>)
    requires enc.Valid() && forall j :: 0 <= j < |caps| ==> caps[j] > 0
    modifies enc, enc.ptBuf, enc.inner
    ensures out <= old(enc.Rest())
    ensures old(enc.inner.Healthy()) ==> e.None?
    ensures e.None? ==> out == old(enc.Rest())
  {
    hide Frames;
    out := [];
    var i := 0;
    while true
      invariant enc.Valid() && out + enc.Rest() == old(enc.Rest())
      invariant old(enc.inner.Healthy()) ==> enc.inner.Healthy()
      decreases |enc.Rest()| + |enc.inner.schedule|
    {
      var r := enc.PollRead(NextCap(caps, i));
      i := i + 1;
      match r
      case Pending =>
      case Failed(err) => return out, Some(err);
      case Ready(bytes) =>
        if bytes == [] {
          return out, None;
        }
        out := out + bytes;
    }
  }

  method DrainReader(reader: VerifiedChunkReader, caps: seq<nat>) returns (out: seq<Byte>, e: Option<IoError>)
    requires reader.Valid() && forall j :: 0 <= j < |caps| ==> caps[j] > 0
    modifies reader
    ensures out <= old(reader.Rest())
    ensures old(reader.Healthy()) ==> e.None?
    ensures e.None? ==> out == old(reader.Rest())
  {
    hide VerifiedChunkReader.Valid, VerifiedChunkReader.Rest, VerifiedChunkReader.Healthy;
    out := [];
    var i := 0;
    while true
      invariant reader.Valid() && out + reader.Rest() == old(reader.Rest())
      invariant old(reader.Healthy()) ==> reader.Healthy()
      decreases |reader.Rest()|
    {
      var r := reader.PollRead(NextCap(caps, i));
      i := i + 1;
      match r
      case Failed(err) => return out, Some(err);
      case Ready(bytes) =>
        if bytes == [] {
          return out, None;
        }
        out := out + bytes;
    }
  }

  method DrainDecryptor(dec: FrameDecryptor, caps: seq<nat>) returns (out: seq<Byte>, e: Option<IoError>)
    requires dec.Valid() && dec.Tracks() && dec.Trusted()
    requires forall j :: 0 <= j < |caps| ==> caps[j] > 0
    modifies dec, dec.frameBuf, dec.inner.Obj()
    ensures out <= old(dec.Rest())
    ensures old(dec.Genuine()) && old(dec.Healthy()) ==> e.None?
    ensures old(dec.Genuine()) && e.None? ==> out == old(dec.Rest())
    // where it stops, and that the frames before that are complete and open
    ensures dec.Valid() && dec.Tracks()
    ensures e.None? ==> dec.Stopped(Ready([]), true)
    ensures e.Some? && old(dec.Healthy()) ==> dec.Stopped(Failed(e.value), true)
    ensures dec.codec.chunkSize > 0
    ensures Walks(dec.codec, old(|dec.tail|), old(dec.chunkIndex), old(dec.Cipher()), |dec.tail|, dec.chunkIndex, dec.Cipher())
    ensures dec.remaining == old(dec.remaining) - |out| && dec.Left() == old(dec.Left()) - |out|
    ensures out != [] ==> dec.skipBytes == 0
  {
    hide *;
    out := [];
    var i := 0;
    ghost var genuine := dec.Genuine();
    RestIsThere(dec);
    WalksNowhere(dec.codec, |dec.tail|, dec.chunkIndex, dec.Cipher());
    while true
      invariant dec.Valid() && dec.Tracks() && dec.Trusted() && dec.outPos <= |dec.outBuf|
      invariant genuine ==> dec.Genuine()
      invariant dec.codec.chunkSize > 0
      invariant Walks(dec.codec, old(|dec.tail|), old(dec.chunkIndex), old(dec.Cipher()), |dec.tail|, dec.chunkIndex, dec.Cipher())
      invariant out + dec.Rest() == old(dec.Rest())
      invariant old(dec.Healthy()) ==> dec.Healthy()
      invariant dec.remaining == old(dec.remaining) - |out| && dec.Left() == old(dec.Left()) - |out|
      invariant out != [] ==> dec.skipBytes == 0
      decreases |dec.Rest()| + dec.inner.Stalls()
    {
      ghost var ahead, index, x := |dec.tail|, dec.chunkIndex, dec.Cipher();
      var r := dec.PollRead(NextCap(caps, i));
      WalksFurther(dec.codec, old(|dec.tail|), old(dec.chunkIndex), old(dec.Cipher()), ahead, index, x, |dec.tail|, dec.chunkIndex, dec.Cipher());
      i := i + 1;
      match r
      case Pending =>
      case Failed(err) => return out, Some(err);
      case Ready(bytes) =>
        if bytes == [] {
          return out, None;
        }
        out := out + bytes;
    }
  }

  lemma RestIsThere(dec: FrameDecryptor)
    requires dec.Valid()
    ensures dec.outPos <= |dec.outBuf| && [] + dec.Rest() == dec.Rest() && (dec.Tracks() ==> dec.codec.chunkSize > 0)
  {
  }

  /** Encrypts a whole stream through the adapter. */
  method EncryptStream(codec: Codec, plaintext: seq<Byte>, schedule: seq<Tick>, caps: seq<nat>) returns (r: Result<seq<Byte>, IoError>)
    requires codec.chunkSize > 0 && |codec.prefix| == 4
    requires forall j :: 0 <= j < |caps| ==> caps[j] > 0
    ensures r.Ok? ==> r.value == Frames(codec, plaintext, 0)
    ensures Fail !in schedule ==> r.Ok?
  {
    var src := new ByteSource(plaintext, schedule);
    var enc := new FrameEncryptor(src, codec);
    var out, e := DrainEncryptor(enc, caps);
    r := if e.Some? then Err(e.value) else Ok(out);
  }

  /**
   Round trip with random access: encrypting a stream, seeking the result to `ciphertext_offset` and
   decrypting with `for_range` yields exactly the requested window of the plaintext, for every pace
   of both streams and every sequence of buffer sizes on either side.
   */
  method EncryptThenReadRange(codec: Codec, plaintext: seq<Byte>, offset: nat, length: nat,
                              writeSchedule: seq<Tick>, readSchedule: seq<Tick>, writeCaps: seq<nat>, readCaps: seq<nat>)
    returns (out: seq<Byte>)
    requires WellFormed(codec, |plaintext|) && Opens(codec, plaintext) && |codec.prefix| == 4
    requires Fail !in writeSchedule && Fail !in readSchedule
    requires forall j :: 0 <= j < |writeCaps| ==> writeCaps[j] > 0
    requires forall j :: 0 <= j < |readCaps| ==> readCaps[j] > 0
    ensures out == Slice(plaintext, offset, length)
  {
    hide Take, Drop, Slice, Owed, Opens, Frames, Times, Min;
    var written := EncryptStream(codec, plaintext, writeSchedule, writeCaps);
    var disk := written.value;
    SeekLandsOnFrame(codec, plaintext, offset);
    var file := new ByteSource(Drop(disk, CiphertextOffset(codec.chunkSize, offset)), readSchedule);
    var dec := new FrameDecryptor.ForRange(File(file), codec, |plaintext|, offset, length, plaintext, []);
    var e;
    out, e := DrainDecryptor(dec, readCaps);
  }

  /** At most as many files were lost or altered as there are parity shards. */
  ghost predicate Survives(man: Manifest, contents: seq<seq<Byte>>, disk: Disk, lost: set<nat>) {
    && |lost| <= Parity(man)
    && forall i: nat :: i < |contents| && i !in lost ==> i in disk && disk[i] == contents[i]
  }

  lemma SurvivorsServeEverything(ps: Primitives, man: Manifest, contents: seq<seq<Byte>>, disk: Disk, lost: set<nat>)
    requires Describes(ps, man, contents) && Survives(man, contents, disk, lost)
    ensures forall i: nat :: i < |contents| ==> Recoverable(ps, man, disk, i)
  {
    assert |man.chunks| == |contents|;
    forall i: nat | i < |contents|
      ensures Recoverable(ps, man, disk, i)
    {
      AnyMLossesAreRecoverable(ps, man, contents, disk, lost, i);
    }
  }

  /**
   `get_object_range` on an erasure-coded, unencrypted object. Whatever is on disk, only bytes of the
   requested window come out, in order; with at most m files lost or altered, all of them do.
   */
  method ReadChunkedRange(ps: Primitives, man: Manifest, disk: Disk, offset: nat, length: nat, caps: seq<nat>,
                          ghost contents: seq<seq<Byte>>, ghost data: seq<Byte>, ghost lost: set<nat>)
    returns (out: seq<Byte>, e: Option<IoError>)
    requires Mds(ps) && CollisionFree(ps) && Describes(ps, man, contents) && Holds(man, contents, data)
    requires offset + length <= man.totalSize
    requires forall j :: 0 <= j < |caps| ==> caps[j] > 0
    ensures out <= Slice(data, offset, length)
    ensures e.None? ==> out == Slice(data, offset, length)
    ensures Survives(man, contents, disk, lost) ==> e.None?
  {
    hide Slice, Mds, CollisionFree, Describes, Recoverable, Times, Cat, Min;
    ghost var last := if length == 0 then 0 else (offset + length - 1) / man.chunkSize;
    if length > 0 {
      DivLess(offset + length - 1, man.chunkSize, man.chunkCount);
      WindowInsideData(man, contents, data, offset, length);
      WindowBlocks(offset, length, man.chunkSize);
      StartFitsChunk(man, contents, data, offset);
    }
    SliceLength(data, offset, length);
    if Survives(man, contents, disk, lost) {
      SurvivorsServeEverything(ps, man, contents, disk, lost);
    }
    var reader := new VerifiedChunkReader.WithRange(ps, man, disk, offset, length, contents);
    e := reader.Preflight();
    if e.Some? {
      return [], e;
    }
    out, e := DrainReader(reader, caps);
  }

  /**
   `get_object_version` on an encrypted, erasure-coded version: chunk reader, its preflight, decryptor
   over it, its preflight, then the body. With at most m files lost or altered the result is exactly
   the original plaintext; with more it may fail, but what came out is a prefix of it.
   */
  method ReadEncryptedVersion(ps: Primitives, man: Manifest, disk: Disk, codec: Codec, size: nat, caps: seq<nat>,
                              ghost contents: seq<seq<Byte>>, ghost plaintext: seq<Byte>, ghost lost: set<nat>)
    returns (out: seq<Byte>, e: Option<IoError>)
    requires Mds(ps) && CollisionFree(ps) && Describes(ps, man, contents)
    requires WellFormed(codec, |plaintext|) && Opens(codec, plaintext) && size == |plaintext|
    requires Holds(man, contents, Frames(codec, plaintext, 0))
    requires forall j :: 0 <= j < |caps| ==> caps[j] > 0
    ensures out <= plaintext
    ensures e.None? ==> out == plaintext
    ensures Survives(man, contents, disk, lost) ==> e.None?
  {
    hide Take, Drop, Slice, Owed, Opens, Frames, Times, Min, Mds, CollisionFree, Describes, Recoverable, Cat;
    hide Unforgeable, FrameDecryptor.Genuine, FrameDecryptor.Rest;
    CatOfWholeObject(man, contents, Frames(codec, plaintext, 0));
    WholeAsRange(plaintext, codec.chunkSize);
    if Survives(man, contents, disk, lost) {
      SurvivorsServeEverything(ps, man, contents, disk, lost);
    }
    var reader := new VerifiedChunkReader.Full(ps, man, disk, contents);
    e := reader.Preflight();
    if e.Some? {
      return [], e;
    }
    var dec := new FrameDecryptor.ForRange(Chunks(reader), codec, size, 0, size, plaintext, []);
    e := dec.Preflight();
    if e.Some? {
      return [], e;
    }
    out, e := DrainDecryptor(dec, caps);
  }

  lemma WholeAsRange(p: seq<Byte>, chunkSize: nat)
    requires chunkSize > 0
    ensures Slice(p, 0, |p|) == p && Take(Tail(p, chunkSize, 0 / chunkSize), |p|) == p
    ensures 0 / chunkSize == 0 && 0 % chunkSize == 0
    ensures Tail(p, chunkSize, 0 / chunkSize) == p
  {
    DivUnique(0, chunkSize, 0, 0);
  }

  /**
   `get_object_range` on an encrypted, erasure-coded object: the chunk reader is started at the frame
   that holds `offset` and runs to the end of the ciphertext. The decryptor is not preflighted here.
   */
  method ReadEncryptedRange(ps: Primitives, man: Manifest, disk: Disk, codec: Codec, size: nat, offset: nat, length: nat,
                            caps: seq<nat>, ghost contents: seq<seq<Byte>>, ghost plaintext: seq<Byte>, ghost lost: set<nat>)
    returns (out: seq<Byte>, e: Option<IoError>)
    requires Mds(ps) && CollisionFree(ps) && Describes(ps, man, contents)
    requires WellFormed(codec, |plaintext|) && Opens(codec, plaintext) && size == |plaintext|
    requires Holds(man, contents, Frames(codec, plaintext, 0))
    requires forall j :: 0 <= j < |caps| ==> caps[j] > 0
    ensures out <= Slice(plaintext, offset, length)
    ensures e.None? ==> out == Slice(plaintext, offset, length)
    ensures Survives(man, contents, disk, lost) || plaintext == [] ==> e.None?
  {
    hide *;
    SetUp(man, contents, codec, plaintext);
    ghost var ciphertext := Frames(codec, plaintext, 0);
    var ctOffset := CiphertextOffset(codec.chunkSize, offset);
    var ctLength := if man.totalSize >= ctOffset then man.totalSize - ctOffset else 0;
    SeekLandsOnFrame(codec, plaintext, offset);
    RestOfCiphertext(man, contents, ciphertext, ctOffset, ctLength);
    var reader := new VerifiedChunkReader.WithRange(ps, man, disk, ctOffset, ctLength, contents);
    RangeReader(reader, ciphertext, ctOffset, ctLength, lost);
    e := reader.Preflight();
    if e.Some? {
      return [], e;
    }
    ChunksAre(reader);
    var dec := new FrameDecryptor.ForRange(Chunks(reader), codec, size, offset, length, plaintext, []);
    StartsGenuine(dec);
    out, e := DrainDecryptor(dec, caps);
  }

  lemma SetUp(man: Manifest, contents: seq<seq<Byte>>, codec: Codec, plaintext: seq<Byte>)
    requires WellFormed(codec, |plaintext|) && Holds(man, contents, Frames(codec, plaintext, 0))
    ensures codec.chunkSize > 0 && man.chunkSize > 0 && man.totalSize == |Frames(codec, plaintext, 0)|
    ensures plaintext == [] ==> man.totalSize == 0
  {
  }

  /** A reader of the rest of the ciphertext owes just that, and can serve it if the files survive or there is nothing to serve. */
  lemma RangeReader(reader: VerifiedChunkReader, data: seq<Byte>, offset: nat, length: nat, lost: set<nat>)
    requires reader.Valid() && Holds(reader.man, reader.contents, data) && !reader.state.Serving?
    requires length == 0 || reader.man.totalSize == 0 ==> reader.state.Done? && Drop(data, offset) == []
    requires length > 0 && reader.man.totalSize > 0 ==>
               && reader.currentChunk == offset / reader.man.chunkSize && reader.endChunk == (offset + length - 1) / reader.man.chunkSize
               && reader.currentChunk <= reader.endChunk < reader.man.chunkCount && reader.Rest() == Drop(data, offset)
    ensures reader.Rest() == Drop(data, offset)
    ensures reader.state.NeedLoad? ==> reader.currentChunk <= reader.endChunk
    ensures Survives(reader.man, reader.contents, reader.disk, lost) || reader.man.totalSize == 0 ==> reader.Healthy()
  {
    hide Drop, Cat, Recoverable;
    if Survives(reader.man, reader.contents, reader.disk, lost) {
      SurvivorsServeEverything(reader.ps, reader.man, reader.contents, reader.disk, lost);
    }
  }

  lemma ChunksAre(reader: VerifiedChunkReader)
    requires reader.Valid()
    ensures Chunks(reader).Obj() == reader && Chunks(reader).Valid() && Chunks(reader).Rest() == reader.Rest()
    ensures reader.Healthy() ==> Chunks(reader).Healthy()
  {
  }

  lemma StartsGenuine(dec: FrameDecryptor)
    requires dec.Valid() && dec.Tracks() && dec.inner.Valid() && dec.Genuine()
    ensures dec.Trusted() && (dec.inner.Healthy() ==> dec.Healthy())
  {
  }

  /** Asking for everything from `offset` on stays inside the data chunks. */
  lemma RestOfCiphertext(man: Manifest, contents: seq<seq<Byte>>, data: seq<Byte>, offset: nat, length: nat)
    requires Holds(man, contents, data)
    requires length == if man.totalSize >= offset then man.totalSize - offset else 0
    ensures length == 0 || man.totalSize == 0 ==> Drop(data, offset) == []
    ensures length > 0 ==>
              && offset / man.chunkSize <= (offset + length - 1) / man.chunkSize < man.chunkCount
              && offset % man.chunkSize <= |contents[offset / man.chunkSize]|
              && Slice(Cat(contents, offset / man.chunkSize, (offset + length - 1) / man.chunkSize), offset % man.chunkSize, length)
                 == Drop(data, offset)
  {
    hide Cat, Times;
    if length > 0 {
      DivLess(offset + length - 1, man.chunkSize, man.chunkCount);
      WindowBlocks(offset, length, man.chunkSize);
      WindowInsideData(man, contents, data, offset, length);
      StartFitsChunk(man, contents, data, offset);
    }
  }
}
