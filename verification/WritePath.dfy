/**
 The write path of erasure-coded objects: the body is cut into chunk files, parity shards are computed,
 and a manifest is written. What it leaves on disk is what the read path relies on.
 */
module WritePath {
  import opened Base
  import opened Arithmetic
  import opened Framing
  import opened Streams
  import opened ChunkStore
  import opened ChunkLayout
  import opened ReadPath

  const IO_BUFFER_SIZE: nat := 262144

  /** `body.read(&mut buf).await` */
  method ReadSome(src: ByteSource, cap: nat) returns (r: Result<seq<Byte>, IoError>)
    requires src.Valid() && cap > 0
    modifies src
    ensures src.Valid()
    ensures old(src.Healthy()) ==> src.Healthy() && r.Ok?
    ensures r.Ok? ==> old(src.Rest()) == r.value + src.Rest()
    ensures r.Ok? && r.value == [] ==> src.Rest() == []
  {
    var p := Pending;
    while p.Pending?
      invariant src.Valid()
      invariant old(src.Healthy()) ==> src.Healthy() && !p.Failed?
      invariant !p.Ready? ==> src.Rest() == old(src.Rest())
      invariant p.Ready? ==> old(src.Rest()) == p.bytes + src.Rest() && (p.bytes == [] ==> src.Rest() == [])
      decreases p.Pending?, |src.schedule|
    {
      p := src.PollRead(cap);
    }
    r := if p.Failed? then Err(p.error) else Ok(p.bytes);
  }

  /** `total` has been cut into full chunks, and `buf` is what is left over. */
  ghost predicate Cut(files: seq<seq<Byte>>, buf: seq<Byte>, total: seq<Byte>, chunkSize: nat) {
    && ChunksOf(files, total, chunkSize, |files|)
    && Times(|files|, chunkSize) + |buf| == |total|
    && buf == Drop(total, Times(|files|, chunkSize))
  }

  lemma CutGrows(files: seq<seq<Byte>>, buf: seq<Byte>, total: seq<Byte>, more: seq<Byte>, chunkSize: nat)
    requires Cut(files, buf, total, chunkSize)
    ensures Cut(files, buf + more, total + more, chunkSize)
  {
    forall i: nat | i < |files|
      ensures files[i] == Slice(total + more, Times(i, chunkSize), chunkSize)
    {
      TimesMono(i, |files|, chunkSize);
      SliceOfPrefix(total, more, Times(i, chunkSize), chunkSize);
    }
  }

  lemma SliceOfPrefix(s: seq<Byte>, more: seq<Byte>, start: nat, length: nat)
    requires start + length <= |s|
    ensures Slice(s + more, start, length) == Slice(s, start, length)
  {
  }

  lemma CutOff(files: seq<seq<Byte>>, buf: seq<Byte>, total: seq<Byte>, chunkSize: nat, n: nat)
    requires Cut(files, buf, total, chunkSize) && n <= |buf| && n <= chunkSize
    requires n == chunkSize || n == |buf|
    ensures ChunksOf(files + [buf[..n]], total, chunkSize, |files| + 1)
    ensures n == chunkSize ==> Cut(files + [buf[..n]], buf[n..], total, chunkSize)
  {
    var at := Times(|files|, chunkSize);
    assert Times(|files| + 1, chunkSize) == at + chunkSize;
    assert buf[..n] == Slice(total, at, chunkSize);
    assert n == chunkSize ==> buf[n..] == Drop(total, at + chunkSize);
    var longer := files + [buf[..n]];
    forall i: nat | i < |longer|
      ensures longer[i] == Slice(total, Times(i, chunkSize), chunkSize)
    {
      if i < |files| {
        assert longer[i] == files[i];
      }
    }
  }

  /** `while chunk_buf.len() >= chunk_size { write the first chunk_size bytes as the next chunk }` */
  method FlushFullChunks(files: seq<seq<Byte>>, buf: seq<Byte>, chunkSize: nat, ghost total: seq<Byte>)
    returns (files': seq<seq<Byte>>, buf': seq<Byte>)
    requires chunkSize > 0 && Cut(files, buf, total, chunkSize)
    ensures Cut(files', buf', total, chunkSize) && |buf'| < chunkSize
  {
    hide Cut;
    files', buf' := files, buf;
    while |buf'| >= chunkSize
      invariant Cut(files', buf', total, chunkSize)
      decreases |buf'|
    {
      CutOff(files', buf', total, chunkSize, chunkSize);
      files', buf' := files' + [buf'[..chunkSize]], buf'[chunkSize..];
    }
  }

  /** The chunks of a complete object: at least one, and all but the last of them full. */
  ghost predicate AllChunks(files: seq<seq<Byte>>, total: seq<Byte>, chunkSize: nat) {
    && |files| > 0
    && ChunksOf(files, total, chunkSize, |files|)
    && Times(|files| - 1, chunkSize) <= |total| <= Times(|files|, chunkSize)
    && (total != [] ==> Times(|files| - 1, chunkSize) < |total|)
  }

  /** A non-empty object has as many data chunks as it takes to cover it. */
  lemma ChunkCount(files: seq<seq<Byte>>, total: seq<Byte>, chunkSize: nat)
    requires AllChunks(files, total, chunkSize) && chunkSize > 0 && total != []
    ensures |files| == CeilDiv(|total|, chunkSize)
  {
    CeilDivUnique(|total|, chunkSize, |files|);
  }

  /** Flushes the remainder and keeps the invariant that there is at least one chunk file. */
  method FlushRemainder(files: seq<seq<Byte>>, buf: seq<Byte>, chunkSize: nat, ghost total: seq<Byte>)
    returns (chunks: seq<seq<Byte>>)
    requires chunkSize > 0 && Cut(files, buf, total, chunkSize) && |buf| < chunkSize
    ensures AllChunks(chunks, total, chunkSize)
  {
    hide Slice, Drop;
    chunks := files;
    assert buf[..|buf|] == buf;
    if buf != [] || files == [] {
      CutOff(files, buf, total, chunkSize, |buf|);
      chunks := files + [buf];
    } else {
      TimesMono(|files| - 1, |files|, chunkSize);
    }
  }

  datatype Stored = Stored(man: Manifest, disk: Disk)

  datatype PutError = TooManyShards | Nonce(e: NonceError) | Io(io: IoError)

  /** What a finished write promises to every later read. */
  ghost predicate StoredAs(ps: Primitives, s: Stored, contents: seq<seq<Byte>>, total: seq<Byte>) {
    && Describes(ps, s.man, contents)
    && Holds(s.man, contents, total)
    && forall i: nat :: i < |contents| ==> i in s.disk && s.disk[i] == contents[i]
  }

  lemma ParityMakesCodeword(ps: Primitives, chunks: seq<seq<Byte>>, m: nat, chunkSize: nat)
    requires EncodeShape(ps) && RsParams(|chunks|, m) && chunkSize > 0
    requires forall i :: 0 <= i < |chunks| ==> |chunks[i]| <= chunkSize
    ensures var parity := ps.encode(|chunks|, m, Padded(chunks, chunkSize));
            && |parity| == m
            && (forall i :: 0 <= i < m ==> |parity[i]| == chunkSize)
            && Codeword(ps, |chunks|, m, Padded(chunks + parity, chunkSize))
  {
    var padded := Padded(chunks, chunkSize);
    var parity := ps.encode(|chunks|, m, padded);
    var all := Padded(chunks + parity, chunkSize);
    assert all[..|chunks|] == padded;
    forall i | 0 <= i < m
      ensures all[|chunks| + i] == parity[i]
    {
      assert parity[i][..chunkSize] == parity[i];
    }
    assert all[|chunks|..] == parity;
  }

  function MakeManifest(ps: Primitives, all: seq<seq<Byte>>, k: nat, size: nat, chunkSize: nat, parity: Option<nat>): Manifest {
    Manifest(size, chunkSize, k,
             seq(|all|, i requires 0 <= i < |all| => ChunkInfo(|all[i]|, ps.sha(all[i]))),
             parity,
             if parity.Some? then Some(chunkSize) else None)
  }

  function Files(all: seq<seq<Byte>>): Disk {
    map i: nat | i < |all| :: all[i]
  }

  lemma ChunksFit(chunks: seq<seq<Byte>>, total: seq<Byte>, chunkSize: nat)
    requires ChunksOf(chunks, total, chunkSize, |chunks|)
    ensures forall i :: 0 <= i < |chunks| ==> |chunks[i]| <= chunkSize
  {
    hide Slice, Times;
    forall i | 0 <= i < |chunks|
      ensures |chunks[i]| <= chunkSize
    {
      SliceLength(total, Times(i, chunkSize), chunkSize);
    }
  }

  lemma SealedWithoutParity(ps: Primitives, chunks: seq<seq<Byte>>, total: seq<Byte>, chunkSize: nat)
    requires chunkSize > 0 && AllChunks(chunks, total, chunkSize)
    ensures StoredAs(ps, Stored(MakeManifest(ps, chunks, |chunks|, |total|, chunkSize, None), Files(chunks)), chunks, total)
  {
    hide Slice, Times;
  }

  lemma SealedWithParity(ps: Primitives, chunks: seq<seq<Byte>>, parity: seq<seq<Byte>>, total: seq<Byte>, chunkSize: nat, m: nat)
    requires chunkSize > 0 && AllChunks(chunks, total, chunkSize) && m > 0
    requires |parity| == m && forall i :: 0 <= i < m ==> |parity[i]| == chunkSize
    requires Codeword(ps, |chunks|, m, Padded(chunks + parity, chunkSize))
    ensures var all := chunks + parity;
            StoredAs(ps, Stored(MakeManifest(ps, all, |chunks|, |total|, chunkSize, Some(m)), Files(all)), all, total)
  {
    hide Slice, Times, Codeword, Padded;
    ChunksFit(chunks, total, chunkSize);
  }

  /** With parity, the shards of an object of this size would be more than the code has room for. */
  predicate TooMany(size: nat, chunkSize: nat, parityShards: nat)
    requires chunkSize > 0
  {
    parityShards > 0 && size > 0 && CeilDiv(size, chunkSize) + parityShards > 255
  }

  /** `compute_and_write_parity_from` and the manifest. */
  method Seal(ps: Primitives, chunks: seq<seq<Byte>>, size: nat, chunkSize: nat, parityShards: nat, ghost total: seq<Byte>)
    returns (r: Result<Stored, PutError>, ghost contents: seq<seq<Byte>>)
    requires EncodeShape(ps) && chunkSize > 0 && size == |total| && AllChunks(chunks, total, chunkSize)
    ensures r.Ok? ==> StoredAs(ps, r.value, contents, total)
                      && Parity(r.value.man) == (if size > 0 then parityShards else 0)
    ensures r.Err? <==> TooMany(size, chunkSize, parityShards)
    ensures r.Err? ==> r.error.TooManyShards?
  {
    hide Times, ChunksOf, EncodeShape, StoredAs, Codeword;
    contents := chunks;
    if parityShards > 0 && size > 0 {
      ChunkCount(chunks, total, chunkSize);
      if |chunks| + parityShards > 255 {
        return Err(TooManyShards), contents;
      }
      ChunksFit(chunks, total, chunkSize);
      ParityMakesCodeword(ps, chunks, parityShards, chunkSize);
      var padded := seq(|chunks|, i requires 0 <= i < |chunks| => Resize(chunks[i], chunkSize));
      assert padded == Padded(chunks, chunkSize);
      var parity := ps.encode(|chunks|, parityShards, padded);
      var all := chunks + parity;
      contents := all;
      SealedWithParity(ps, chunks, parity, total, chunkSize, parityShards);
      return Ok(Stored(MakeManifest(ps, all, |chunks|, size, chunkSize, Some(parityShards)), Files(all))), contents;
    }
    SealedWithoutParity(ps, chunks, total, chunkSize);
    return Ok(Stored(MakeManifest(ps, chunks, |chunks|, size, chunkSize, None), Files(chunks))), contents;
  }

  /** `put_object_chunked` */
  method PutObjectChunked(ps: Primitives, body: ByteSource, chunkSize: nat, parityShards: nat)
    returns (r: Result<Stored, PutError>, ghost contents: seq<seq<Byte>>)
    requires EncodeShape(ps) && chunkSize > 0 && body.Valid()
    modifies body
    ensures r.Ok? ==> StoredAs(ps, r.value, contents, old(body.Rest()))
                      && Parity(r.value.man) == (if old(body.Rest()) != [] then parityShards else 0)
    ensures old(body.Healthy()) ==> (r.Err? <==> TooMany(|old(body.Rest())|, chunkSize, parityShards))
    ensures old(body.Healthy()) && r.Err? ==> r.error.TooManyShards?
  {
    hide Cut, AllChunks, EncodeShape, StoredAs, ChunksOf, Parity, CeilDiv, ByteSource.Valid, ByteSource.Rest, ByteSource.Healthy;
    ghost var total: seq<Byte> := [];
    var files: seq<seq<Byte>>, buf: seq<Byte>, size := [], [], 0;
    contents := [];
    EmptyCut(chunkSize);
    while true
      invariant body.Valid() && total + body.Rest() == old(body.Rest())
      invariant old(body.Healthy()) ==> body.Healthy()
      invariant Cut(files, buf, total, chunkSize) && |buf| < chunkSize && size == |total|
      decreases |body.Rest()|
    {
      var n := ReadSome(body, IO_BUFFER_SIZE);
      if n.Err? {
        return Err(Io(n.error)), contents;
      }
      if n.value == [] {
        break;
      }
      size := size + |n.value|;
      Regroup(total, n.value, body.Rest());
      CutGrows(files, buf, total, n.value, chunkSize);
      total := total + n.value;
      files, buf := FlushFullChunks(files, buf + n.value, chunkSize, total);
    }
    assert total == old(body.Rest());
    var chunks := FlushRemainder(files, buf, chunkSize, total);
    r, contents := Seal(ps, chunks, size, chunkSize, parityShards, total);
  }

  lemma EmptyCut(chunkSize: nat)
    ensures Cut([], [], [], chunkSize)
  {
  }

  /** The write order of frames: the first full chunk of what is buffered becomes the next frame. */
  lemma FramesStep(c: Codec, buf: seq<Byte>, rest: seq<Byte>, index: nat, n: nat)
    requires c.chunkSize > 0 && 0 < n <= |buf|
    requires n == c.chunkSize || (n == |buf| < c.chunkSize && rest == [])
    ensures Frames(c, buf + rest, index) == FrameBytes(c, index, buf[..n]) + Frames(c, buf[n..] + rest, index + 1)
  {
    assert Take(buf + rest, c.chunkSize) == buf[..n];
    assert Drop(buf + rest, c.chunkSize) == buf[n..] + rest;
  }

  /** Encrypts buffered plaintext frame by frame, and cuts the ciphertext into chunk files as it grows. */
  method FlushFullFrames(codec: Codec, frameBuf: seq<Byte>, index: nat, files: seq<seq<Byte>>, buf: seq<Byte>, chunkSize: nat,
                         ghost ct: seq<Byte>, ghost rest: seq<Byte>)
    returns (r: Option<NonceError>, frameBuf': seq<Byte>, index': nat, files': seq<seq<Byte>>, buf': seq<Byte>, ghost ct': seq<Byte>)
    requires codec.chunkSize > 0 && chunkSize > 0 && Cut(files, buf, ct, chunkSize)
    ensures Cut(files', buf', ct', chunkSize)
    ensures Times(index', codec.chunkSize) + |frameBuf'| == Times(index, codec.chunkSize) + |frameBuf|
    ensures ct' + Frames(codec, frameBuf' + rest, index') == ct + Frames(codec, frameBuf + rest, index)
    ensures r.None? ==> |frameBuf'| < codec.chunkSize
    ensures r.Some? ==> frameBuf' != [] && MakeFrameNonce(codec.prefix, index').Err?
  {
    hide Cut, Frames;
    frameBuf', index', files', buf', ct' := frameBuf, index, files, buf, ct;
    while |frameBuf'| >= codec.chunkSize
      invariant Cut(files', buf', ct', chunkSize)
      invariant Times(index', codec.chunkSize) + |frameBuf'| == Times(index, codec.chunkSize) + |frameBuf|
      invariant ct' + Frames(codec, frameBuf' + rest, index') == ct + Frames(codec, frameBuf + rest, index)
      decreases |frameBuf'|
    {
      var frame := EncryptFrame(codec, index', frameBuf'[..codec.chunkSize]);
      if frame.Err? {
        r := Some(frame.error);
        return;
      }
      FramesStep(codec, frameBuf', rest, index', codec.chunkSize);
      CutGrows(files', buf', ct', frame.value, chunkSize);
      ct' := ct' + frame.value;
      frameBuf', index' := frameBuf'[codec.chunkSize..], index' + 1;
      files', buf' := FlushFullChunks(files', buf' + frame.value, chunkSize, ct');
    }
    r := None;
  }

  /** `put_object_chunked_encrypted`: the ciphertext frames are cut into chunk files. */
  method PutObjectChunkedEncrypted(ps: Primitives, codec: Codec, body: ByteSource, chunkSize: nat, parityShards: nat)
    returns (r: Result<Stored, PutError>, size: nat, ghost contents: seq<seq<Byte>>)
    requires EncodeShape(ps) && chunkSize > 0 && codec.chunkSize > 0 && body.Valid()
    modifies body
    ensures r.Ok? ==> size == |old(body.Rest())|
    ensures r.Ok? ==> var ciphertext := Frames(codec, old(body.Rest()), 0);
                      && StoredAs(ps, r.value, contents, ciphertext)
                      && Parity(r.value.man) == (if ciphertext != [] then parityShards else 0)
    ensures old(body.Healthy()) && WellFormed(codec, |old(body.Rest())|) ==>
              (r.Err? <==> TooMany(|Frames(codec, old(body.Rest()), 0)|, chunkSize, parityShards))
    ensures old(body.Healthy()) && WellFormed(codec, |old(body.Rest())|) && r.Err? ==> r.error.TooManyShards?
  {
    hide Cut, AllChunks, EncodeShape, StoredAs, ChunksOf, Frames, WellFormed, Times;
    ghost var plaintext, ct: seq<Byte> := body.Rest(), [];
    ghost var whole := Frames(codec, plaintext, 0);
    var frameBuf: seq<Byte>, index: nat := [], 0;
    var files: seq<seq<Byte>>, buf: seq<Byte> := [], [];
    size := 0;
    contents := [];
    EmptyCut(chunkSize);
    assert Times(0, codec.chunkSize) == 0 by { TimesIsProduct(0, codec.chunkSize); }
    assert frameBuf + body.Rest() == plaintext;
    while true
      invariant body.Valid()
      invariant old(body.Healthy()) ==> body.Healthy()
      invariant Cut(files, buf, ct, chunkSize)
      invariant |frameBuf| < codec.chunkSize && size + |body.Rest()| == |plaintext|
      invariant Times(index, codec.chunkSize) + |frameBuf| == size
      invariant ct + Frames(codec, frameBuf + body.Rest(), index) == whole
      decreases |body.Rest()|
    {
      ghost var before := body.Rest();
      var n := ReadSome(body, IO_BUFFER_SIZE);
      if n.Err? {
        return Err(Io(n.error)), size, contents;
      }
      if n.value == [] {
        break;
      }
      size := size + |n.value|;
      assert frameBuf + before == (frameBuf + n.value) + body.Rest();
      var e;
      e, frameBuf, index, files, buf, ct := FlushFullFrames(codec, frameBuf + n.value, index, files, buf, chunkSize, ct, body.Rest());
      if e.Some? {
        if WellFormed(codec, |plaintext|) {
          FrameIndexFits(codec, plaintext, index);
        }
        return Err(Nonce(e.value)), size, contents;
      }
    }
    assert frameBuf + body.Rest() == frameBuf;
    if frameBuf != [] {
      var frame := EncryptFrame(codec, index, frameBuf);
      if frame.Err? {
        if WellFormed(codec, |plaintext|) {
          FrameIndexFits(codec, plaintext, index);
        }
        return Err(Nonce(frame.error)), size, contents;
      }
      LastFrame(codec, frameBuf, index);
      CutGrows(files, buf, ct, frame.value, chunkSize);
      ct := ct + frame.value;
      buf := buf + frame.value;
    } else {
      NoFrames(codec, index);
    }
    assert ct == whole;
    files, buf := FlushFullChunks(files, buf, chunkSize, ct);
    CutLength(files, buf, ct, chunkSize);
    var chunks := FlushRemainder(files, buf, chunkSize, ct);
    var ctSize := |files| * chunkSize + |buf|;
    r, contents := Seal(ps, chunks, ctSize, chunkSize, parityShards, ct);
  }

  lemma FrameIndexFits(c: Codec, p: seq<Byte>, index: nat)
    requires WellFormed(c, |p|) && Times(index, c.chunkSize) < |p|
    ensures MakeFrameNonce(c.prefix, index).Ok?
  {
    IndexInRange(c, p, index);
  }

  lemma LastFrame(c: Codec, buf: seq<Byte>, index: nat)
    requires 0 < |buf| < c.chunkSize
    ensures Frames(c, buf, index) == FrameBytes(c, index, buf)
  {
    FramesStep(c, buf, [], index, |buf|);
    assert buf + [] == buf && buf[..|buf|] == buf;
    var none: seq<Byte> := buf[|buf|..] + [];
    assert none == [];
  }

  lemma NoFrames(c: Codec, index: nat)
    requires c.chunkSize > 0
    ensures Frames(c, [], index) == []
  {
  }

  /** The ciphertext size, counted chunk file by chunk file. */
  lemma CutLength(files: seq<seq<Byte>>, buf: seq<Byte>, total: seq<Byte>, chunkSize: nat)
    requires Cut(files, buf, total, chunkSize)
    ensures |files| * chunkSize + |buf| == |total|
  {
    TimesIsProduct(|files|, chunkSize);
  }

  /** What a disk does to files: it replaces or removes them. */
  function Damage(disk: Disk, damage: map<nat, Option<seq<Byte>>>): Disk {
    map i: nat | i in disk.Keys + damage.Keys && (i in damage ==> damage[i].Some?) ::
      if i in damage then damage[i].value else disk[i]
  }

  /**
   The erasure-coded, encrypted object store end to end: after a successful write, any damage to at most
   as many files as there are parity shards leaves every range of the plaintext readable exactly.
   */
  method WriteDamageRead(ps: Primitives, codec: Codec, plaintext: seq<Byte>, schedule: seq<Tick>, chunkSize: nat, parityShards: nat,
                         damage: map<nat, Option<seq<Byte>>>, offset: nat, length: nat, caps: seq<nat>)
    returns (r: Result<seq<Byte>, PutError>)
    requires Mds(ps) && CollisionFree(ps) && EncodeShape(ps) && chunkSize > 0
    requires WellFormed(codec, |plaintext|) && Opens(codec, plaintext)
    requires forall j :: 0 <= j < |caps| ==> caps[j] > 0
    requires |damage| <= parityShards
    ensures r.Ok? ==> r.value == Slice(plaintext, offset, length)
    ensures codec.chunkSize > 0
    ensures Fail !in schedule ==> (r.Ok? <==> !TooMany(|Frames(codec, plaintext, 0)|, chunkSize, parityShards))
    ensures Fail !in schedule && r.Err? ==> r.error.TooManyShards?
  {
    SomeCiphertext(codec, plaintext);
    hide *;
    var body := new ByteSource(plaintext, schedule);
    var put, size;
    ghost var contents;
    put, size, contents := PutObjectChunkedEncrypted(ps, codec, body, chunkSize, parityShards);
    if put.Err? {
      return Err(put.error);
    }
    var disk := Damage(put.value.disk, damage);
    StoredSurvives(ps, put.value, contents, Frames(codec, plaintext, 0), damage);
    var out, e := ReadEncryptedRange(ps, put.value.man, disk, codec, size, offset, length, caps, contents, plaintext, damage.Keys);
    return Ok(out);
  }

  lemma StoredSurvives(ps: Primitives, s: Stored, contents: seq<seq<Byte>>, total: seq<Byte>, damage: map<nat, Option<seq<Byte>>>)
    requires StoredAs(ps, s, contents, total)
    ensures Describes(ps, s.man, contents) && Holds(s.man, contents, total)
    ensures |damage| <= Parity(s.man) ==> Survives(s.man, contents, Damage(s.disk, damage), damage.Keys)
  {
    hide Describes, Holds;
    assert |damage.Keys| == |damage|;
  }

  lemma SomeCiphertext(c: Codec, p: seq<Byte>)
    requires WellFormed(c, |p|)
    ensures c.chunkSize > 0
    ensures p != [] ==> Frames(c, p, 0) != []
  {
    if p != [] {
      DropNone(p);
      FrameShape(c, p, 0);
    }
  }
}
