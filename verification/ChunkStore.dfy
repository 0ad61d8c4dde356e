/**
 Erasure-coded object storage: the manifest, the chunk files and Reed-Solomon recovery.
 Reads are checked against SHA-256 digests, so the files on disk may be missing or altered at will.
 */
module ChunkStore {
  import opened Base
  import opened Streams

  /** SHA-256 and the Reed-Solomon code, both library code. */
  datatype Primitives = Primitives(
    sha: seq<Byte> -> seq<Byte>,
    encode: (nat, nat, seq<seq<Byte>>) -> seq<seq<Byte>>,
    reconstruct: (nat, nat, seq<Option<seq<Byte>>>) -> Option<seq<seq<Byte>>>)

  /** The parameters `ReedSolomon::new` accepts over GF(2^8). */
  predicate RsParams(k: nat, m: nat) {
    k > 0 && m > 0 && k + m <= 256
  }

  ghost predicate Codeword(ps: Primitives, k: nat, m: nat, cw: seq<seq<Byte>>) {
    && RsParams(k, m)
    && |cw| == k + m
    && |cw[0]| > 0
    && (forall i :: 0 <= i < |cw| ==> |cw[i]| == |cw[0]|)
    && ps.encode(k, m, cw[..k]) == cw[k..]
  }

  ghost predicate ErasureOf(shards: seq<Option<seq<Byte>>>, cw: seq<seq<Byte>>) {
    && |shards| == |cw|
    && forall i :: 0 <= i < |cw| ==> shards[i] == None || shards[i] == Some(cw[i])
  }

  function Present(shards: seq<Option<seq<Byte>>>): nat {
    if shards == [] then 0
    else Present(shards[..|shards| - 1]) + (if shards[|shards| - 1].Some? then 1 else 0)
  }

  /** Any k of the k + m shards of a codeword determine it. */
  ghost predicate Mds(ps: Primitives) {
    forall k: nat, m: nat, cw, shards ::
      Codeword(ps, k, m, cw) && ErasureOf(shards, cw) && Present(shards) >= k
      ==> ps.reconstruct(k, m, shards) == Some(cw)
  }

  /** Encoding yields m parity shards of the length of the data shards. */
  ghost predicate EncodeShape(ps: Primitives) {
    forall k: nat, m: nat, d: seq<seq<Byte>> :: RsParams(k, m) && |d| == k ==>
      && |ps.encode(k, m, d)| == m
      && forall i :: 0 <= i < m ==> |ps.encode(k, m, d)[i]| == |d[0]|
  }

  ghost predicate CollisionFree(ps: Primitives) {
    forall x, y :: ps.sha(x) == ps.sha(y) ==> x == y
  }

  datatype ChunkInfo = ChunkInfo(size: nat, sha256: seq<Byte>)

  datatype Manifest = Manifest(
    totalSize: nat,
    chunkSize: nat,
    chunkCount: nat,
    chunks: seq<ChunkInfo>,
    parityShards: Option<nat>,
    shardSize: Option<nat>)

  /** The chunk files of one object, by index. */
  type Disk = map<nat, seq<Byte>>

  function Parity(man: Manifest): nat {
    if man.parityShards.Some? then man.parityShards.value else 0
  }

  function ShardSize(man: Manifest): nat {
    if man.shardSize.Some? then man.shardSize.value else man.chunkSize
  }

  ghost function Padded(contents: seq<seq<Byte>>, size: nat): seq<seq<Byte>> {
    seq(|contents|, i requires 0 <= i < |contents| => Resize(contents[i], size))
  }

  /** The manifest was written for exactly these chunk contents (data chunks, then parity shards). */
  ghost predicate Describes(ps: Primitives, man: Manifest, contents: seq<seq<Byte>>) {
    && |man.chunks| == |contents| == man.chunkCount + Parity(man)
    && man.chunkCount > 0
    && (forall i :: 0 <= i < |contents| ==>
         man.chunks[i].size == |contents[i]| && man.chunks[i].sha256 == ps.sha(contents[i]))
    && (Parity(man) > 0 ==>
         var shardSize := if man.shardSize.Some? then man.shardSize.value else man.chunkSize;
         && (forall i :: 0 <= i < |contents| ==> |contents[i]| <= shardSize)
         && Codeword(ps, man.chunkCount, Parity(man), Padded(contents, shardSize)))
  }

  /** The file of chunk `i` exists and passes its checksum. */
  predicate Intact(ps: Primitives, man: Manifest, disk: Disk, i: nat)
    requires i < |man.chunks|
  {
    i in disk && ps.sha(disk[i]) == man.chunks[i].sha256
  }

  function IntactCount(ps: Primitives, man: Manifest, disk: Disk, n: nat): nat
    requires n <= |man.chunks|
  {
    if n == 0 then 0
    else IntactCount(ps, man, disk, n - 1) + (if Intact(ps, man, disk, n - 1) then 1 else 0)
  }

  /** The files among the first `n` that exist and have the recorded checksum. */
  ghost function Survivors(ps: Primitives, man: Manifest, disk: Disk, n: nat): set<nat>
    requires n <= |man.chunks|
  {
    set i: nat | i < n && i in disk && ps.sha(disk[i]) == man.chunks[i].sha256
  }

  lemma {:induction false} IntactCountIs(ps: Primitives, man: Manifest, disk: Disk, n: nat)
    requires n <= |man.chunks|
    ensures IntactCount(ps, man, disk, n) == |Survivors(ps, man, disk, n)|
  {
    if n > 0 {
      IntactCountIs(ps, man, disk, n - 1);
      var before, now := Survivors(ps, man, disk, n - 1), Survivors(ps, man, disk, n);
      assert now == if Intact(ps, man, disk, n - 1) then before + {n - 1} else before;
    } else {
      assert Survivors(ps, man, disk, 0) == {};
    }
  }

  /** A chunk can be served iff its own file is sound, or there is parity and at least k files are. */
  lemma RecoverableIff(ps: Primitives, man: Manifest, disk: Disk, i: nat)
    requires i < |man.chunks|
    ensures Recoverable(ps, man, disk, i) <==>
              || (i in disk && ps.sha(disk[i]) == man.chunks[i].sha256)
              || (man.parityShards.Some? && man.parityShards.value > 0 && |Survivors(ps, man, disk, |man.chunks|)| >= man.chunkCount)
  {
    IntactCountIs(ps, man, disk, |man.chunks|);
    hide Survivors, IntactCount;
  }

  /** Chunk `i` can be served: it is intact itself, or enough shards survive to rebuild it. */
  predicate Recoverable(ps: Primitives, man: Manifest, disk: Disk, i: nat)
    requires i < |man.chunks|
  {
    || Intact(ps, man, disk, i)
    || (Parity(man) > 0 && IntactCount(ps, man, disk, |man.chunks|) >= man.chunkCount)
  }

  lemma {:induction false} IntactCountAfterLosses(ps: Primitives, man: Manifest, disk: Disk, lost: set<nat>, n: nat)
    requires n <= |man.chunks|
    requires forall i: nat :: i < n && i !in lost ==> Intact(ps, man, disk, i)
    ensures IntactCount(ps, man, disk, n) + |lost| >= n
  {
    if n > 0 {
      if n - 1 in lost {
        IntactCountAfterLosses(ps, man, disk, lost - {n - 1}, n - 1);
        assert |lost - {n - 1}| == |lost| - 1;
      } else {
        IntactCountAfterLosses(ps, man, disk, lost, n - 1);
      }
    }
  }

  /** Losing any set of at most m files leaves every chunk of the object recoverable. */
  lemma AnyMLossesAreRecoverable(ps: Primitives, man: Manifest, contents: seq<seq<Byte>>, disk: Disk, lost: set<nat>, i: nat)
    requires Describes(ps, man, contents) && i < |contents|
    requires forall j: nat :: j < |contents| && j !in lost ==> j in disk && disk[j] == contents[j]
    requires |lost| <= Parity(man)
    ensures Recoverable(ps, man, disk, i)
  {
    IntactCountAfterLosses(ps, man, disk, lost, |contents|);
    if Parity(man) == 0 {
      assert lost == {};
    }
  }

  /** Any k genuine shards give back the whole padded codeword, and with it every chunk. */
  lemma ShardsDetermineChunk(ps: Primitives, man: Manifest, contents: seq<seq<Byte>>, shards: seq<Option<seq<Byte>>>, target: nat)
    requires Mds(ps) && Describes(ps, man, contents) && Parity(man) > 0 && target < |contents|
    requires ErasureOf(shards, Padded(contents, ShardSize(man)))
    requires Present(shards) >= man.chunkCount
    ensures var all := ps.reconstruct(man.chunkCount, Parity(man), shards);
            && all.Some? && |all.value| == |contents|
            && Take(all.value[target], man.chunks[target].size) == contents[target]
  {
    var all := ps.reconstruct(man.chunkCount, Parity(man), shards);
    assert all == Some(Padded(contents, ShardSize(man)));
  }

  /** A file that passes its checksum is the chunk the manifest was written for. */
  lemma IntactIsGenuine(ps: Primitives, man: Manifest, contents: seq<seq<Byte>>, disk: Disk, i: nat)
    requires CollisionFree(ps) && Describes(ps, man, contents) && i < |contents|
    requires Intact(ps, man, disk, i)
    ensures disk[i] == contents[i] && |disk[i]| == man.chunks[i].size
  {
  }

  /**
   `try_reconstruct_data_chunk`: collects every shard whose checksum holds, pads it, and rebuilds the
   codeword. It succeeds exactly when k shards survive, and then returns the genuine chunk.
   */
  method TryReconstructDataChunk(ps: Primitives, man: Manifest, disk: Disk, target: nat, ghost contents: seq<seq<Byte>>)
    returns (r: Result<seq<Byte>, IoError>)
    requires Mds(ps) && CollisionFree(ps)
    requires Describes(ps, man, contents) && target < |contents|
    ensures r.Ok? <==> Parity(man) > 0 && IntactCount(ps, man, disk, |man.chunks|) >= man.chunkCount
    ensures r.Ok? ==> r.value == contents[target]
    ensures r.Err? && Parity(man) > 0 ==> r.error == TooManyLostShards
  {
    hide Mds, CollisionFree, Take, Resize;
    var k, m := man.chunkCount, Parity(man);
    if !RsParams(k, m) {
      return Err(ReedSolomonError);
    }
    var shards: seq<Option<seq<Byte>>> := [];
    ghost var cw := Padded(contents, ShardSize(man));
    for i := 0 to k + m
      invariant |shards| == i
      invariant forall j :: 0 <= j < i ==> shards[j] == None || shards[j] == Some(cw[j])
      invariant Present(shards) == IntactCount(ps, man, disk, i)
    {
      var shard: Option<seq<Byte>> := None;
      if i in disk && ps.sha(disk[i]) == man.chunks[i].sha256 {
        IntactIsGenuine(ps, man, contents, disk, i);
        shard := Some(Resize(disk[i], ShardSize(man)));
      }
      assert (shards + [shard])[..i] == shards;
      shards := shards + [shard];
    }
    if Present(shards) < k {
      return Err(TooManyLostShards);
    }
    ShardsDetermineChunk(ps, man, contents, shards, target);
    match ps.reconstruct(k, m, shards) {
      case None => return Err(ReedSolomonError);
      case Some(all) => return Ok(Take(all[target], man.chunks[target].size));
    }
  }

  /**
   The load step of `load_chunk_sync`. Whatever the files hold, it yields the genuine chunk or an
   error, and it yields the chunk exactly when the chunk is recoverable.
   */
  method LoadChunk(ps: Primitives, man: Manifest, disk: Disk, index: nat, ghost contents: seq<seq<Byte>>)
    returns (r: Result<seq<Byte>, IoError>)
    requires Mds(ps) && CollisionFree(ps) && Describes(ps, man, contents)
    ensures r.Ok? <==> index < |contents| && Recoverable(ps, man, disk, index)
    ensures r.Ok? ==> r.value == contents[index]
    ensures r.Err? ==> r.error == if index >= |contents| then MissingManifestEntry
                                  else if Parity(man) == 0 then ChunkUnreadable else TooManyLostShards
  {
    hide Mds, CollisionFree;
    if index >= |man.chunks| {
      return Err(MissingManifestEntry);
    }
    if Intact(ps, man, disk, index) {
      IntactIsGenuine(ps, man, contents, disk, index);
    }
    if index in disk && |disk[index]| == man.chunks[index].size && ps.sha(disk[index]) == man.chunks[index].sha256 {
      return Ok(disk[index]);
    }
    if Parity(man) > 0 {
      r := TryReconstructDataChunk(ps, man, disk, index, contents);
    } else {
      r := Err(ChunkUnreadable);
    }
  }

  // ---------------------------------------------------------------- the reader

  /** The contents of chunks `from` to `last`, in order, as far as the manifest goes. */
  ghost function Cat(contents: seq<seq<Byte>>, from: nat, last: nat): seq<Byte>
    decreases |contents| - from
  {
    if from > last || from >= |contents| then [] else contents[from] + Cat(contents, from + 1, last)
  }

  datatype ReaderState = NeedLoad | Serving | Done

  /** `VerifiedChunkReader`: streams a byte window of the object, verifying chunk by chunk. */
  class VerifiedChunkReader {
    const ps: Primitives
    const man: Manifest
    const disk: Disk
    ghost const contents: seq<seq<Byte>>
    const endChunk: nat
    var currentChunk: nat
    var skipBytes: nat
    var remaining: nat
    var buf: seq<Byte>
    var bufPos: nat
    var state: ReaderState

    ghost predicate Valid()
      reads this
    {
      && Mds(ps) && CollisionFree(ps) && Describes(ps, man, contents)
      && bufPos <= |buf|
      && (state.NeedLoad? && currentChunk < |contents| ==> skipBytes <= |contents[currentChunk]|)
      && (state.Serving? ==> currentChunk < |contents| && buf == contents[currentChunk] && skipBytes == 0)
      && (state.Serving? ==> currentChunk <= endChunk)
      && (!state.Done? ==> remaining > 0)
    }

    /** The bytes this reader still owes its consumer. */
    ghost function Rest(): seq<Byte>
      requires Valid()
      reads this
    {
      match state
      case Done => []
      case NeedLoad => Slice(Cat(contents, currentChunk, endChunk), skipBytes, remaining)
      case Serving => Take(buf[bufPos..] + Cat(contents, currentChunk + 1, endChunk), remaining)
    }

    /** Every chunk still to be loaded can be served. */
    ghost predicate Healthy()
      requires Valid()
      reads this
    {
      !state.Done? ==>
        && endChunk < |contents|
        && forall i: nat :: currentChunk <= i <= endChunk && i < |contents| ==> Recoverable(ps, man, disk, i)
    }

    /** `new`: the whole object. */
    constructor Full(ps: Primitives, man: Manifest, disk: Disk, ghost contents: seq<seq<Byte>>)
      requires Mds(ps) && CollisionFree(ps) && Describes(ps, man, contents)
      ensures Valid()
      ensures this.ps == ps && this.man == man && this.disk == disk && this.contents == contents
      ensures endChunk == man.chunkCount - 1
      ensures Rest() == Take(Cat(contents, 0, man.chunkCount - 1), man.totalSize)
      ensures !state.Serving? && currentChunk == 0
    {
      this.ps := ps;
      this.man := man;
      this.disk := disk;
      this.contents := contents;
      endChunk := man.chunkCount - 1;
      currentChunk := 0;
      skipBytes := 0;
      remaining := man.totalSize;
      buf := [];
      bufPos := 0;
      state := if man.totalSize == 0 then Done else NeedLoad;
    }

    /**
     `with_range`: the window [offset, offset + length). There is no bound check in the source; beyond
     the end of the object the start index itself would be out of range.
     */
    constructor WithRange(ps: Primitives, man: Manifest, disk: Disk, offset: nat, length: nat, ghost contents: seq<seq<Byte>>)
      requires Mds(ps) && CollisionFree(ps) && Describes(ps, man, contents)
      requires man.chunkSize > 0
      requires length > 0 && man.totalSize > 0 && offset / man.chunkSize < |contents| ==>
                 offset % man.chunkSize <= |contents[offset / man.chunkSize]|
      ensures Valid()
      ensures this.ps == ps && this.man == man && this.disk == disk && this.contents == contents
      ensures !state.Serving?
      ensures length == 0 || man.totalSize == 0 ==> state.Done?
      ensures length > 0 && man.totalSize > 0 ==>
                && currentChunk == offset / man.chunkSize
                && endChunk == (offset + length - 1) / man.chunkSize
                && Rest() == Slice(Cat(contents, offset / man.chunkSize, (offset + length - 1) / man.chunkSize),
                                   offset % man.chunkSize, length)
    {
      this.ps := ps;
      this.man := man;
      this.disk := disk;
      this.contents := contents;
      buf := [];
      bufPos := 0;
      if length == 0 || man.totalSize == 0 {
        currentChunk, endChunk, skipBytes, remaining, state := 0, 0, 0, 0, Done;
      } else {
        currentChunk := offset / man.chunkSize;
        endChunk := (offset + length - 1) / man.chunkSize;
        skipBytes := offset % man.chunkSize;
        remaining := length;
        state := NeedLoad;
      }
    }

    /** `load_chunk_sync` */
    method LoadChunkSync() returns (r: Option<IoError>)
      requires Valid() && state.NeedLoad? && currentChunk <= endChunk
      modifies this
      ensures Valid() && remaining == old(remaining) && currentChunk == old(currentChunk)
      ensures r.None? <==> currentChunk < |contents| && Recoverable(ps, man, disk, currentChunk)
      ensures r.None? ==> state.Serving?
      ensures r.Some? ==> state.NeedLoad?
      ensures Rest() == old(Rest())
    {
      hide Mds, CollisionFree, Describes;
      var loaded := LoadChunk(ps, man, disk, currentChunk, contents);
      match loaded
      case Err(e) => return Some(e);
      case Ok(data) =>
        ghost var cat := Cat(contents, currentChunk, endChunk);
        SliceIsTakeOfDrop(cat, skipBytes, remaining);
        assert Drop(cat, skipBytes) == data[skipBytes..] + Cat(contents, currentChunk + 1, endChunk);
        buf := data;
        bufPos := skipBytes;
        skipBytes := 0;
        state := Serving;
        return None;
    }

    /** `preflight`: loads the first chunk early. It never changes what will be delivered. */
    method Preflight() returns (r: Option<IoError>)
      requires Valid() && !state.Serving?
      requires state.NeedLoad? ==> currentChunk <= endChunk
      modifies this
      ensures Valid() && Rest() == old(Rest()) && currentChunk == old(currentChunk)
      ensures old(Healthy()) ==> Healthy() && r.None?
    {
      if state.Done? {
        return None;
      }
      assert Healthy() ==> Recoverable(ps, man, disk, currentChunk);
      r := LoadChunkSync();
    }

    /** The `Serving` arm: copies what fits from the verified chunk. */
    method Serve(cap: nat) returns (bytes: seq<Byte>)
      requires Valid() && state.Serving? && bufPos < |buf|
      modifies this`bufPos, this`remaining, this`state
      ensures Valid()
      ensures old(Healthy()) ==> Healthy()
      ensures |bytes| <= cap && old(Rest()) == bytes + Rest()
      ensures cap > 0 ==> bytes != []
    {
      hide Mds, CollisionFree, Describes;
      var n := Min(Min(|buf| - bufPos, cap), remaining);
      bytes := buf[bufPos..bufPos + n];
      ghost var later := Cat(contents, currentChunk + 1, endChunk);
      assert buf[bufPos..] + later == bytes + (buf[bufPos + n..] + later);
      TakeAppend(bytes, buf[bufPos + n..] + later, remaining);
      bufPos := bufPos + n;
      remaining := remaining - n;
      if remaining == 0 {
        state := Done;
      }
    }

    /** The `Serving` arm with nothing left in the chunk. */
    method NextChunk()
      requires Valid() && state.Serving? && bufPos == |buf|
      modifies this`currentChunk, this`state
      ensures Valid() && state.NeedLoad? && currentChunk == old(currentChunk) + 1
      ensures Rest() == old(Rest())
      ensures old(Healthy()) ==> Healthy()
    {
      hide Mds, CollisionFree, Describes;
      assert buf[bufPos..] == [];
      currentChunk := currentChunk + 1;
      state := NeedLoad;
    }

    /** The `NeedLoad` arm past the last chunk. */
    method Finish()
      requires Valid() && state.NeedLoad? && currentChunk > endChunk
      modifies this`state
      ensures Valid() && state.Done? && Rest() == old(Rest())
      ensures old(Healthy()) ==> Healthy()
    {
      state := Done;
    }

    /** `poll_read`. The contract is the one any reliable byte stream obeys, and names no chunk. */
    method PollRead(cap: nat) returns (r: Poll)
      requires Valid()
      modifies this
      ensures Valid()
      ensures !r.Pending?
      ensures old(Healthy()) ==> Healthy() && !r.Failed?
      ensures !r.Ready? ==> Rest() == old(Rest())
      ensures r.Ready? ==> |r.bytes| <= cap && old(Rest()) == r.bytes + Rest()
      ensures r.Ready? && cap > 0 && r.bytes == [] ==> Rest() == []
    {
      hide Cat, Take, Slice, Min, Mds, CollisionFree, Describes;
      while true
        invariant Valid() && Rest() == old(Rest())
        invariant old(Healthy()) ==> Healthy()
        decreases if currentChunk <= endChunk then endChunk - currentChunk + 1 else 0,
                  if state.Serving? then 0 else 1
      {
        match state
        case Done => return Ready([]);
        case NeedLoad =>
          if currentChunk > endChunk || remaining == 0 {
            Finish();
            return Ready([]);
          }
          var e := LoadChunkSync();
          if e.Some? {
            return Failed(e.value);
          }
        case Serving =>
          if bufPos == |buf| {
            NextChunk();
          } else {
            var bytes := Serve(cap);
            return Ready(bytes);
          }
      }
    }
  }
}
