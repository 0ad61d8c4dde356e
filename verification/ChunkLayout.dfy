/** How the bytes of an object are laid out over chunk files, and what a window over the files holds. */
module ChunkLayout {
  import opened Base
  import opened Arithmetic
  import opened ChunkStore

  /** The first `k` files are the consecutive chunks of `data`. */
  ghost predicate ChunksOf(contents: seq<seq<Byte>>, data: seq<Byte>, chunkSize: nat, k: nat) {
    && k <= |contents|
    && forall i: nat :: i < k ==> contents[i] == Slice(data, Times(i, chunkSize), chunkSize)
  }

  /** The contents are the object's bytes cut into chunks, followed by full-size parity shards. */
  ghost predicate Holds(man: Manifest, contents: seq<seq<Byte>>, data: seq<Byte>) {
    && man.chunkSize > 0
    && man.totalSize == |data|
    && man.chunkCount > 0
    && Times(man.chunkCount - 1, man.chunkSize) <= |data| <= Times(man.chunkCount, man.chunkSize)
    && ChunksOf(contents, data, man.chunkSize, man.chunkCount)
    && (forall i: nat :: man.chunkCount <= i < |contents| ==> |contents[i]| == man.chunkSize)
  }

  lemma FirstOfChunks(contents: seq<seq<Byte>>, data: seq<Byte>, chunkSize: nat, k: nat, from: nat, last: nat)
    requires ChunksOf(contents, data, chunkSize, k) && from <= last < k
    ensures Cat(contents, from, last) == Slice(data, Times(from, chunkSize), chunkSize) + Cat(contents, from + 1, last)
  {
  }

  lemma {:induction false} CatOfChunks(contents: seq<seq<Byte>>, data: seq<Byte>, chunkSize: nat, k: nat, from: nat, n: nat)
    requires ChunksOf(contents, data, chunkSize, k) && from + n <= k && n > 0
    ensures Cat(contents, from, from + n - 1) == Slice(data, Times(from, chunkSize), Times(n, chunkSize))
    decreases n
  {
    hide Slice, ChunksOf;
    FirstOfChunks(contents, data, chunkSize, k, from, from + n - 1);
    if n > 1 {
      CatOfChunks(contents, data, chunkSize, k, from + 1, n - 1);
      assert from + 1 + (n - 1) - 1 == from + n - 1;
      SliceSplit(data, Times(from, chunkSize), chunkSize, Times(n - 1, chunkSize));
    }
  }

  lemma CatOfDataChunks(man: Manifest, contents: seq<seq<Byte>>, data: seq<Byte>, from: nat, n: nat)
    requires Holds(man, contents, data) && from + n <= man.chunkCount && n > 0
    ensures Cat(contents, from, from + n - 1) == Slice(data, Times(from, man.chunkSize), Times(n, man.chunkSize))
  {
    hide Slice, ChunksOf, Times, Cat;
    CatOfChunks(contents, data, man.chunkSize, man.chunkCount, from, n);
  }

  /** Concatenating all data chunks gives back the object. */
  lemma CatOfWholeObject(man: Manifest, contents: seq<seq<Byte>>, data: seq<Byte>)
    requires Holds(man, contents, data)
    ensures Take(Cat(contents, 0, man.chunkCount - 1), man.totalSize) == data
  {
    CatOfDataChunks(man, contents, data, 0, man.chunkCount);
  }

  lemma {:induction false} CatSplit(contents: seq<seq<Byte>>, from: nat, mid: nat, last: nat)
    requires from < mid <= last + 1 && mid <= |contents|
    ensures Cat(contents, from, last) == Cat(contents, from, mid - 1) + Cat(contents, mid, last)
    decreases mid - from
  {
    var head, later := contents[from], Cat(contents, mid, last);
    if from + 1 == mid {
      assert Cat(contents, from, from) == head + [];
    } else {
      CatSplit(contents, from + 1, mid, last);
      var middle := Cat(contents, from + 1, mid - 1);
      assert head + (middle + later) == (head + middle) + later;
    }
  }

  /** First and last block of a non-empty byte window. */
  lemma WindowBlocks(offset: nat, length: nat, b: nat)
    requires b > 0 && length > 0
    ensures var first, last := offset / b, (offset + length - 1) / b;
            && first <= last
            && offset == Times(first, b) + offset % b
            && Times(last, b) < offset + length <= Times(last + 1, b)
            && offset % b + length <= Times(last + 1 - first, b)
  {
    hide Times;
    var first, skip, last := offset / b, offset % b, (offset + length - 1) / b;
    DivMod(offset, b);
    DivMod(offset + length - 1, b);
    BlocksOf(offset, length, b, first, skip, last);
  }

  lemma BlocksOf(offset: nat, length: nat, b: nat, first: nat, skip: nat, last: nat)
    requires length > 0 && skip < b
    requires offset == Times(first, b) + skip
    requires Times(last, b) <= offset + length - 1 < Times(last, b) + b
    ensures first <= last && skip + length <= Times(last + 1 - first, b) && Times(last + 1, b) == Times(last, b) + b
  {
    if last < first {
      TimesMono(last, first, b);
    }
    TimesAdd(first, last + 1 - first, b);
  }

  lemma WindowOfBlocks(man: Manifest, contents: seq<seq<Byte>>, data: seq<Byte>, first: nat, last: nat, skip: nat, length: nat)
    requires Holds(man, contents, data) && first <= last < man.chunkCount
    requires skip + length <= Times(last + 1 - first, man.chunkSize)
    ensures Slice(Cat(contents, first, last), skip, length) == Slice(data, Times(first, man.chunkSize) + skip, length)
  {
    hide Slice, ChunksOf, Times, Cat;
    var n := last + 1 - first;
    CatOfDataChunks(man, contents, data, first, n);
    SliceOfSlice(data, Times(first, man.chunkSize), Times(n, man.chunkSize), skip, length);
  }

  /** A window that ends inside the last data chunk is a window of the object. */
  lemma WindowInsideData(man: Manifest, contents: seq<seq<Byte>>, data: seq<Byte>, offset: nat, length: nat)
    requires Holds(man, contents, data) && length > 0
    requires (offset + length - 1) / man.chunkSize < man.chunkCount
    ensures Slice(Cat(contents, offset / man.chunkSize, (offset + length - 1) / man.chunkSize), offset % man.chunkSize, length)
            == Slice(data, offset, length)
  {
    hide Slice, Times, Cat, Min;
    WindowBlocks(offset, length, man.chunkSize);
    WindowOfBlocks(man, contents, data, offset / man.chunkSize, (offset + length - 1) / man.chunkSize,
                   offset % man.chunkSize, length);
  }

  /** From a data chunk to a parity shard, all bytes from the first chunk on are followed by parity. */
  lemma BytesThroughParity(man: Manifest, contents: seq<seq<Byte>>, data: seq<Byte>, first: nat, last: nat)
    requires Holds(man, contents, data)
    requires first <= man.chunkCount <= last < |contents|
    requires Times(first, man.chunkSize) <= |data|
    ensures |Cat(contents, first, last)| > |data| - Times(first, man.chunkSize)
  {
    hide Slice, ChunksOf, Times;
    var k := man.chunkCount;
    ParityFollows(man, contents, data, last);
    if first < k {
      CatSplit(contents, first, k, last);
      CatOfDataChunks(man, contents, data, first, k - first);
      TimesAdd(first, k - first, man.chunkSize);
      SliceLength(data, Times(first, man.chunkSize), Times(k - first, man.chunkSize));
      assert first + (k - first) - 1 == k - 1;
    }
  }

  lemma ParityFollows(man: Manifest, contents: seq<seq<Byte>>, data: seq<Byte>, last: nat)
    requires Holds(man, contents, data) && man.chunkCount <= last < |contents|
    ensures Cat(contents, man.chunkCount, last) != []
  {
    assert |contents[man.chunkCount]| == man.chunkSize;
  }

  /** A window that runs past the nominal end of the last data chunk picks up parity bytes. */
  lemma BlocksPastData(man: Manifest, contents: seq<seq<Byte>>, data: seq<Byte>,
                       offset: nat, length: nat, first: nat, skip: nat, last: nat)
    requires Holds(man, contents, data) && offset <= |data|
    requires first <= last && man.chunkCount <= last < |contents|
    requires offset == Times(first, man.chunkSize) + skip
    requires Times(last, man.chunkSize) < offset + length
    ensures |Slice(Cat(contents, first, last), skip, length)| > |Slice(data, offset, length)|
  {
    TimesMono(man.chunkCount, last, man.chunkSize);
    if first > man.chunkCount {
      TimesMono(man.chunkCount, first, man.chunkSize);
    }
    BytesThroughParity(man, contents, data, first, last);
  }

  /**
   `with_range` has no bound check. For a non-empty window that starts inside the object, what it
   serves is exactly the object's window if and only if the window ends within the nominal extent
   of the data chunks; a longer one either runs off the manifest or serves parity bytes as data.
   */
  lemma RangeIsExactIff(man: Manifest, contents: seq<seq<Byte>>, data: seq<Byte>, offset: nat, length: nat)
    requires Holds(man, contents, data) && length > 0 && offset <= |data|
    ensures var last := (offset + length - 1) / man.chunkSize;
            (last < |contents| && Slice(Cat(contents, offset / man.chunkSize, last), offset % man.chunkSize, length)
                                  == Slice(data, offset, length))
            <==> offset + length <= Times(man.chunkCount, man.chunkSize)
  {
    hide Slice, Times, Cat, Min;
    var last := (offset + length - 1) / man.chunkSize;
    DivLess(offset + length - 1, man.chunkSize, man.chunkCount);
    if last < man.chunkCount {
      WindowInsideData(man, contents, data, offset, length);
    } else if last < |contents| {
      WindowBlocks(offset, length, man.chunkSize);
      BlocksPastData(man, contents, data, offset, length, offset / man.chunkSize, offset % man.chunkSize, last);
    }
  }

  /** Inside the object the first chunk is long enough for the in-chunk offset. */
  lemma StartFitsChunk(man: Manifest, contents: seq<seq<Byte>>, data: seq<Byte>, offset: nat)
    requires Holds(man, contents, data) && offset <= |data|
    requires offset / man.chunkSize < |contents|
    ensures offset % man.chunkSize <= |contents[offset / man.chunkSize]|
  {
    DivMod(offset, man.chunkSize);
  }
}
