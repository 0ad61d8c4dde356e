/**
 Encrypted files that end too soon. The reader takes the end of a file between two frames for the end of the
 object, so the bytes that are missing are noticed only when the file ends inside a frame.
 */
module Truncation {
  import opened Base
  import opened Arithmetic
  import opened Framing
  import opened Streams
  import opened FrameStreams
  import opened AlteredFiles

  // ---------------------------------------------------------------- sizes of a cut ciphertext

  /** The ciphertext of `t` bytes of plaintext. */
  function CipherSize(t: nat, chunkSize: nat): nat
    requires chunkSize > 0
  {
    if t == 0 then 0 else
    Min(t, chunkSize) + FRAME_OVERHEAD + CipherSize(t - Min(t, chunkSize), chunkSize)
  }

  /** How much of `t` bytes of plaintext is in complete frames among the first `a` bytes of its ciphertext. */
  function Whole(t: nat, a: nat, chunkSize: nat): (k: nat)
    requires chunkSize > 0
    ensures k <= t
    decreases t
  {
    var n := Min(t, chunkSize);
    if t == 0 || a < n + FRAME_OVERHEAD then 0 else n + Whole(t - n, a - n - FRAME_OVERHEAD, chunkSize)
  }

  /** Whether these `a` bytes end inside a frame. */
  predicate Tear(t: nat, a: nat, chunkSize: nat)
    requires chunkSize > 0
    decreases t
  {
    var n := Min(t, chunkSize);
    t > 0 && if a < n + FRAME_OVERHEAD then a > 0 else Tear(t - n, a - n - FRAME_OVERHEAD, chunkSize)
  }

  /** Leaving out frames from the front takes `t` bytes of plaintext to `t'`. */
  predicate Leads(t: nat, t': nat, chunkSize: nat)
    requires chunkSize > 0
  {
    t == t' || (t > 0 && Leads(t - Min(t, chunkSize), t', chunkSize))
  }

  lemma {:induction false} LeadsDown(t: nat, t': nat, chunkSize: nat)
    requires chunkSize > 0 && Leads(t, t', chunkSize)
    ensures t' <= t && CipherSize(t', chunkSize) <= CipherSize(t, chunkSize)
  {
    if t != t' {
      LeadsDown(t - Min(t, chunkSize), t', chunkSize);
    }
  }

  lemma {:induction false} LeadsOn(t: nat, t': nat, chunkSize: nat)
    requires chunkSize > 0 && Leads(t, t', chunkSize) && t' > 0
    ensures Leads(t, t' - Min(t', chunkSize), chunkSize)
  {
    if t != t' {
      LeadsOn(t - Min(t, chunkSize), t', chunkSize);
    }
  }

  /** Complete frames can be counted from any frame on, as long as the same ciphertext is missing at the end. */
  lemma {:induction false} CountFrom(t: nat, a: nat, t': nat, a': nat, chunkSize: nat)
    requires chunkSize > 0 && Leads(t, t', chunkSize)
    requires CipherSize(t, chunkSize) - a == CipherSize(t', chunkSize) - a'
    ensures Whole(t, a, chunkSize) == t - t' + Whole(t', a', chunkSize)
    ensures Tear(t, a, chunkSize) == Tear(t', a', chunkSize)
    ensures a' <= a
  {
    if t != t' {
      var n := Min(t, chunkSize);
      LeadsDown(t - n, t', chunkSize);
      CountFrom(t - n, a - n - FRAME_OVERHEAD, t', a', chunkSize);
    }
  }

  /** A cut before some frame leaves no complete frame from there on. */
  lemma {:induction false} CutBefore(t: nat, a: nat, t': nat, chunkSize: nat)
    requires chunkSize > 0 && Leads(t, t', chunkSize)
    requires a <= CipherSize(t, chunkSize) - CipherSize(t', chunkSize)
    ensures Whole(t, a, chunkSize) <= t - t'
  {
    var n := Min(t, chunkSize);
    if t != t' {
      LeadsDown(t - n, t', chunkSize);
      if a >= n + FRAME_OVERHEAD {
        CutBefore(t - n, a - n - FRAME_OVERHEAD, t', chunkSize);
      }
    } else {
      assert a == 0;
    }
  }

  lemma {:induction false} SizeOfFrames(c: Codec, p: seq<Byte>, index: nat)
    requires WellFormed(c, |p|)
    ensures var t := Tail(p, c.chunkSize, index);
            c.chunkSize > 0 && |Frames(c, t, index)| == CipherSize(|t|, c.chunkSize)
    decreases |Tail(p, c.chunkSize, index)|
  {
    var t := Tail(p, c.chunkSize, index);
    if t != [] {
      FrameShape(c, p, index);
      TailStep(p, c.chunkSize, index);
      SizeOfFrames(c, p, index + 1);
    }
  }

  lemma {:induction false} TailsLead(p: seq<Byte>, chunkSize: nat, i: nat, j: nat)
    requires chunkSize > 0 && i <= j
    ensures Leads(|Tail(p, chunkSize, i)|, |Tail(p, chunkSize, j)|, chunkSize)
    decreases j - i
  {
    if i < j {
      TailsLead(p, chunkSize, i, j - 1);
      TailStep(p, chunkSize, j - 1);
      var t := |Tail(p, chunkSize, j - 1)|;
      assert |Tail(p, chunkSize, j)| == if t == 0 then 0 else t - Min(t, chunkSize);
      if t > 0 {
        LeadsOn(|Tail(p, chunkSize, i)|, t, chunkSize);
      }
    }
  }

  // ---------------------------------------------------------------- reading a file that has been cut

  /** How the ciphertext that a read starts with, and what is missing behind it, relate to the file. */
  predicate Begins(p: nat, n: nat, t: nat, rest: nat, missing: nat, c: nat)
    requires c > 0
  {
    && rest + missing == CipherSize(t, c) && Leads(p, t, c)
    && (rest > 0 ==> CipherSize(p, c) - n == missing)
    && (rest == 0 ==> Whole(p, n, c) <= p - t)
  }

  /** What is at the start of a range of a cut file, and what is missing behind it. */
  lemma AtStart(c: Codec, p: seq<Byte>, disk: seq<Byte>, offset: nat) returns (missing: seq<Byte>)
    requires WellFormed(c, |p|) && disk <= Frames(c, p, 0)
    ensures c.chunkSize > 0
    ensures var t := Tail(p, c.chunkSize, offset / c.chunkSize);
            var rest := Drop(disk, CiphertextOffset(c.chunkSize, offset));
            && rest + missing == Frames(c, t, offset / c.chunkSize)
            && Begins(|p|, |disk|, |t|, |rest|, |missing|, c.chunkSize)
            && (rest != [] <==> |disk| > CiphertextOffset(c.chunkSize, offset))
  {
    var from, t := CiphertextOffset(c.chunkSize, offset), Tail(p, c.chunkSize, offset / c.chunkSize);
    var all, rest := Frames(c, p, 0), Drop(disk, from);
    SeekLandsOnFrame(c, p, offset);
    SizeOfFrames(c, p, 0);
    SizeOfFrames(c, p, offset / c.chunkSize);
    TailsLead(p, c.chunkSize, 0, offset / c.chunkSize);
    WholeTail(p, c.chunkSize);
    hide Frames, Tail, CipherSize, Leads, WellFormed, CiphertextOffset;
    missing := Drop(Drop(all, from), |rest|);
    CutAt(all, disk, from);
    if rest == [] {
      LengthOfDrop(all, from);
      if from <= |all| {
        CutBefore(|p|, |disk|, |t|, c.chunkSize);
      }
    }
  }

  lemma WholeTail(p: seq<Byte>, chunkSize: nat)
    ensures Tail(p, chunkSize, 0) == p
  {
  }

  lemma CutAt(all: seq<Byte>, disk: seq<Byte>, from: nat)
    requires disk <= all
    ensures Drop(disk, from) + Drop(Drop(all, from), |Drop(disk, from)|) == Drop(all, from)
    ensures Drop(disk, from) != [] <==> |disk| > from
    ensures Drop(disk, from) != [] ==> |Drop(Drop(all, from), |Drop(disk, from)|)| == |all| - |disk|
  {
  }

  lemma ShortIff(p: seq<Byte>, whole: nat, offset: nat, length: nat)
    requires whole <= |p|
    ensures Slice(Take(p, whole), offset, length) != Slice(p, offset, length) <==>
              whole < Min(offset + length, |p|) && offset < Min(offset + length, |p|)
    ensures offset < Min(offset + length, |p|) ==> length > 0 && Min(offset + length, |p|) <= offset + length
  {
    SliceLength(p, offset, length);
    SliceLength(Take(p, whole), offset, length);
  }

  lemma NoneWhole(t: nat, chunkSize: nat)
    requires chunkSize > 0
    ensures Whole(t, 0, chunkSize) == 0 && !Tear(t, 0, chunkSize) && Whole(0, t, chunkSize) == 0 && !Tear(0, t, chunkSize)
  {
  }

  /** The frames of a cut ciphertext are sound as far as they are complete, and only the cut can spoil one. */
  lemma {:induction false} EndingOfCut(c: Codec, p: seq<Byte>, index: nat, x: seq<Byte>, missing: seq<Byte>)
    requires WellFormed(c, |p|) && Opens(c, p) && x + missing == Frames(c, Tail(p, c.chunkSize, index), index)
    ensures c.chunkSize > 0
    ensures var (whole, why) := Ending(c, |Tail(p, c.chunkSize, index)|, index, x);
            && whole == Whole(|Tail(p, c.chunkSize, index)|, |x|, c.chunkSize)
            && (why == Torn <==> Tear(|Tail(p, c.chunkSize, index)|, |x|, c.chunkSize))
            && why != WrongPlace && why != Refused
    decreases |Tail(p, c.chunkSize, index)|
  {
    hide Frames, Tail, DecodeFrame, Opens, WellFormed, Take, Drop;
    ChunksHaveSize(c, p);
    var t := Tail(p, c.chunkSize, index);
    var size := Framing.FrameSize(|t|, c.chunkSize);
    if t != [] && |x| >= size {
      var frame, rest := x[..size], x[size..];
      assert x == frame + rest;
      Regroup(frame, rest, missing);
      TakeLength(t, c.chunkSize);
      FirstFrame(c, p, index, frame, rest + missing);
      NextTail(p, c.chunkSize, index);
      EndingOfCut(c, p, index + 1, rest, missing);
    }
  }

  lemma ChunksHaveSize(c: Codec, p: seq<Byte>)
    requires WellFormed(c, |p|)
    ensures c.chunkSize > 0
  {
  }

  lemma NextTail(p: seq<Byte>, chunkSize: nat, index: nat)
    ensures |Tail(p, chunkSize, index + 1)| == |Tail(p, chunkSize, index)| - Min(|Tail(p, chunkSize, index)|, chunkSize)
  {
    TailStep(p, chunkSize, index);
  }

  /** Counted over the whole file, or from the frame where reading starts: the window is cut at the same place. */
  lemma SameWindow(p: seq<Byte>, t: nat, whole: nat, sound: nat, offset: nat, length: nat)
    requires t <= |p| && |p| - t <= offset && whole <= |p| && sound <= |p|
    requires whole == sound || (whole <= |p| - t && sound == |p| - t)
    ensures Slice(Take(p, whole), offset, length) == Slice(Take(p, sound), offset, length)
    ensures length > 0 ==> (whole < offset + length <==> sound < offset + length)
  {
  }

  /**
   Reading a range of a file that is a beginning of the genuine ciphertext, from a device that does not fail: what
   comes out is the window cut to the complete frames of the file. There is an error if and only if the file ends
   inside a frame, behind the place where reading starts, and the window is not served by the complete frames alone.
   */
  method ReadTruncatedFile(codec: Codec, disk: seq<Byte>, schedule: seq<Tick>, offset: nat, length: nat, caps: seq<nat>,
                           size: nat, ghost plaintext: seq<Byte>)
    returns (out: seq<Byte>, e: Option<IoError>)
    requires WellFormed(codec, |plaintext|) && Opens(codec, plaintext) && size == |plaintext|
    requires disk <= Frames(codec, plaintext, 0) && Fail !in schedule
    requires forall j :: 0 <= j < |caps| ==> caps[j] > 0
    ensures codec.chunkSize > 0
    ensures var whole := Whole(|plaintext|, |disk|, codec.chunkSize);
            && out == Slice(Take(plaintext, whole), offset, length)
            && (e.Some? <==>
                  && Tear(|plaintext|, |disk|, codec.chunkSize) && |disk| > CiphertextOffset(codec.chunkSize, offset)
                  && length > 0 && whole < offset + length)
            // what comes out is short without an error iff the cut is at a frame boundary, or before the range starts
            && (e.None? && out != Slice(plaintext, offset, length) <==>
                  && (Tear(|plaintext|, |disk|, codec.chunkSize) ==> |disk| <= CiphertextOffset(codec.chunkSize, offset))
                  && whole < Min(offset + length, size) && offset < Min(offset + length, size))
  {
    ghost var missing := AtStart(codec, plaintext, disk, offset);
    hide *;
    out, e := ReadAlteredFile(codec, disk, schedule, offset, length, caps, size, plaintext, missing);
    SoundInCut(codec, plaintext, disk, offset, length, missing);
    ShortIff(plaintext, Whole(size, |disk|, codec.chunkSize), offset, length);
  }

  /** What the read of a cut file finds sound, counted over the whole file. */
  lemma SoundInCut(c: Codec, p: seq<Byte>, disk: seq<Byte>, offset: nat, length: nat, missing: seq<Byte>)
    requires WellFormed(c, |p|) && Opens(c, p) && c.chunkSize > 0
    requires var t, rest := Tail(p, c.chunkSize, offset / c.chunkSize), Drop(disk, CiphertextOffset(c.chunkSize, offset));
             && rest + missing == Frames(c, t, offset / c.chunkSize)
             && Begins(|p|, |disk|, |t|, |rest|, |missing|, c.chunkSize)
             && (rest != [] <==> |disk| > CiphertextOffset(c.chunkSize, offset))
    ensures var (sound, why) := Sound(c, p, disk, offset);
            var whole := Whole(|p|, |disk|, c.chunkSize);
            && Slice(Take(p, whole), offset, length) == Slice(Take(p, sound), offset, length)
            && (length > 0 ==> (whole < offset + length <==> sound < offset + length))
            && (ErrorOf(why).Some? <==> Tear(|p|, |disk|, c.chunkSize) && |disk| > CiphertextOffset(c.chunkSize, offset))
  {
    hide *;
    var first := offset / c.chunkSize;
    var t, rest := Tail(p, c.chunkSize, first), Drop(disk, CiphertextOffset(c.chunkSize, offset));
    EndingOfCut(c, p, first, rest, missing);
    SoundIs(c, p, disk, offset);
    StartOfTail(p, c.chunkSize, offset);
    Together(c, p, disk, |t|, rest, |missing|);
    SameWindow(p, |t|, Whole(|p|, |disk|, c.chunkSize), Sound(c, p, disk, offset).0, offset, length);
    ErrorsOfCuts();
  }

  lemma ErrorsOfCuts()
    ensures forall why :: why != WrongPlace && why != Refused ==> (ErrorOf(why).Some? <==> why == Torn)
  {
  }

  lemma Together(c: Codec, p: seq<Byte>, disk: seq<Byte>, t: nat, rest: seq<Byte>, missing: nat)
    requires c.chunkSize > 0 && Begins(|p|, |disk|, t, |rest|, missing, c.chunkSize)
    ensures t <= |p|
    ensures if rest == [] then Whole(t, 0, c.chunkSize) == 0 && !Tear(t, 0, c.chunkSize) && Whole(|p|, |disk|, c.chunkSize) <= |p| - t
            else Whole(|p|, |disk|, c.chunkSize) == |p| - t + Whole(t, |rest|, c.chunkSize)
                 && Tear(|p|, |disk|, c.chunkSize) == Tear(t, |rest|, c.chunkSize)
  {
    LeadsDown(|p|, t, c.chunkSize);
    NoneWhole(t, c.chunkSize);
    if rest != [] {
      CountFrom(|p|, |disk|, t, |rest|, c.chunkSize);
    }
  }
}
