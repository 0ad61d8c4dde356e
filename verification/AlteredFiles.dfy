/**
 Encrypted files with any bytes in them. A range read delivers the plaintext of the frames up to the first one that
 is missing, torn or refused, and what it reports is what is wrong with that one.
 */
module AlteredFiles {
  import opened Base
  import opened Arithmetic
  import opened Framing
  import opened Streams
  import opened FrameStreams
  import opened ReadPath

  /** Why a run of frames ends. */
  datatype Why = AllThere | RunsOut | Torn | WrongPlace | Refused

  /** How many of `t` bytes of plaintext are in the complete frames that open at the head of `x`, and why there are no more. */
  function Ending(c: Codec, t: nat, i: nat, x: seq<Byte>): (r: (nat, Why))
    requires c.chunkSize > 0
    ensures r.0 <= t
    decreases t
  {
    var size := FrameSize(t, c.chunkSize);
    if t == 0 then (0, AllThere)
    else if x == [] then (0, RunsOut)
    else if |x| < size then (0, Torn)
    else
      match DecodeFrame(c, i, x[..size])
      case Err(WrongIndex) => (0, WrongPlace)
      case Err(NotAuthentic) => (0, Refused)
      case Ok(_) =>
        var later := Ending(c, t - Min(t, c.chunkSize), i + 1, x[size..]);
        (Min(t, c.chunkSize) + later.0, later.1)
  }

  /** What a reader reports that needs the frame that is not there. */
  function ErrorOf(why: Why): Option<IoError> {
    match why
    case AllThere => None
    case RunsOut => None
    case Torn => Some(TruncatedFrame)
    case WrongPlace => Some(FrameIndexMismatch)
    case Refused => Some(AuthenticationError)
  }

  /** The end of the run can be found from any of its frames. */
  lemma {:induction false} EndingLater(c: Codec, t: nat, i: nat, x: seq<Byte>, t': nat, i': nat, x': seq<Byte>)
    requires c.chunkSize > 0 && Walks(c, t, i, x, t', i', x')
    ensures t' <= t && Ending(c, t, i, x) == (t - t' + Ending(c, t', i', x').0, Ending(c, t', i', x').1)
    decreases t
  {
    hide DecodeFrame;
    if !(t == t' && i == i' && x == x') {
      EndingLater(c, t - Min(t, c.chunkSize), i + 1, x[FrameSize(t, c.chunkSize)..], t', i', x');
    }
  }

  /** The plaintext of the first `whole` bytes that lies in the window. */
  function Held(whole: nat, offset: nat, length: nat): nat {
    Minus(Min(whole, offset + length), offset)
  }

  /** Where the decryptor stops, the run ends or the window does. */
  lemma StopIsEnding(dec: FrameDecryptor, e: Option<IoError>)
    requires dec.Valid() && dec.Tracks() && dec.Stopped(if e.Some? then Failed(e.value) else Ready([]), true)
    ensures dec.outPos <= |dec.outBuf| && dec.codec.chunkSize > 0
    ensures var here := Ending(dec.codec, |dec.tail|, dec.chunkIndex, dec.Cipher());
            if e.Some? then dec.remaining > 0 && dec.outPos == |dec.outBuf| && here.0 == 0 && ErrorOf(here.1) == e
            else dec.remaining == 0 || (dec.outPos == |dec.outBuf| && here.0 == 0 && ErrorOf(here.1) == None)
  {
    hide DecodeFrame;
  }

  /**
   From the place where the reader stops: how much it has delivered, and whether it complains. `have`, `t'`, `skip'`
   and `w'` are what it has decrypted and not delivered, what it has not decrypted, what it has still to skip and
   what could still be decrypted.
   */
  lemma Reckoning(p: nat, offset: nat, length: nat, t: nat, skip: nat, out: nat, have: nat, t': nat, skip': nat, w': nat, whole: nat, failed: bool, bad: bool)
    requires t <= p && p - t <= offset && (if t == 0 then p <= offset && out == 0 else t - skip == p - offset)
    requires have + t' - skip' == t - skip - out && out <= length && (out > 0 ==> skip' == 0)
    requires t' <= t && w' <= t' && whole == p - t' + w'
    requires if failed then out < length && have == 0 && w' == 0 && bad else out == length || (have == 0 && w' == 0 && !bad)
    ensures out == Held(whole, offset, length)
    ensures failed ==> bad && length > 0 && whole < offset + length
    ensures !failed ==> !bad || length == 0 || whole >= offset + length
  {
  }

  lemma StartOfTail(p: seq<Byte>, chunkSize: nat, offset: nat)
    requires chunkSize > 0
    ensures var t := Tail(p, chunkSize, offset / chunkSize);
            && (t != [] ==> |t| - offset % chunkSize == |p| - offset)
            && (t == [] ==> |p| <= offset)
            && |p| - |t| <= offset && |t| <= |p|
  {
    DivMod(offset, chunkSize);
    LengthOfDrop(p, Times(offset / chunkSize, chunkSize));
  }

  lemma LengthOfDrop(s: seq<Byte>, n: nat)
    ensures |Drop(s, n)| == if n <= |s| then |s| - n else 0
  {
  }

  lemma PrefixOfWindow(p: seq<Byte>, out: seq<Byte>, whole: nat, offset: nat, length: nat)
    requires out <= Slice(p, offset, length) && whole <= |p| && |out| == Held(whole, offset, length)
    ensures out == Slice(Take(p, whole), offset, length)
  {
  }

  lemma NothingThere(p: seq<Byte>, offset: nat, length: nat)
    requires |p| <= offset
    ensures Slice(p, offset, length) == []
  {
  }

  lemma FileIs(file: ByteSource, rest: seq<Byte>)
    requires file.Valid() && file.Rest() == rest
    ensures File(file).Obj() == file && File(file).Valid() && File(file).Rest() == rest
    ensures Fail !in file.schedule ==> File(file).Healthy()
  {
  }

  lemma Starts(dec: FrameDecryptor, p: seq<Byte>, offset: nat)
    requires dec.Valid() && dec.Tracks() && dec.plaintext == p && dec.codec.chunkSize > 0
    requires dec.chunkIndex == offset / dec.codec.chunkSize && dec.skipBytes == offset % dec.codec.chunkSize
    requires dec.outBuf == [] && dec.outPos == 0
    ensures Unforgeable(dec.codec, p) || dec.Cut() ==> dec.Trusted()
    ensures dec.inner.Healthy() ==> dec.Healthy()
    ensures dec.tail == Tail(p, dec.codec.chunkSize, offset / dec.codec.chunkSize)
    ensures dec.Left() == |dec.tail| - offset % dec.codec.chunkSize
  {
  }

  lemma LeftIs(dec: FrameDecryptor)
    ensures dec.Left() == |dec.outBuf| - dec.outPos + |dec.tail| - dec.skipBytes
  {
  }

  /** The plaintext that a range read finds in order: all before its first frame, and then the complete frames that open. */
  ghost function Sound(c: Codec, p: seq<Byte>, disk: seq<Byte>, offset: nat): (r: (nat, Why))
    requires c.chunkSize > 0
    ensures r.0 <= |p|
  {
    var first := offset / c.chunkSize;
    var t := |Tail(p, c.chunkSize, first)|;
    var (whole, why) := Ending(c, t, first, Drop(disk, CiphertextOffset(c.chunkSize, offset)));
    assert t <= |p|;
    (|p| - t + whole, why)
  }

  /**
   Reading a range of a file with any bytes in it. Either the key is such that nothing opens that was not sealed, or
   the file is the writer's up to a cut, so that with what is missing it would be the writer's.

   Only bytes of the window come out, in order. Without an error, what comes out is the window cut to the sound
   frames, and it is cut only where the file ends between two frames. On a sound device that holds in any case, and
   there is an error iff the window needs a frame that is torn, out of place or refused; the error says which.
   */
  method ReadAlteredFile(codec: Codec, disk: seq<Byte>, schedule: seq<Tick>, offset: nat, length: nat, caps: seq<nat>,
                         size: nat, ghost plaintext: seq<Byte>, ghost missing: seq<Byte>)
    returns (out: seq<Byte>, e: Option<IoError>)
    requires WellFormed(codec, |plaintext|) && size == |plaintext| && codec.chunkSize > 0
    requires || Unforgeable(codec, plaintext)
             || (Opens(codec, plaintext)
                 && Drop(disk, CiphertextOffset(codec.chunkSize, offset)) + missing
                    == Frames(codec, Tail(plaintext, codec.chunkSize, offset / codec.chunkSize), offset / codec.chunkSize))
    requires forall j :: 0 <= j < |caps| ==> caps[j] > 0
    ensures out <= Slice(plaintext, offset, length)
    ensures var (whole, why) := Sound(codec, plaintext, disk, offset);
            && (e.None? || Fail !in schedule ==> out == Slice(Take(plaintext, whole), offset, length))
            && (e.None? ==> length == 0 || whole >= offset + length || why == AllThere || why == RunsOut)
            && (Fail !in schedule ==> e == if length == 0 || whole >= offset + length then None else ErrorOf(why))
  {
    hide *;
    var rest := Drop(disk, CiphertextOffset(codec.chunkSize, offset));
    var file := new ByteSource(rest, schedule);
    FileIs(file, rest);
    var dec := new FrameDecryptor.ForRange(File(file), codec, size, offset, length, plaintext, missing);
    Starts(dec, plaintext, offset);
    out, e := DrainDecryptor(dec, caps);
    ghost var c, first := codec.chunkSize, offset / codec.chunkSize;
    ghost var t, whole, why := |Tail(plaintext, c, first)|, Sound(codec, plaintext, disk, offset).0, Sound(codec, plaintext, disk, offset).1;
    SoundIs(codec, plaintext, disk, offset);
    StartOfTail(plaintext, c, offset);
    LeftIs(dec);
    if t == 0 {
      NothingThere(plaintext, offset, length);
    }
    EndingLater(codec, t, first, rest, |dec.tail|, dec.chunkIndex, dec.Cipher());
    if e.None? || Fail !in schedule {
      StopIsEnding(dec, e);
      ErrorIs();
      Reckoning(size, offset, length, t, offset % c, |out|, |dec.outBuf| - dec.outPos, |dec.tail|, dec.skipBytes,
                Ending(codec, |dec.tail|, dec.chunkIndex, dec.Cipher()).0, whole, e.Some?, ErrorOf(why).Some?);
      PrefixOfWindow(plaintext, out, whole, offset, length);
    }
  }

  lemma SoundIs(c: Codec, p: seq<Byte>, disk: seq<Byte>, offset: nat)
    requires c.chunkSize > 0
    ensures var first := offset / c.chunkSize;
            var t := |Tail(p, c.chunkSize, first)|;
            var end := Ending(c, t, first, Drop(disk, CiphertextOffset(c.chunkSize, offset)));
            t <= |p| && Sound(c, p, disk, offset) == (|p| - t + end.0, end.1)
  {
  }

  lemma ErrorIs()
    ensures forall why :: ErrorOf(why).None? <==> why == AllThere || why == RunsOut
  {
  }
}
