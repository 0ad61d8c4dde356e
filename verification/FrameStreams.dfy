/** The two stream adapters over the frame format, and the readers they can sit on. */
module FrameStreams {
  import opened Base
  import opened Arithmetic
  import opened Framing
  import opened Streams
  import opened ChunkStore

  /** What a boxed `AsyncRead` below an adapter can be. */
  datatype Inner = File(src: ByteSource) | Chunks(reader: VerifiedChunkReader) {
    ghost function Obj(): object {
      match this
      case File(s) => s
      case Chunks(r) => r
    }

    ghost predicate Valid()
      reads Obj()
    {
      match this
      case File(s) => s.Valid()
      case Chunks(r) => r.Valid()
    }

    ghost function Rest(): seq<Byte>
      requires Valid()
      reads Obj()
    {
      match this
      case File(s) => s.Rest()
      case Chunks(r) => r.Rest()
    }

    ghost predicate Healthy()
      requires Valid()
      reads Obj()
    {
      match this
      case File(s) => s.Healthy()
      case Chunks(r) => r.Healthy()
    }

    /** How many more polls can stall. */
    ghost function Stalls(): nat
      reads Obj()
    {
      match this
      case File(s) => |s.schedule|
      case Chunks(_) => 0
    }

    method PollRead(cap: nat) returns (r: Poll)
      requires Valid()
      modifies Obj()
      ensures Valid()
      ensures Stalls() <= old(Stalls())
      ensures r.Pending? ==> Stalls() < old(Stalls())
      ensures old(Healthy()) ==> Healthy() && !r.Failed?
      ensures !r.Ready? ==> Rest() == old(Rest())
      ensures r.Ready? ==> |r.bytes| <= cap && old(Rest()) == r.bytes + Rest()
      ensures r.Ready? && cap > 0 && r.bytes == [] ==> Rest() == []
    {
      match this
      case File(s) => r := s.PollRead(cap);
      case Chunks(c) => r := c.PollRead(cap);
    }
  }

  /** `put_slice` into a fixed buffer. */
  method CopyInto(a: array<Byte>, at: nat, bytes: seq<Byte>)
    requires at + |bytes| <= a.Length
    modifies a
    ensures a[..at + |bytes|] == old(a[..at]) + bytes
  {
    for i := 0 to |bytes|
      invariant a[..at] == old(a[..at])
      invariant a[at..at + i] == bytes[..i]
    {
      a[at + i] := bytes[i];
      assert a[at..at + i + 1] == a[at..at + i] + [bytes[i]];
    }
    assert a[..at + |bytes|] == a[..at] + a[at..at + |bytes|];
  }

  // ---------------------------------------------------------------- encryption

  class FrameEncryptor {
    const inner: ByteSource
    const codec: Codec
    const ptBuf: array<Byte>
    /** The plaintext that is not encrypted yet, buffered or still to be read. */
    ghost var plain: seq<Byte>
    var chunkIndex: nat
    var ptLen: nat
    var ctBuf: seq<Byte>
    var ctPos: nat
    var done: bool

    ghost predicate Valid()
      reads this, ptBuf, inner
    {
      && inner.Valid()
      && |codec.prefix| == 4
      && codec.chunkSize > 0
      && ptBuf.Length == codec.chunkSize
      && ptLen <= codec.chunkSize
      && ctPos <= |ctBuf|
      && plain == ptBuf[..ptLen] + inner.Rest()
      && (done ==> plain == [])
    }

    /** The ciphertext still to come out of this adapter. */
    ghost function Rest(): seq<Byte>
      requires ctPos <= |ctBuf| && codec.chunkSize > 0
      reads this
    {
      ctBuf[ctPos..] + Frames(codec, plain, chunkIndex)
    }

    constructor (inner: ByteSource, codec: Codec)
      requires inner.Valid() && |codec.prefix| == 4 && codec.chunkSize > 0
      ensures Valid() && fresh(ptBuf)
      ensures this.inner == inner && this.codec == codec
      ensures Rest() == Frames(codec, inner.Rest(), 0)
    {
      this.inner := inner;
      this.codec := codec;
      ptBuf := new Byte[codec.chunkSize];
      chunkIndex, ptLen, ctBuf, ctPos, done := 0, 0, [], 0, false;
      plain := inner.Rest();
      new;
      assert ptBuf[..ptLen] + inner.Rest() == inner.Rest();
    }

    /** `encrypt_current_chunk`: legal once the buffer is full or the input has ended. */
    method EncryptCurrentChunk()
      requires Valid() && ctPos == |ctBuf| && ptLen > 0
      requires ptLen == codec.chunkSize || inner.Rest() == []
      modifies this`plain, this`chunkIndex, this`ptLen, this`ctBuf, this`ctPos
      ensures Valid() && Rest() == old(Rest()) && ptLen == 0
    {
      ghost var rest := inner.Rest();
      assert Take(plain, codec.chunkSize) == ptBuf[..ptLen];
      assert Drop(plain, codec.chunkSize) == rest;
      var nonce := codec.prefix + LittleEndian(chunkIndex, 8);
      ctBuf := nonce + codec.seal(nonce, codec.aad(chunkIndex), ptBuf[..ptLen]);
      assert ctBuf == FrameBytes(codec, chunkIndex, ptBuf[..ptLen]);
      ctPos := 0;
      chunkIndex := chunkIndex + 1;
      ptLen := 0;
      plain := rest;
      assert ptBuf[..ptLen] + rest == rest;
    }

    /** Reads plaintext into the free part of the buffer; `Ready(bytes)` reports what arrived. */
    method FillPlaintext() returns (r: Poll)
      requires Valid() && ptLen < codec.chunkSize
      modifies this`ptLen, ptBuf, inner
      ensures Valid()
      ensures |inner.schedule| <= old(|inner.schedule|)
      ensures old(inner.Healthy()) ==> inner.Healthy() && !r.Failed?
      ensures r.Pending? ==> |inner.schedule| < old(|inner.schedule|)
      ensures r.Ready? ==> ptLen == old(ptLen) + |r.bytes| && |inner.Rest()| + |r.bytes| == old(|inner.Rest()|)
      ensures r == Ready([]) ==> inner.Rest() == []
    {
      ghost var before := ptBuf[..ptLen];
      r := inner.PollRead(codec.chunkSize - ptLen);
      if r.Ready? {
        CopyInto(ptBuf, ptLen, r.bytes);
        ptLen := ptLen + |r.bytes|;
        assert before + (r.bytes + inner.Rest()) == ptBuf[..ptLen] + inner.Rest();
      }
    }

    /** Serves from the encrypted output buffer. */
    method HandOut(cap: nat) returns (bytes: seq<Byte>)
      requires ctPos < |ctBuf| && codec.chunkSize > 0
      modifies this`ctPos
      ensures ctPos <= |ctBuf| && |bytes| <= cap && old(Rest()) == bytes + Rest()
      ensures cap > 0 ==> bytes != []
    {
      var n := Min(|ctBuf| - ctPos, cap);
      bytes := ctBuf[ctPos..ctPos + n];
      ghost var frames := Frames(codec, plain, chunkIndex);
      assert ctBuf[ctPos..] + frames == bytes + (ctBuf[ctPos + n..] + frames);
      ctPos := ctPos + n;
    }

    /** `poll_read` of the encryptor. */
    method PollRead(cap: nat) returns (r: Poll)
      requires Valid()
      modifies this, ptBuf, inner
      ensures Valid()
      ensures |inner.schedule| <= old(|inner.schedule|)
      ensures r.Pending? ==> |inner.schedule| < old(|inner.schedule|)
      ensures old(inner.Healthy()) ==> inner.Healthy() && !r.Failed?
      ensures !r.Ready? ==> Rest() == old(Rest())
      ensures r.Ready? ==> |r.bytes| <= cap && old(Rest()) == r.bytes + Rest()
      ensures r.Ready? && cap > 0 && r.bytes == [] ==> Rest() == []
    {
      while true
        invariant Valid() && Rest() == old(Rest())
        invariant |inner.schedule| <= old(|inner.schedule|)
        invariant old(inner.Healthy()) ==> inner.Healthy()
        decreases 3 * |inner.Rest()| + 2 * ptLen + (if done then 0 else 1)
      {
        if ctPos < |ctBuf| {
          var bytes := HandOut(cap);
          return Ready(bytes);
        }
        if done {
          return Ready([]);
        }
        if ptLen == codec.chunkSize {
          EncryptCurrentChunk();
        } else {
          r := FillPlaintext();
          if !r.Ready? {
            return;
          }
          if r.bytes == [] {
            if ptLen > 0 {
              EncryptCurrentChunk();
            } else {
              done := true;
            }
          }
        }
      }
    }
  }

  // ---------------------------------------------------------------- decryption

  class FrameDecryptor {
    const inner: Inner
    const codec: Codec
    const frameBuf: array<Byte>
    const plaintextSize: nat
    ghost const plaintext: seq<Byte>
    /** What has been cut off the end of the writer's ciphertext; nothing, for a complete file. */
    ghost const missing: seq<Byte>
    /** The plaintext of the frames that are not decrypted yet. */
    ghost var tail: seq<Byte>
    var chunkIndex: nat
    var skipBytes: nat
    var remaining: nat
    var frameFilled: nat
    var frameTarget: nat
    var outBuf: seq<Byte>
    var outPos: nat
    var done: bool

    /** It counts as ended only when nothing is wanted, nothing is left, or the ciphertext has run out between two frames. */
    ghost predicate Valid()
      reads this, frameBuf, inner.Obj()
    {
      && inner.Valid()
      && inner.Obj() != this && inner.Obj() != frameBuf
      && Buffers()
      && (done ==> remaining == 0 || tail == [] || (frameFilled == 0 && inner.Rest() == []))
    }

    ghost predicate Buffers()
      reads this
    {
      && frameBuf.Length == codec.chunkSize + FRAME_OVERHEAD
      && outPos <= |outBuf| <= codec.chunkSize
      && frameFilled <= frameTarget <= frameBuf.Length
      && (!done ==> frameTarget == FrameTarget(tail))
    }

    /** The object this decryptor was set up for, and how far into it the frames have come. */
    ghost predicate Tracks()
      reads this
    {
      && WellFormed(codec, |plaintext|)
      && plaintextSize == |plaintext|
      && tail == Tail(plaintext, codec.chunkSize, chunkIndex)
    }

    /** Size on disk of the first frame of `t`; 0 when there is no frame. */
    ghost function FrameTarget(t: seq<Byte>): nat {
      if t == [] then 0 else Min(|t|, codec.chunkSize) + FRAME_OVERHEAD
    }

    /** The plaintext still to be delivered, according to the object that was written. */
    ghost function Rest(): seq<Byte>
      requires outPos <= |outBuf|
      reads this
    {
      Owed(outBuf, outPos, tail, skipBytes, remaining)
    }

    /** How many bytes lie ahead, from the next one to be delivered to the end of the object. */
    ghost function Left(): int
      reads this
    {
      |outBuf| - outPos + |tail| - skipBytes
    }

    /** No failure of the inner reader lies ahead. */
    ghost predicate Healthy()
      requires Valid()
      reads this, frameBuf, inner.Obj()
    {
      inner.Healthy()
    }

    /** What the loop of `poll_read` uses up. */
    ghost function Fuel(): nat
      requires Valid()
      reads this, frameBuf, inner.Obj()
    {
      2 * |inner.Rest()| + frameFilled
    }

    /** Ciphertext of the current frame and beyond, wherever it is. */
    ghost function Cipher(): seq<Byte>
      requires Valid()
      reads this, frameBuf, inner.Obj()
    {
      frameBuf[..frameFilled] + inner.Rest()
    }

    /** What has been read of the current frame, and all that follows, is the writer's ciphertext up to a cut. */
    ghost predicate Cut()
      requires Valid() && Tracks()
      reads this, frameBuf, inner.Obj()
    {
      && Opens(codec, plaintext)
      && Cipher() + missing == Frames(codec, tail, chunkIndex)
    }

    /** The same for a complete file. */
    ghost predicate Genuine()
      requires Valid() && Tracks()
      reads this, frameBuf, inner.Obj()
    {
      missing == [] && Cut() && (done ==> Rest() == [])
    }

    /** Either forgery is ruled out, or the ciphertext is known to be the writer's as far as it goes. */
    ghost predicate Trusted()
      requires Valid() && Tracks()
      reads this, frameBuf, inner.Obj()
    {
      Unforgeable(codec, plaintext) || Cut()
    }

    /** `for_range`: the inner reader must be positioned at `ciphertext_offset(chunk_size, offset)`. */
    constructor ForRange(inner: Inner, codec: Codec, plaintextSize: nat, offset: nat, length: nat,
                         ghost plaintext: seq<Byte>, ghost missing: seq<Byte>)
      requires inner.Valid() && WellFormed(codec, |plaintext|) && plaintextSize == |plaintext|
      ensures Valid() && Tracks() && fresh(frameBuf)
      ensures this.inner == inner && this.codec == codec && this.plaintext == plaintext && this.missing == missing
      ensures outBuf == [] && outPos == 0 && Cipher() == inner.Rest() && tail == Tail(plaintext, codec.chunkSize, chunkIndex)
      ensures chunkIndex == offset / codec.chunkSize && skipBytes == offset % codec.chunkSize && remaining == length
      ensures Rest() == Slice(plaintext, offset, length)
      ensures Opens(codec, plaintext) && inner.Rest() + missing == Frames(codec, tail, chunkIndex) ==> Cut()
      ensures Opens(codec, plaintext) && missing == [] && inner.Rest() == Frames(codec, tail, chunkIndex) ==> Genuine()
    {
      this.inner := inner;
      this.codec := codec;
      this.plaintextSize := plaintextSize;
      this.plaintext := plaintext;
      this.missing := missing;
      frameBuf := new Byte[12 + codec.chunkSize + 16];
      chunkIndex := offset / codec.chunkSize;
      skipBytes := offset % codec.chunkSize;
      remaining := length;
      frameFilled, frameTarget, outBuf, outPos := 0, 0, [], 0;
      done := plaintextSize == 0 || length == 0;
      tail := Tail(plaintext, codec.chunkSize, offset / codec.chunkSize);
      new;
      hide *;
      ChunksAreSomething();
      if !done {
        UpdateFrameTarget();
      }
      StartsRight(offset, length);
    }

    lemma ChunksAreSomething()
      ensures WellFormed(codec, |plaintext|) ==> codec.chunkSize > 0
      ensures tail == Tail(plaintext, codec.chunkSize, chunkIndex) && WellFormed(codec, |plaintext|) && plaintextSize == |plaintext| ==> Tracks()
    {
    }

    /** What the constructor sets up is what the range asks for. */
    lemma StartsRight(offset: nat, length: nat)
      requires inner.Valid() && inner.Obj() != this && inner.Obj() != frameBuf && frameBuf.Length == codec.chunkSize + FRAME_OVERHEAD
      requires Tracks() && codec.chunkSize > 0 && chunkIndex == offset / codec.chunkSize && skipBytes == offset % codec.chunkSize
      requires remaining == length && frameFilled == 0 && outBuf == [] && outPos == 0
      requires (done <==> plaintextSize == 0 || length == 0) && (if done then frameTarget == 0 else frameTarget == FrameTarget(tail))
      ensures Valid() && Cipher() == inner.Rest() && Rest() == Slice(plaintext, offset, length)
      ensures Opens(codec, plaintext) && inner.Rest() + missing == Frames(codec, tail, chunkIndex) ==> Cut()
      ensures Opens(codec, plaintext) && missing == [] && inner.Rest() == Frames(codec, tail, chunkIndex) ==> Genuine()
    {
      hide Take, Drop, Slice, Owed, Opens, Frames, Times, Tail;
      EmptyWindow(plaintext, codec.chunkSize, offset / codec.chunkSize, offset, length);
      OwedAtStart(plaintext, codec.chunkSize, offset, length);
      NothingRead(frameBuf[..0], inner.Rest());
    }

    /** `update_frame_target` */
    method UpdateFrameTarget()
      requires Tracks()
      modifies this`frameTarget
      ensures frameTarget == FrameTarget(tail)
    {
      TailLength(plaintext, codec.chunkSize, chunkIndex);
      var bytesBefore := chunkIndex * codec.chunkSize;
      if bytesBefore >= plaintextSize {
        frameTarget := 0;
      } else {
        frameTarget := 12 + Min(plaintextSize - bytesBefore, codec.chunkSize) + 16;
      }
    }

    /** Drops the leading bytes of a range read that starts inside a frame. */
    method SkipLeading()
      requires Buffers()
      modifies this`outPos, this`skipBytes
      ensures Buffers() && Rest() == old(Rest())
      ensures outPos == old(outPos) + Min(old(skipBytes), |outBuf| - old(outPos))
      ensures skipBytes == old(skipBytes) - (outPos - old(outPos))
    {
      var skip := Min(skipBytes, |outBuf| - outPos);
      OwedAfterSkip(outBuf, outPos, tail, skip, skipBytes, remaining);
      outPos := outPos + skip;
      skipBytes := skipBytes - skip;
    }

    /** Copies what is decrypted, still owed and fits. */
    method HandOut(cap: nat) returns (bytes: seq<Byte>)
      requires Buffers() && skipBytes == 0
      modifies this`outPos, this`remaining
      ensures Buffers() && old(Rest()) == bytes + Rest()
      ensures |bytes| == Min(Min(|outBuf| - old(outPos), old(remaining)), cap)
      ensures outPos == old(outPos) + |bytes| && remaining == old(remaining) - |bytes|
    {
      var n := Min(Min(|outBuf| - outPos, remaining), cap);
      bytes := outBuf[outPos..outPos + n];
      OwedAfterHandOut(outBuf, outPos, tail, n, remaining);
      outPos := outPos + n;
      remaining := remaining - n;
    }

    /** The top of the loop: applies the leading skip, then hands out what is decrypted. */
    method Serve(cap: nat) returns (bytes: seq<Byte>)
      requires Buffers()
      modifies this`outPos, this`skipBytes, this`remaining
      ensures Buffers()
      ensures |bytes| <= cap && old(Rest()) == bytes + Rest()
      ensures bytes == [] && cap > 0 ==> outPos == |outBuf| || remaining == 0
      ensures bytes != [] ==> skipBytes == 0
      ensures old(outPos) == |outBuf| ==> bytes == [] && outPos == old(outPos) && skipBytes == old(skipBytes)
      ensures old(skipBytes) < |outBuf| - old(outPos) && old(remaining) > 0 && cap > 0 ==>
                bytes != [] && skipBytes == 0 && outPos == old(outPos) + old(skipBytes) + |bytes|
      ensures remaining == old(remaining) - |bytes|
      ensures skipBytes == Minus(old(skipBytes), |outBuf| - old(outPos))
      ensures outPos == old(outPos) + old(skipBytes) - skipBytes + |bytes|
    {
      bytes := [];
      if outPos < |outBuf| {
        if skipBytes > 0 {
          SkipLeading();
        }
        if outPos < |outBuf| && remaining > 0 {
          bytes := HandOut(cap);
        }
      }
    }

    /** What is wrong with the next frame: it is not all there, or it is and the decoder refuses it. */
    ghost predicate Bad(e: IoError)
      requires Valid() && tail != []
      reads this, frameBuf, inner.Obj()
    {
      if |Cipher()| < FrameTarget(tail) then e == TruncatedFrame && Cipher() != []
      else
        match DecodeFrame(codec, chunkIndex, Cipher()[..FrameTarget(tail)])
        case Ok(_) => false
        case Err(WrongIndex) => e == FrameIndexMismatch
        case Err(NotAuthentic) => e == AuthenticationError
    }

    /** Checks and decrypts the complete frame in the buffer. */
    method DecryptFrame() returns (d: Result<seq<Byte>, FrameError>)
      requires Valid() && Tracks() && !done && frameTarget > 0 && frameFilled == frameTarget
      ensures d == DecodeFrame(codec, chunkIndex, Cipher()[..frameTarget]) && |Cipher()| >= frameTarget && tail != []
      ensures d.Ok? ==> |d.value| <= codec.chunkSize
      ensures d.Ok? && Trusted() ==> d.value == Take(tail, codec.chunkSize)
      ensures Cut() ==> d.Ok? && inner.Rest() + missing == Frames(codec, Drop(tail, codec.chunkSize), chunkIndex + 1)
    {
      hide Take, Drop, Frames, Times, DecodeFrame;
      var frame := frameBuf[..frameFilled];
      d := DecodeFrame(codec, chunkIndex, frame);
      assert Cipher()[..frameFilled] == frame;
      Decoded(frame);
      TailStep(plaintext, codec.chunkSize, chunkIndex);
      if Cut() {
        TakeLength(tail, codec.chunkSize);
        Regroup(frame, inner.Rest(), missing);
        FirstFrame(codec, plaintext, chunkIndex, frame, inner.Rest() + missing);
      }
    }

    lemma Decoded(frame: seq<Byte>)
      requires Tracks() && |frame| == FrameTarget(tail) > 0
      ensures DecodeFrame(codec, chunkIndex, frame).Ok? ==> |DecodeFrame(codec, chunkIndex, frame).value| <= codec.chunkSize
      ensures DecodeFrame(codec, chunkIndex, frame).Ok? && Unforgeable(codec, plaintext) ==>
                DecodeFrame(codec, chunkIndex, frame).value == Take(tail, codec.chunkSize)
    {
    }

    /** Makes a decrypted frame the output buffer and moves on to the next frame. */
    method InstallFrame(plain: seq<Byte>)
      requires Buffers() && Tracks() && !done && |plain| <= codec.chunkSize
      modifies this`outBuf, this`outPos, this`chunkIndex, this`frameFilled, this`frameTarget, this`tail
      ensures Buffers() && Tracks()
      ensures outBuf == plain && outPos == 0 && frameFilled == 0
      ensures chunkIndex == old(chunkIndex) + 1 && tail == Drop(old(tail), codec.chunkSize)
    {
      hide Take, Drop, Tail, WellFormed, Times, Owed;
      TailStep(plaintext, codec.chunkSize, chunkIndex);
      outBuf := plain;
      outPos := 0;
      tail := Drop(tail, codec.chunkSize);
      chunkIndex := chunkIndex + 1;
      frameFilled := 0;
      UpdateFrameTarget();
    }

    /** A complete frame is checked and opened. */
    method OpenFrame() returns (e: Option<IoError>)
      requires Valid() && Tracks() && !done && frameTarget > 0 && frameFilled == frameTarget
      modifies this`outBuf, this`outPos, this`chunkIndex, this`frameFilled, this`frameTarget, this`tail
      ensures Buffers() && Tracks() && inner.Valid()
      ensures e.Some? ==> unchanged(this) && Bad(e.value)
      ensures e.None? ==> Walks(codec, old(|tail|), old(chunkIndex), old(Cipher()), |tail|, chunkIndex, frameBuf[..frameFilled] + inner.Rest())
      ensures e.None? ==> chunkIndex == old(chunkIndex) + 1 && frameFilled == 0 && outPos == 0
      ensures e.None? ==> tail == Drop(old(tail), codec.chunkSize)
      ensures e.None? && old(Trusted()) ==> outBuf == Take(old(tail), codec.chunkSize)
      ensures e.None? && old(Trusted()) && old(outPos == |outBuf|) ==> Rest() == old(Rest())
      ensures old(Cut()) ==> e.None? && Cut()
      ensures old(Genuine()) ==> e.None? && Genuine()
    {
      hide Take, Drop, Owed, Tail, WellFormed, Opens, Unforgeable, Frames, Times, DecodeFrame, Walks, Bad;
      var d := DecryptFrame();
      if d.Err? {
        e := Some(if d.error.WrongIndex? then FrameIndexMismatch else AuthenticationError);
        RefusedIsBad(d.error, e.value);
        return e;
      }
      OwedAfterFrame(outBuf, tail, codec.chunkSize, skipBytes, remaining);
      OneFrame();
      InstallFrame(d.value);
      NothingRead(frameBuf[..0], inner.Rest());
      return None;
    }

    lemma RefusedIsBad(refused: FrameError, e: IoError)
      requires Valid() && tail != [] && !done && frameTarget > 0 && frameFilled == frameTarget
      requires |Cipher()| >= frameTarget && DecodeFrame(codec, chunkIndex, Cipher()[..frameTarget]) == Err(refused)
      requires e == if refused.WrongIndex? then FrameIndexMismatch else AuthenticationError
      ensures Bad(e)
    {
      hide DecodeFrame;
    }

    lemma OneFrame()
      requires Valid() && Tracks() && !done && frameTarget > 0 && frameFilled == frameTarget
      requires DecodeFrame(codec, chunkIndex, Cipher()[..frameTarget]).Ok?
      ensures codec.chunkSize > 0 && Walks(codec, |tail|, chunkIndex, Cipher(), |Drop(tail, codec.chunkSize)|, chunkIndex + 1, inner.Rest())
    {
      hide DecodeFrame;
      assert Cipher()[frameTarget..] == inner.Rest();
      WalksOne(codec, |tail|, chunkIndex, Cipher());
    }

    /** Reads ciphertext into the free part of the frame buffer. */
    method FillFrame() returns (r: Poll)
      requires Valid() && !done && frameFilled < frameTarget
      modifies this`frameFilled, frameBuf, inner.Obj()
      ensures Valid() && Cipher() == old(Cipher())
      ensures inner.Stalls() <= old(inner.Stalls())
      ensures r.Pending? ==> inner.Stalls() < old(inner.Stalls())
      ensures old(inner.Healthy()) ==> inner.Healthy() && !r.Failed?
      ensures !r.Ready? ==> frameFilled == old(frameFilled) && inner.Rest() == old(inner.Rest())
      ensures r.Ready? ==> frameFilled == old(frameFilled) + |r.bytes| && |inner.Rest()| + |r.bytes| == old(|inner.Rest()|)
      ensures r == Ready([]) ==> inner.Rest() == []
    {
      hide Inner.Valid, Inner.Rest, Inner.Healthy, Inner.Stalls, Min;
      ghost var before := frameBuf[..frameFilled];
      r := inner.PollRead(frameTarget - frameFilled);
      if r.Ready? {
        CopyInto(frameBuf, frameFilled, r.bytes);
        frameFilled := frameFilled + |r.bytes|;
        assert before + (r.bytes + inner.Rest()) == frameBuf[..frameFilled] + inner.Rest();
      }
    }

    /** A genuine ciphertext cannot end inside a frame, nor before the last one. */
    lemma GenuineIsComplete()
      requires Valid() && Tracks() && Genuine() && !done && tail != [] && inner.Rest() == []
      ensures frameFilled == frameTarget
    {
      FrameShape(codec, plaintext, chunkIndex);
      TakeLength(tail, codec.chunkSize);
    }

    /** The rest of an iteration: read on, and tell a clean end of input from a torn frame. */
    method Refill() returns (stop: Option<Poll>)
      requires Valid() && Tracks() && !done && frameFilled < frameTarget
      modifies this`frameFilled, this`done, frameBuf, inner.Obj()
      ensures Valid() && Tracks()
      ensures inner.Stalls() <= old(inner.Stalls())
      ensures stop == Some(Pending) ==> inner.Stalls() < old(inner.Stalls())
      ensures old(inner.Healthy()) ==> inner.Healthy()
      ensures old(Cut()) ==> Cut()
      ensures Cipher() == old(Cipher())
      ensures stop == Some(Ready([])) ==> Cipher() == [] && done
      ensures stop == Some(Ready([])) || !done
      ensures old(inner.Healthy()) && stop.Some? && stop.value.Failed? ==> tail != [] && Bad(stop.value.error)
      ensures old(Genuine()) ==> Genuine() && !done && stop != Some(Ready([]))
      ensures old(Genuine()) && old(inner.Healthy()) && stop.Some? ==> stop.value.Pending?
      ensures stop.Some? && stop.value.Ready? ==> stop.value.bytes == []
      ensures stop.None? ==> !done && 2 * |inner.Rest()| + frameFilled < old(2 * |inner.Rest()| + frameFilled)
    {
      hide Take, Drop, Owed, Tail, WellFormed, Opens, Unforgeable, Frames, Times, Min;
      hide Inner.Valid, Inner.Rest, Inner.Healthy, Inner.Stalls;
      ghost var genuine := Genuine();
      var r := FillFrame();
      if !r.Ready? {
        return Some(r);
      }
      if r.bytes != [] {
        return None;
      }
      if genuine {
        GenuineIsComplete();
      }
      if frameFilled == 0 {
        done := true;
        return Some(Ready([]));
      }
      return Some(Failed(TruncatedFrame));
    }

    /** Nothing has been decrypted yet; `start` is the plaintext from the first frame on. */
    ghost predicate Untouched(start: seq<Byte>, skip: nat)
      reads this
    {
      outBuf == [] && outPos == 0 && tail == start && skipBytes == skip
    }

    /** Exactly the first frame of `start` has been decrypted, and `pos` bytes of it are used up. */
    ghost predicate InFirstFrame(start: seq<Byte>, skip: nat, pos: nat)
      reads this
    {
      outBuf == Take(start, codec.chunkSize) && outPos == pos && tail == Drop(start, codec.chunkSize) && skipBytes == skip
    }

    /** Where a poll stops: without bytes at an end, with an error at a bad frame. */
    ghost predicate Stopped(r: Poll, room: bool)
      requires Valid() && Tracks()
      reads this, frameBuf, inner.Obj()
    {
      match r
      case Pending => true
      case Ready(bytes) => bytes == [] ==> remaining == 0 || ((room ==> outPos == |outBuf|) && (tail == [] || (done && Cipher() == [])))
      case Failed(e) => remaining > 0 && (room ==> outPos == |outBuf|) && tail != [] && Bad(e)
    }

    /** On a complete file a poll never fails and stops only at the end of the window, or without room at the last frame. */
    lemma CompleteStops(r: Poll, cap: nat)
      requires Valid() && Tracks() && Genuine() && Stopped(r, cap > 0)
      ensures !r.Failed?
      ensures r == Ready([]) && remaining > 0 ==> tail == []
      ensures r == Ready([]) && cap > 0 ==> Rest() == []
    {
      hide Take, Drop, Tail, WellFormed, Opens, Frames, Times, Owed, Bad;
      ShapeOfTail();
      if r.Failed? {
        CutIsTorn(r.error);
      }
      if remaining == 0 || (outPos == |outBuf| && tail == []) {
        OwedNothing(outBuf, outPos, tail, skipBytes, remaining);
      }
    }

    /** In the writer's ciphertext only the cut can make a frame bad. */
    lemma CutIsTorn(e: IoError)
      requires Valid() && Tracks() && Cut() && tail != [] && Bad(e)
      ensures 0 < |Cipher()| < FrameTarget(tail)
    {
      hide Frames, DecodeFrame, Opens;
      if |Cipher()| >= FrameTarget(tail) {
        WholeFrameOpens(codec, plaintext, chunkIndex, Cipher(), missing);
      }
    }

    lemma ShapeOfTail()
      requires Tracks()
      ensures |Frames(codec, tail, chunkIndex)| >= FrameTarget(tail) && (tail != [] ==> FrameTarget(tail) > 0)
    {
      if tail != [] {
        FrameShape(codec, plaintext, chunkIndex);
        TakeLength(tail, codec.chunkSize);
      }
    }

    /** The lower half of an iteration: open a complete frame, or read on. */
    method NextFrame(ghost room: bool) returns (stop: Option<Poll>)
      requires Valid() && Tracks() && !done && remaining > 0 && frameTarget > 0 && (room ==> outPos == |outBuf|)
      modifies this`outBuf, this`outPos, this`chunkIndex, this`frameFilled, this`frameTarget, this`tail, this`done, frameBuf, inner.Obj()
      ensures Valid() && Tracks()
      ensures inner.Stalls() <= old(inner.Stalls())
      ensures stop == Some(Pending) ==> inner.Stalls() < old(inner.Stalls())
      ensures old(Healthy()) ==> Healthy()
      ensures old(Trusted()) && old(outPos == |outBuf|) ==> Rest() == old(Rest())
      ensures stop.Some? && stop.value.Ready? ==> stop.value.bytes == []
      ensures chunkIndex >= old(chunkIndex)
      ensures old(Cut()) ==> Cut()
      ensures stop.Some? && (old(Healthy()) || !stop.value.Failed?) ==> Stopped(stop.value, room)
      ensures codec.chunkSize > 0 && Walks(codec, old(|tail|), old(chunkIndex), old(Cipher()), |tail|, chunkIndex, Cipher())
      ensures stop == Some(Ready([])) || !done
      ensures old(Genuine()) ==> Genuine() && !done
      // either nothing is opened, or the next frame is
      ensures || (tail == old(tail) && outBuf == old(outBuf) && outPos == old(outPos))
              || (stop.None? && old(tail) != [] && tail == Drop(old(tail), codec.chunkSize) && outPos == 0
                  && (old(Trusted()) ==> outBuf == Take(old(tail), codec.chunkSize)))
      ensures stop.None? ==> !done && Fuel() < old(Fuel())
    {
      hide Take, Drop, Owed, Tail, WellFormed, Opens, Unforgeable, Frames, Times, Min;
      hide Inner.Valid, Inner.Rest, Inner.Healthy, Inner.Stalls, Bad, Walks;
      Bearings();
      WalksNowhere(codec, |tail|, chunkIndex, Cipher());
      if frameFilled == frameTarget {
        var e := OpenFrame();
        return if e.Some? then Some(Failed(e.value)) else None;
      }
      stop := Refill();
    }

    lemma StopsWithBytes(bytes: seq<Byte>, room: bool)
      requires Valid() && Tracks() && bytes != []
      ensures Stopped(Ready(bytes), room)
    {
    }

    lemma StopsAtEnd(room: bool)
      requires Valid() && Tracks() && (done || remaining == 0 || frameTarget == 0)
      requires room ==> outPos == |outBuf| || remaining == 0
      ensures Stopped(Ready([]), room)
    {
    }

    /** One turn of the loop in `poll_read`; `None` means another turn. */
    method Step(cap: nat) returns (stop: Option<Poll>)
      requires Valid() && Tracks()
      modifies this, frameBuf, inner.Obj()
      ensures Valid() && Tracks() && outPos <= |outBuf|
      ensures inner.Stalls() <= old(inner.Stalls())
      ensures stop == Some(Pending) ==> inner.Stalls() < old(inner.Stalls())
      ensures old(Healthy()) ==> Healthy()
      ensures cap > 0 && old(Trusted()) ==>
                if stop.Some? && stop.value.Ready? then old(Rest()) == stop.value.bytes + Rest() else Rest() == old(Rest())
      ensures stop.Some? && stop.value.Ready? ==> |stop.value.bytes| <= cap
      ensures chunkIndex >= old(chunkIndex)
      ensures old(Trusted()) ==> Trusted()
      ensures old(Cut()) ==> Cut()
      ensures stop.Some? && (old(Healthy()) || !stop.value.Failed?) ==> Stopped(stop.value, cap > 0)
      ensures codec.chunkSize > 0 && Walks(codec, old(|tail|), old(chunkIndex), old(Cipher()), |tail|, chunkIndex, Cipher())
      ensures stop == Some(Ready([])) || done == old(done)
      ensures old(done) && old(outPos == |outBuf|) ==> stop == Some(Ready([]))
      ensures old(Genuine()) ==> Genuine() && (done <==> old(done))
      // it serves what there is room for, or stops, or opens the next frame
      ensures old(outPos) <= |old(outBuf)| && skipBytes == Minus(old(skipBytes), |old(outBuf)| - old(outPos))
      ensures || (tail == old(tail) && outBuf == old(outBuf) && outPos == old(outPos) + old(skipBytes) - skipBytes + |Given(stop)|)
              || (stop.None? && old(tail) != [] && tail == Drop(old(tail), codec.chunkSize) && outPos == 0
                  && (old(Trusted()) ==> outBuf == Take(old(tail), codec.chunkSize)))
      ensures cap > 0 && Given(stop) == [] && remaining > 0 ==> old(skipBytes) >= |old(outBuf)| - old(outPos)
      ensures skipBytes <= old(skipBytes) && (Given(stop) != [] ==> skipBytes == 0)
      ensures stop.None? ==> Fuel() < old(Fuel())
      ensures stop.None? ==> !done && !old(done) && remaining > 0
      ensures remaining == old(remaining) - |Given(stop)|
    {
      hide Take, Drop, Owed, Tail, WellFormed, Opens, Unforgeable, Frames, Times, Min;
      hide Inner.Valid, Inner.Rest, Inner.Healthy, Inner.Stalls, Bad, Walks, Stopped;
      Bearings();
      WalksNowhere(codec, |tail|, chunkIndex, Cipher());
      var bytes := Serve(cap);
      if bytes != [] {
        StopsWithBytes(bytes, cap > 0);
        return Some(Ready(bytes));
      }
      if done || remaining == 0 || frameTarget == 0 {
        StopsAtEnd(cap > 0);
        return Some(Ready([]));
      }
      stop := NextFrame(cap > 0);
    }

    /** The same, with what it means for the rest of the loop: `start` and `skip` are those of a poll that has delivered nothing yet. */
    method Turn(cap: nat, ghost start: seq<Byte>, ghost skip: nat) returns (stop: Option<Poll>)
      requires Valid() && Tracks()
      modifies this, frameBuf, inner.Obj()
      ensures Valid() && Tracks() && outPos <= |outBuf|
      ensures inner.Stalls() <= old(inner.Stalls())
      ensures stop == Some(Pending) ==> inner.Stalls() < old(inner.Stalls())
      ensures old(Healthy()) ==> Healthy()
      ensures cap > 0 && old(Trusted()) ==>
                if stop.Some? && stop.value.Ready? then old(Rest()) == stop.value.bytes + Rest() else Rest() == old(Rest())
      ensures stop.Some? && stop.value.Ready? ==> |stop.value.bytes| <= cap
      ensures chunkIndex >= old(chunkIndex)
      ensures old(Trusted()) ==> Trusted()
      ensures old(Cut()) ==> Cut()
      ensures stop.Some? && (old(Healthy()) || !stop.value.Failed?) ==> Stopped(stop.value, cap > 0)
      ensures codec.chunkSize > 0 && Walks(codec, old(|tail|), old(chunkIndex), old(Cipher()), |tail|, chunkIndex, Cipher())
      ensures stop == Some(Ready([])) || done == old(done)
      ensures old(done) && old(outPos == |outBuf|) ==> stop == Some(Ready([]))
      ensures old(Genuine()) ==> Genuine() && (done <==> old(done))
      ensures cap > 0 && old(Trusted()) && skip < |Take(start, codec.chunkSize)|
              && (old(Untouched(start, skip)) || (old(InFirstFrame(start, skip, 0)) && old(remaining) > 0)) ==>
                if stop.None? then InFirstFrame(start, skip, 0) || Untouched(start, skip)
                else if stop.value.Ready? then stop.value.bytes == [] || InFirstFrame(start, 0, skip + |stop.value.bytes|)
                else Untouched(start, skip)
      ensures cap > 0 && old(Trusted()) ==> Left() == old(Left()) - (if stop.Some? && stop.value.Ready? then |stop.value.bytes| else 0)
      ensures skipBytes <= old(skipBytes) && (stop.Some? && stop.value.Ready? && stop.value.bytes != [] ==> skipBytes == 0)
      ensures cap == 0 && old(Trusted()) ==>
                || (tail == old(tail) && Left() == old(Left()))
                || (stop.None? && old(tail) != [] && tail == Drop(old(tail), codec.chunkSize) && Left() == AtMost(old(Left()), |old(tail)|))
      ensures stop.None? ==> Fuel() < old(Fuel())
      ensures stop.None? ==> !done && !old(done) && old(remaining) > 0
      ensures remaining == old(remaining) - (if stop.Some? && stop.value.Ready? then |stop.value.bytes| else 0)
    {
      hide *;
      ghost var was, at, ahead, skipWas, left, room := outBuf, outPos, tail, skipBytes, Left(), cap > 0;
      ghost var trusted := Trusted();
      Here(start, skip);
      stop := Step(cap);
      Here(start, skip);
      GivenIs(stop);
      if trusted {
        Passed(was, at, ahead, skipWas, left, outBuf, outPos, tail, skipBytes, Left(), Given(stop), room, remaining, codec.chunkSize);
        if room && skip < |Take(start, codec.chunkSize)| {
          OpeningTurn(start, skip, codec.chunkSize, was, at, ahead, skipWas, remaining + |Given(stop)|,
                      outBuf, outPos, tail, skipBytes, remaining, stop);
        }
      }
    }

    /**
     `poll_read`. With a non-empty buffer every delivered byte is the next byte owed, even on altered
     ciphertext; on genuine ciphertext the end of the stream is the end of the range.
     With an empty buffer the loop runs on to the last frame and drops what it had decrypted: bytes are
     lost iff there were undelivered ones before the last frame.
     */
    method PollRead(cap: nat) returns (r: Poll)
      requires Valid() && Tracks()
      modifies this, frameBuf, inner.Obj()
      ensures Valid() && Tracks() && outPos <= |outBuf|
      ensures old(Trusted()) ==> Trusted()
      ensures inner.Stalls() <= old(inner.Stalls())
      ensures r.Pending? ==> inner.Stalls() < old(inner.Stalls())
      ensures old(Healthy()) ==> Healthy()
      ensures cap > 0 && old(Trusted()) ==>
                if r.Ready? then |r.bytes| <= cap && old(Rest()) == r.bytes + Rest() else Rest() == old(Rest())
      ensures chunkIndex >= old(chunkIndex)
      ensures old(Cut()) ==> Cut()
      // without bytes it stops at an end only, and on a sound device it fails at a bad frame only
      ensures old(Healthy()) || !r.Failed? ==> Stopped(r, cap > 0)
      ensures codec.chunkSize > 0 && Walks(codec, old(|tail|), old(chunkIndex), old(Cipher()), |tail|, chunkIndex, Cipher())
      ensures r == Ready([]) || done == old(done)
      ensures old(done) && old(outPos == |outBuf|) ==> r == Ready([])
      ensures cap > 0 && old(Trusted()) ==> Left() == old(Left()) - if r.Ready? then |r.bytes| else 0
      ensures skipBytes <= old(skipBytes) && (r.Ready? && r.bytes != [] ==> skipBytes == 0)
      ensures old(Genuine()) ==> Genuine() && (done <==> old(done))
      ensures old(Genuine()) && old(Healthy()) ==> !r.Failed?
      ensures old(Genuine()) && cap > 0 && r == Ready([]) ==> Rest() == []
      ensures old(Genuine()) && cap == 0 && r.Ready? && old(!done && remaining > 0) ==>
                && tail == []
                && Left() == if old(tail) == [] then old(Left()) else AtMost(old(Left()), LastFrame(|old(tail)|, codec.chunkSize))
      ensures cap == 0 && old(Trusted()) && old(done || remaining == 0) ==> Left() == old(Left())
      ensures cap > 0 && old(Trusted()) && old(outBuf == [] && outPos == 0)
              && old(skipBytes) < |Take(old(tail), codec.chunkSize)| ==>
                if r.Ready? then r.bytes == [] || InFirstFrame(old(tail), 0, old(skipBytes) + |r.bytes|)
                else Untouched(old(tail), old(skipBytes))
      ensures remaining == old(remaining) - (if r.Ready? then |r.bytes| else 0)
    {
      hide *;
      Bearings();
      ghost var trusted, genuine, cut := Trusted(), Genuine(), Cut();
      ghost var isFresh := outBuf == [] && outPos == 0;
      ghost var start, skip := tail, skipBytes;
      NotSlipped(Left(), |tail|, codec.chunkSize);
      WalksNowhere(codec, |tail|, chunkIndex, Cipher());
      var stop := None;
      while stop.None?
        invariant Valid() && Tracks() && outPos <= |outBuf|
        invariant inner.Stalls() <= old(inner.Stalls())
        invariant stop == Some(Pending) ==> inner.Stalls() < old(inner.Stalls())
        invariant old(Healthy()) ==> Healthy()
        invariant chunkIndex >= old(chunkIndex)
        invariant cut ==> Cut()
        invariant stop.Some? && (old(Healthy()) || !stop.value.Failed?) ==> Stopped(stop.value, cap > 0)
        invariant codec.chunkSize > 0 && Walks(codec, old(|tail|), old(chunkIndex), old(Cipher()), |tail|, chunkIndex, Cipher())
        invariant stop == Some(Ready([])) || done == old(done)
        invariant old(done) && old(outPos == |outBuf|) ==> stop == Some(Ready([])) || (stop.None? && done && outPos == |outBuf|)
        invariant stop.Some? && stop.value.Ready? ==> |stop.value.bytes| <= cap
        invariant cap > 0 && trusted ==> Left() == old(Left()) - (if stop.Some? && stop.value.Ready? then |stop.value.bytes| else 0)
        invariant skipBytes <= old(skipBytes) && (stop.Some? && stop.value.Ready? && stop.value.bytes != [] ==> skipBytes == 0)
        invariant trusted ==> Trusted()
        invariant genuine ==> Genuine() && (done <==> old(done))
        invariant cap > 0 && trusted ==>
                    if stop.Some? && stop.value.Ready? then old(Rest()) == stop.value.bytes + Rest()
                    else Rest() == old(Rest())
        invariant cap > 0 && trusted && isFresh && skip < |Take(start, codec.chunkSize)| ==>
                    if stop.None? then Untouched(start, skip) || (InFirstFrame(start, skip, 0) && remaining > 0)
                    else if stop.value.Ready? then stop.value.bytes == [] || InFirstFrame(start, 0, skip + |stop.value.bytes|)
                    else Untouched(start, skip)
        invariant remaining == old(remaining) - (if stop.Some? && stop.value.Ready? then |stop.value.bytes| else 0)
        invariant cap == 0 && trusted && old(done || remaining == 0) ==>
                    Left() == old(Left()) && (stop.None? ==> done || remaining == 0)
        invariant cap == 0 && trusted ==> Slipped(old(Left()), |start|, Left(), |tail|, codec.chunkSize)
        decreases stop.None?, Fuel()
      {
        ghost var left, ahead, index, x := Left(), tail, chunkIndex, Cipher();
        stop := Turn(cap, start, skip);
        WalksFurther(codec, |start|, old(chunkIndex), old(Cipher()), |ahead|, index, x, |tail|, chunkIndex, Cipher());
        if cap == 0 && trusted {
          EmptyTurn(old(Left()), |start|, left, ahead, Left(), tail, codec.chunkSize);
        }
      }
      if genuine && (old(Healthy()) || !stop.value.Failed?) {
        CompleteStops(stop.value, cap);
      }
      if cap == 0 && trusted && tail == [] {
        SlippedToEnd(old(Left()), |start|, Left(), codec.chunkSize);
      }
      return stop.value;
    }

    /** Where the output stands. */
    lemma Here(start: seq<Byte>, skip: nat)
      ensures Left() == |outBuf| - outPos + |tail| - skipBytes
      ensures Untouched(start, skip) <==> outBuf == [] && outPos == 0 && tail == start && skipBytes == skip
      ensures forall s: nat, pos: nat :: InFirstFrame(start, s, pos) <==>
                outBuf == Take(start, codec.chunkSize) && outPos == pos && tail == Drop(start, codec.chunkSize) && skipBytes == s
    {
    }

    lemma Bearings()
      requires Valid() && Tracks()
      ensures codec.chunkSize > 0 && outPos <= |outBuf| && (Genuine() ==> Cut()) && (Cut() ==> Trusted())
      ensures outBuf == [] && outPos == 0 ==> Untouched(tail, skipBytes)
    {
    }

    /**
     `preflight`, called on a decryptor that has delivered nothing: reads one byte and then restores
     `out_pos` and `remaining`, but not the leading skip. What it leaves owed therefore starts at the
     beginning of the first frame.
     */
    method Preflight() returns (e: Option<IoError>)
      requires Valid() && Tracks() && outBuf == [] && outPos == 0 && skipBytes < codec.chunkSize
      requires Trusted()
      modifies this, frameBuf, inner.Obj()
      ensures Valid() && Tracks()
      ensures inner.Stalls() <= old(inner.Stalls())
      ensures old(Healthy()) ==> Healthy()
      ensures old(Genuine()) ==> Genuine() && Trusted()
      ensures old(Genuine()) && old(Healthy()) && old(Rest()) != [] ==> e.None?
      ensures plaintextSize == 0 || old(remaining) == 0 ==> e.None?
      ensures e.None? ==> Rest() == if plaintextSize == 0 || old(remaining) == 0 then old(Rest())
                                    else Take(old(tail), old(remaining))
    {
      hide Tail, WellFormed, Opens, Unforgeable, Frames, Times, Take, Drop, Owed;
      hide Inner.Valid, Inner.Rest, Inner.Healthy, Inner.Stalls;
      if plaintextSize == 0 || remaining == 0 {
        return None;
      }
      var remainingBefore, outPosBefore := remaining, outPos;
      ghost var start, skip, genuine := tail, skipBytes, Genuine();
      OwedBeyondFrame(start, codec.chunkSize, skip, remaining);
      var r := Pending;
      while r.Pending?
        invariant Valid() && Tracks() && Trusted()
        invariant genuine ==> Genuine() && (done <==> old(done))
        invariant inner.Stalls() <= old(inner.Stalls())
        invariant old(Healthy()) ==> Healthy()
        invariant genuine && old(Healthy()) ==> !r.Failed?
        invariant !r.Ready? ==> Rest() == old(Rest())
        invariant r.Ready? ==> old(Rest()) == r.bytes + Rest()
        invariant genuine && r == Ready([]) ==> Rest() == []
        invariant r == Ready([]) || done == old(done)
        invariant old(done) ==> r == Ready([]) || (r.Pending? && outPos == |outBuf|)
        invariant skip < |Take(start, codec.chunkSize)| && !r.Ready? ==> Untouched(start, skip)
        invariant skip < |Take(start, codec.chunkSize)| && r.Ready? && r.bytes != [] ==>
                    InFirstFrame(start, 0, skip + |r.bytes|)
        decreases r.Pending?, inner.Stalls()
      {
        r := PollRead(1);
      }
      if r.Failed? {
        return Some(r.error);
      }
      if r.bytes == [] {
        return Some(TruncatedObject);
      }
      OwedFromFrameStart(start, codec.chunkSize, remainingBefore);
      outPos := outPosBefore;
      remaining := remainingBefore;
      return None;
    }
  }

  lemma WholeFrameOpens(c: Codec, p: seq<Byte>, index: nat, x: seq<Byte>, missing: seq<Byte>)
    requires WellFormed(c, |p|) && Opens(c, p) && Tail(p, c.chunkSize, index) != []
    requires x + missing == Frames(c, Tail(p, c.chunkSize, index), index)
    requires |x| >= Min(|Tail(p, c.chunkSize, index)|, c.chunkSize) + FRAME_OVERHEAD
    ensures DecodeFrame(c, index, x[..Min(|Tail(p, c.chunkSize, index)|, c.chunkSize) + FRAME_OVERHEAD]).Ok?
  {
    hide Frames, DecodeFrame, Opens, WellFormed, Tail, Take, Drop;
    var size := Min(|Tail(p, c.chunkSize, index)|, c.chunkSize) + FRAME_OVERHEAD;
    var frame, rest := x[..size], x[size..];
    TakeLength(Tail(p, c.chunkSize, index), c.chunkSize);
    assert x == frame + rest;
    Regroup(frame, rest, missing);
    FirstFrame(c, p, index, frame, rest + missing);
  }

  lemma EmptyWindow(p: seq<Byte>, chunkSize: nat, first: nat, offset: nat, length: nat)
    ensures p == [] || length == 0 ==> Slice(p, offset, length) == []
    ensures p == [] ==> Tail(p, chunkSize, first) == []
  {
  }

  lemma NothingRead(none: seq<Byte>, rest: seq<Byte>)
    requires none == []
    ensures none + rest == rest == rest + []
  {
  }

  function AtMost(a: int, b: int): int {
    if a <= b then a else b
  }

  /** The bytes that a turn has put into the caller's buffer. */
  function Given(stop: Option<Poll>): seq<Byte> {
    if stop.Some? && stop.value.Ready? then stop.value.bytes else []
  }

  lemma GivenIs(stop: Option<Poll>)
    ensures Given(stop) == if stop.Some? && stop.value.Ready? then stop.value.bytes else []
  {
  }

  /** A turn leaves behind what it gives; a frame that is opened over an unfinished one also what was left of that. */
  lemma Passed(was: seq<Byte>, at: nat, tail: seq<Byte>, skip: nat, left: int, buf: seq<Byte>, pos: nat, tail': seq<Byte>, skip': nat, left': int,
               given: seq<Byte>, room: bool, remaining: nat, chunkSize: nat)
    requires at <= |was| && skip' == Minus(skip, |was| - at)
    requires left == |was| - at + |tail| - skip && left' == |buf| - pos + |tail'| - skip'
    requires || (tail' == tail && buf == was && pos == at + skip - skip' + |given|)
             || (given == [] && remaining > 0 && tail != [] && tail' == Drop(tail, chunkSize) && pos == 0 && buf == Take(tail, chunkSize))
    requires room && given == [] && remaining > 0 ==> skip >= |was| - at
    ensures room ==> left' == left - |given|
    ensures !room && given == [] ==> (tail' == tail && left' == left) || (tail != [] && tail' == Drop(tail, chunkSize) && left' == AtMost(left, |tail|))
  {
    TakeDropSplit(tail, chunkSize);
  }

  /** A turn that starts before or at the beginning of the first frame of `start`, with `skip` bytes to leave out. */
  lemma OpeningTurn(start: seq<Byte>, skip: nat, chunkSize: nat, was: seq<Byte>, at: nat, ahead: seq<Byte>, skipWas: nat, before: nat,
                    buf: seq<Byte>, pos: nat, tail: seq<Byte>, skipNow: nat, remaining: nat, stop: Option<Poll>)
    requires skip < |Take(start, chunkSize)|
    requires at <= |was| && pos <= |buf| && skipNow == Minus(skipWas, |was| - at)
    requires || (ahead == tail && buf == was && pos == at + skipWas - skipNow + |Given(stop)|)
             || (stop.None? && ahead != [] && tail == Drop(ahead, chunkSize) && pos == 0 && buf == Take(ahead, chunkSize) && remaining > 0)
    requires Given(stop) == [] && remaining > 0 ==> skipWas >= |was| - at
    requires Given(stop) != [] ==> skipNow == 0
    requires before == remaining + |Given(stop)|
    ensures var untouched := buf == [] && pos == 0 && tail == start && skipNow == skip;
            var inFirst := buf == Take(start, chunkSize) && tail == Drop(start, chunkSize);
            (was == [] && at == 0 && ahead == start && skipWas == skip)
            || (was == Take(start, chunkSize) && at == 0 && ahead == Drop(start, chunkSize) && skipWas == skip && before > 0) ==>
              if stop.None? then untouched || (inFirst && pos == 0 && skipNow == skip)
              else if stop.value.Ready? then stop.value.bytes == [] || (inFirst && pos == skip + |stop.value.bytes| && skipNow == 0)
              else untouched
  {
    hide Take, Drop;
  }

  /** Size of the last frame of so much plaintext. */
  function LastFrame(n: nat, chunkSize: nat): nat
    requires chunkSize > 0
  {
    if n <= chunkSize then n else LastFrame(n - chunkSize, chunkSize)
  }

  /** From `left` bytes ahead, `n` of them not decrypted, an empty read may have slipped to `left'` with `n'` not decrypted. */
  predicate Slipped(left: int, n: nat, left': int, n': nat, chunkSize: nat)
    requires chunkSize > 0
  {
    if n == 0 then left' == left && n' == 0 else
    && AtMost(left', LastFrame(n, chunkSize)) == AtMost(left, LastFrame(n, chunkSize))
    && (n' > 0 ==> LastFrame(n', chunkSize) == LastFrame(n, chunkSize))
    && (n' == 0 ==> left' <= LastFrame(n, chunkSize))
  }

  lemma {:induction false} LastFrameBounds(n: nat, chunkSize: nat)
    requires chunkSize > 0
    ensures LastFrame(n, chunkSize) <= n
  {
    if n > chunkSize {
      LastFrameBounds(n - chunkSize, chunkSize);
    }
  }

  lemma NotSlipped(left: int, n: nat, chunkSize: nat)
    requires chunkSize > 0
    ensures Slipped(left, n, left, n, chunkSize)
  {
  }

  lemma SlippedToEnd(left: int, n: nat, left': int, chunkSize: nat)
    requires chunkSize > 0 && Slipped(left, n, left', 0, chunkSize)
    ensures left' == if n == 0 then left else AtMost(left, LastFrame(n, chunkSize))
  {
  }

  /** One turn of an empty read either leaves the position alone or opens the next frame over what was left of the last. */
  lemma EmptyTurn(left0: int, n0: nat, left: int, tail: seq<Byte>, left': int, tail': seq<Byte>, chunkSize: nat)
    requires chunkSize > 0 && Slipped(left0, n0, left, |tail|, chunkSize)
    requires || (tail' == tail && left' == left)
             || (tail != [] && tail' == Drop(tail, chunkSize) && left' == AtMost(left, |tail|))
    ensures Slipped(left0, n0, left', |tail'|, chunkSize)
  {
    LastFrameBounds(|tail|, chunkSize);
  }

  /** What a decryptor owes: its undelivered buffer, then the frames to come, cut to the window. */
  ghost function Owed(outBuf: seq<Byte>, outPos: nat, tail: seq<Byte>, skip: nat, remaining: nat): seq<Byte>
    requires outPos <= |outBuf|
  {
    Take(Drop(outBuf[outPos..] + tail, skip), remaining)
  }

  lemma OwedAfterSkip(outBuf: seq<Byte>, outPos: nat, tail: seq<Byte>, skip: nat, skipBytes: nat, remaining: nat)
    requires outPos + skip <= |outBuf| && skip <= skipBytes
    ensures Owed(outBuf, outPos, tail, skipBytes, remaining) == Owed(outBuf, outPos + skip, tail, skipBytes - skip, remaining)
  {
    assert (outBuf[outPos..] + tail)[skip..] == outBuf[outPos + skip..] + tail;
    DropDrop(outBuf[outPos..] + tail, skip, skipBytes - skip);
  }

  lemma OwedAfterHandOut(outBuf: seq<Byte>, outPos: nat, tail: seq<Byte>, n: nat, remaining: nat)
    requires outPos + n <= |outBuf| && n <= remaining
    ensures Owed(outBuf, outPos, tail, 0, remaining)
            == outBuf[outPos..outPos + n] + Owed(outBuf, outPos + n, tail, 0, remaining - n)
  {
    var bytes := outBuf[outPos..outPos + n];
    assert outBuf[outPos..] + tail == bytes + (outBuf[outPos + n..] + tail);
    TakeAppend(bytes, outBuf[outPos + n..] + tail, remaining);
  }

  lemma OwedAfterFrame(drained: seq<Byte>, tail: seq<Byte>, chunkSize: nat, skip: nat, remaining: nat)
    ensures Owed(drained, |drained|, tail, skip, remaining)
            == Owed(Take(tail, chunkSize), 0, Drop(tail, chunkSize), skip, remaining)
  {
    TakeDropSplit(tail, chunkSize);
    assert drained[|drained|..] + tail == Take(tail, chunkSize)[0..] + Drop(tail, chunkSize);
  }

  lemma OwedNothing(outBuf: seq<Byte>, outPos: nat, tail: seq<Byte>, skip: nat, remaining: nat)
    requires outPos <= |outBuf|
    ensures remaining == 0 || (outPos == |outBuf| && tail == []) ==> Owed(outBuf, outPos, tail, skip, remaining) == []
  {
  }

  /** A skip that covers the first frame covers the whole tail, so nothing is owed. */
  lemma OwedBeyondFrame(tail: seq<Byte>, chunkSize: nat, skip: nat, remaining: nat)
    requires skip < chunkSize
    ensures skip >= |Take(tail, chunkSize)| ==> Owed([], 0, tail, skip, remaining) == []
  {
  }

  lemma OwedFromFrameStart(tail: seq<Byte>, chunkSize: nat, remaining: nat)
    ensures Owed(Take(tail, chunkSize), 0, Drop(tail, chunkSize), 0, remaining) == Take(tail, remaining)
  {
    TakeDropSplit(tail, chunkSize);
    assert Take(tail, chunkSize)[0..] + Drop(tail, chunkSize) == tail;
    DropNone(tail);
  }

  /**
   `preflight` forgets the leading skip. For a range that starts inside a frame and is not empty, it
   leaves the delivered bytes right for every plaintext of that length if and only if there was no skip.
   */
  lemma PreflightIsTransparentIff(n: nat, skip: nat, length: nat)
    requires skip < n && length > 0
    ensures (forall t: seq<Byte> :: |t| == n ==> Take(t, length) == Owed([], 0, t, skip, length)) <==> skip == 0
  {
    var none: seq<Byte> := [];
    if skip == 0 {
      forall t: seq<Byte> | |t| == n
        ensures Take(t, length) == Owed([], 0, t, skip, length)
      {
        assert none[0..] + t == t;
        DropNone(t);
      }
    } else {
      var t: seq<Byte> := [1] + Zeros(n - 1);
      assert none[0..] + t == t;
      assert Take(t, length)[0] == 1 && Owed([], 0, t, skip, length)[0] == 0;
    }
  }

  /** The first frame of a range together with the in-frame skip is where the range starts. */
  lemma OwedAtStart(p: seq<Byte>, chunkSize: nat, offset: nat, length: nat)
    requires chunkSize > 0
    ensures Owed([], 0, Tail(p, chunkSize, offset / chunkSize), offset % chunkSize, length) == Slice(p, offset, length)
  {
    DivMod(offset, chunkSize);
    StartInBlock(p, chunkSize, offset / chunkSize, offset % chunkSize, length);
  }

  lemma StartInBlock(p: seq<Byte>, chunkSize: nat, first: nat, skip: nat, length: nat)
    ensures Owed([], 0, Tail(p, chunkSize, first), skip, length) == Slice(p, Times(first, chunkSize) + skip, length)
  {
    hide Take;
    hide Drop;
    hide Slice;
    var none: seq<Byte> := [];
    var t := Tail(p, chunkSize, first);
    assert none[0..] + t == t;
    SliceIsTakeOfDrop(t, skip, length);
    SliceOfDrop(p, Times(first, chunkSize), skip, length);
  }
}
