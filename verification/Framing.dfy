/**
 The on-disk frame format of encrypted objects: every frame is
 nonce (12 bytes) || ciphertext || tag (16 bytes) and carries one chunk of the plaintext.
 This module is the value-level specification that the two stream adapters are proved against.
 */
module Framing {
  import opened Base
  import opened Arithmetic

  const NONCE_LEN: nat := 12
  const TAG_LEN: nat := 16
  const FRAME_OVERHEAD: nat := 28
  const U32_LIMIT: nat := 0x1_0000_0000
  const U64_LIMIT: nat := 0x1_0000_0000_0000_0000

  /**
   Everything that is fixed for one encrypted object: the frame size, the per-object nonce prefix,
   the additional data bound to each frame, and the AES-GCM primitive under the object's key
   (arguments: nonce, additional data, message).
   */
  datatype Codec = Codec(
    chunkSize: nat,
    prefix: seq<Byte>,
    aad: nat -> seq<Byte>,
    seal: (seq<Byte>, seq<Byte>, seq<Byte>) -> seq<Byte>,
    open: (seq<Byte>, seq<Byte>, seq<Byte>) -> Option<seq<Byte>>)

  // ---------------------------------------------------------------- nonces

  function LittleEndian(n: nat, width: nat): (b: seq<Byte>)
    ensures |b| == width
  {
    if width == 0 then [] else [n % 256] + LittleEndian(n / 256, width - 1)
  }

  function FromLittleEndian(b: seq<Byte>): nat {
    if b == [] then 0 else b[0] + 256 * FromLittleEndian(b[1..])
  }

  function Pow256(width: nat): (p: nat)
    ensures p >= 1
  {
    if width == 0 then 1 else 256 * Pow256(width - 1)
  }

  lemma {:induction false} LittleEndianRoundTrip(n: nat, width: nat)
    requires n < Pow256(width)
    ensures FromLittleEndian(LittleEndian(n, width)) == n
  {
    if width > 0 {
      LittleEndianRoundTrip(n / 256, width - 1);
      assert LittleEndian(n, width)[1..] == LittleEndian(n / 256, width - 1);
    }
  }

  /** `n >> (8 * k)` */
  function Shifted(n: nat, k: nat): nat {
    if k == 0 then n else Shifted(n / 256, k - 1)
  }

  /** The lowest byte comes first. */
  lemma {:induction false} LittleEndianAt(n: nat, width: nat, k: nat)
    requires k < width
    ensures LittleEndian(n, width)[k] == Shifted(n, k) % 256
  {
    if k > 0 {
      LittleEndianAt(n / 256, width - 1, k - 1);
    }
  }

  lemma {:induction false} FromLittleEndianBound(b: seq<Byte>)
    ensures FromLittleEndian(b) < Pow256(|b|)
  {
    if b != [] {
      FromLittleEndianBound(b[1..]);
    }
  }

  lemma {:induction false} LittleEndianOf(b: seq<Byte>)
    ensures LittleEndian(FromLittleEndian(b), |b|) == b
  {
    if b != [] {
      LittleEndianOf(b[1..]);
      assert b == [b[0]] + b[1..];
    }
  }

  datatype NonceError = TooManyFrames | BadPrefixLength

  /** `make_frame_nonce`: the 4-byte layout has a 64-bit index, the 8-byte layout a 32-bit one. */
  function MakeFrameNonce(prefix: seq<Byte>, index: nat): (r: Result<seq<Byte>, NonceError>)
    ensures r.Ok? ==> |r.value| == NONCE_LEN && prefix <= r.value
    ensures r.Ok? <==> |prefix| == 4 || (|prefix| == 8 && index < U32_LIMIT)
  {
    if |prefix| == 4 then Ok(prefix + LittleEndian(index, 8))
    else if |prefix| == 8 then
      if index >= U32_LIMIT then Err(TooManyFrames) else Ok(prefix + LittleEndian(index, 4))
    else Err(BadPrefixLength)
  }

  /** The index test of the decryptor: either layout may carry the expected index. */
  predicate IndexAccepted(nonce: seq<Byte>, index: nat)
    requires |nonce| == NONCE_LEN
  {
    FromLittleEndian(nonce[4..12]) == index || FromLittleEndian(nonce[8..12]) == index
  }

  lemma Pow256Values()
    ensures Pow256(4) == U32_LIMIT && Pow256(8) == U64_LIMIT
  {
    assert Pow256(2) == 65536;
    assert Pow256(4) == 256 * (256 * Pow256(2));
    assert Pow256(6) == 256 * (256 * Pow256(4));
    assert Pow256(8) == 256 * (256 * Pow256(6));
  }

  /** The test looks for the index in either layout: in the last eight bytes, or in the last four. */
  lemma IndexAcceptedIff(nonce: seq<Byte>, index: nat)
    requires |nonce| == 12
    ensures IndexAccepted(nonce, index) <==>
              || (index < 0x1_0000_0000_0000_0000 && nonce[4..] == LittleEndian(index, 8))
              || (index < 0x1_0000_0000 && nonce[8..] == LittleEndian(index, 4))
  {
    Pow256Values();
    assert nonce[4..12] == nonce[4..] && nonce[8..12] == nonce[8..];
    FromLittleEndianBound(nonce[4..]);
    FromLittleEndianBound(nonce[8..]);
    LittleEndianOf(nonce[4..]);
    LittleEndianOf(nonce[8..]);
    if index < U64_LIMIT {
      LittleEndianRoundTrip(index, 8);
    }
    if index < U32_LIMIT {
      LittleEndianRoundTrip(index, 4);
    }
  }

  lemma NonceCarriesIndex(prefix: seq<Byte>, index: nat)
    requires MakeFrameNonce(prefix, index).Ok? && index < U64_LIMIT
    ensures var nonce := MakeFrameNonce(prefix, index).value;
            && IndexAccepted(nonce, index)
            && FromLittleEndian(nonce[|prefix|..]) == index
  {
    Pow256Values();
    var nonce := MakeFrameNonce(prefix, index).value;
    if |prefix| == 4 {
      assert nonce[4..12] == LittleEndian(index, 8) == nonce[|prefix|..];
      LittleEndianRoundTrip(index, 8);
    } else {
      assert nonce[8..12] == LittleEndian(index, 4) == nonce[|prefix|..];
      LittleEndianRoundTrip(index, 4);
    }
  }

  /** GCM's safety condition: two frames of one object never share a nonce. */
  lemma NoncesNeverRepeat(prefix: seq<Byte>, i: nat, j: nat)
    requires i != j && i < U64_LIMIT && j < U64_LIMIT
    requires MakeFrameNonce(prefix, i).Ok? && MakeFrameNonce(prefix, j).Ok?
    ensures MakeFrameNonce(prefix, i).value != MakeFrameNonce(prefix, j).value
  {
    NonceCarriesIndex(prefix, i);
    NonceCarriesIndex(prefix, j);
  }

  // ---------------------------------------------------------------- frames

  /** The plaintext from frame `index` on. */
  function Tail(p: seq<Byte>, chunkSize: nat, index: nat): seq<Byte> {
    Drop(p, Times(index, chunkSize))
  }

  /** The plaintext that frame `index` carries. */
  function Chunk(p: seq<Byte>, chunkSize: nat, index: nat): seq<Byte> {
    Take(Tail(p, chunkSize, index), chunkSize)
  }

  lemma TailStep(p: seq<Byte>, chunkSize: nat, index: nat)
    ensures Tail(p, chunkSize, index + 1) == Drop(Tail(p, chunkSize, index), chunkSize)
    ensures Tail(p, chunkSize, index) == Chunk(p, chunkSize, index) + Tail(p, chunkSize, index + 1)
  {
    DropDrop(p, Times(index, chunkSize), chunkSize);
    TakeDropSplit(Tail(p, chunkSize, index), chunkSize);
  }

  /** How `update_frame_target` measures the tail: by comparing `index * chunk_size` with the size. */
  lemma TailLength(p: seq<Byte>, chunkSize: nat, index: nat)
    ensures index * chunkSize >= |p| <==> Tail(p, chunkSize, index) == []
    ensures index * chunkSize < |p| ==> |Tail(p, chunkSize, index)| == |p| - index * chunkSize
  {
    TimesIsProduct(index, chunkSize);
  }

  /** The object's frame count must fit the index field of its nonce layout. */
  ghost predicate WellFormed(c: Codec, size: nat) {
    && c.chunkSize > 0
    && (|c.prefix| == 4 || |c.prefix| == 8)
    && size < U64_LIMIT
    && (|c.prefix| == 8 ==> size <= U32_LIMIT * c.chunkSize)
    && (forall n, a, m :: |c.seal(n, a, m)| == |m| + TAG_LEN)
    && (forall n, a, ct :: c.open(n, a, ct).Some? ==> |ct| == |c.open(n, a, ct).value| + TAG_LEN)
  }

  lemma IndexInRange(c: Codec, p: seq<Byte>, index: nat)
    requires WellFormed(c, |p|) && Tail(p, c.chunkSize, index) != []
    ensures index < U64_LIMIT && MakeFrameNonce(c.prefix, index).Ok?
  {
    if index >= U64_LIMIT {
      TimesAtLeast(index, c.chunkSize);
    }
    if |c.prefix| == 8 && index >= U32_LIMIT {
      TimesMono(U32_LIMIT, index, c.chunkSize);
      TimesIsProduct(U32_LIMIT, c.chunkSize);
    }
  }

  /** `encrypt_frame_to_vec` for one frame; fails exactly when the nonce cannot be built. */
  function EncryptFrame(c: Codec, index: nat, msg: seq<Byte>): Result<seq<Byte>, NonceError> {
    match MakeFrameNonce(c.prefix, index)
    case Err(e) => Err(e)
    case Ok(nonce) => Ok(nonce + c.seal(nonce, c.aad(index), msg))
  }

  function FrameBytes(c: Codec, index: nat, msg: seq<Byte>): seq<Byte> {
    match EncryptFrame(c, index, msg)
    case Ok(f) => f
    case Err(_) => []
  }

  /** The ciphertext of `p`, whose first byte belongs to frame `index`. */
  ghost function Frames(c: Codec, p: seq<Byte>, index: nat): seq<Byte>
    requires c.chunkSize > 0
    decreases |p|
  {
    if p == [] then []
    else FrameBytes(c, index, Take(p, c.chunkSize)) + Frames(c, Drop(p, c.chunkSize), index + 1)
  }

  function CiphertextOffset(chunkSize: nat, offset: nat): nat
    requires chunkSize > 0
  {
    (offset / chunkSize) * (chunkSize + FRAME_OVERHEAD)
  }

  datatype FrameError = WrongIndex | NotAuthentic

  /** What the decryptor does with one complete frame. */
  function DecodeFrame(c: Codec, index: nat, frame: seq<Byte>): Result<seq<Byte>, FrameError>
    requires |frame| >= NONCE_LEN
  {
    if !IndexAccepted(frame[..12], index) then Err(WrongIndex)
    else
      match c.open(frame[..12], c.aad(index), frame[12..])
      case None => Err(NotAuthentic)
      case Some(m) => Ok(m)
  }

  /** A frame is refused for its place iff neither layout of its nonce carries the index, and else iff it does not open. */
  lemma DecodeFrameIs(c: Codec, index: nat, frame: seq<Byte>)
    requires |frame| >= 12
    ensures var r := DecodeFrame(c, index, frame);
            var here := (index < 0x1_0000_0000_0000_0000 && frame[4..12] == LittleEndian(index, 8))
                        || (index < 0x1_0000_0000 && frame[8..12] == LittleEndian(index, 4));
            && (r == Err(WrongIndex) <==> !here)
            && (r == Err(NotAuthentic) <==> here && c.open(frame[..12], c.aad(index), frame[12..]).None?)
            && (r.Ok? ==> here && c.open(frame[..12], c.aad(index), frame[12..]) == Some(r.value))
  {
    IndexAcceptedIff(frame[..12], index);
    assert frame[..12][4..] == frame[4..12] && frame[..12][8..] == frame[8..12];
    hide IndexAccepted, LittleEndian;
  }

  /** Ciphertext of the next frame, when so much plaintext is left. */
  function FrameSize(t: nat, chunkSize: nat): nat {
    Min(t, chunkSize) + FRAME_OVERHEAD
  }

  /**
   From ciphertext `x`, with `t` bytes of plaintext left and frame `i` next, complete frames that open lead to
   ciphertext `x'`, with `t'` bytes left and frame `i'` next.
   */
  ghost predicate Walks(c: Codec, t: nat, i: nat, x: seq<Byte>, t': nat, i': nat, x': seq<Byte>)
    requires c.chunkSize > 0
    decreases t
  {
    || (t == t' && i == i' && x == x')
    || (t > 0 && Walked(c, t, i, x) && Walks(c, t - Min(t, c.chunkSize), i + 1, x[FrameSize(t, c.chunkSize)..], t', i', x'))
  }

  /** The next frame is complete and opens. */
  predicate Walked(c: Codec, t: nat, i: nat, x: seq<Byte>) {
    |x| >= FrameSize(t, c.chunkSize) && DecodeFrame(c, i, x[..FrameSize(t, c.chunkSize)]).Ok?
  }

  lemma {:induction false} WalksFurther(c: Codec, t: nat, i: nat, x: seq<Byte>, t': nat, i': nat, x': seq<Byte>, t'': nat, i'': nat, x'': seq<Byte>)
    requires c.chunkSize > 0 && Walks(c, t, i, x, t', i', x') && Walks(c, t', i', x', t'', i'', x'')
    ensures Walks(c, t, i, x, t'', i'', x'')
    decreases t
  {
    if !(t == t' && i == i' && x == x') {
      WalksFurther(c, t - Min(t, c.chunkSize), i + 1, x[FrameSize(t, c.chunkSize)..], t', i', x', t'', i'', x'');
    }
  }

  lemma WalksNowhere(c: Codec, t: nat, i: nat, x: seq<Byte>)
    ensures c.chunkSize > 0 ==> Walks(c, t, i, x, t, i, x)
  {
  }

  lemma WalksOne(c: Codec, t: nat, i: nat, x: seq<Byte>)
    requires c.chunkSize > 0 && t > 0 && Walked(c, t, i, x)
    ensures Walks(c, t, i, x, t - Min(t, c.chunkSize), i + 1, x[FrameSize(t, c.chunkSize)..])
  {
    hide Walked;
  }

  /** Genuine frames of this plaintext open to what was sealed in them. */
  ghost predicate Opens(c: Codec, p: seq<Byte>) {
    forall i: nat {:trigger Chunk(p, c.chunkSize, i)} ::
      Chunk(p, c.chunkSize, i) != [] && MakeFrameNonce(c.prefix, i).Ok? ==>
        var nonce := MakeFrameNonce(c.prefix, i).value;
        c.open(nonce, c.aad(i), c.seal(nonce, c.aad(i), Chunk(p, c.chunkSize, i))) == Some(Chunk(p, c.chunkSize, i))
  }

  /**
   Authenticity: whatever ciphertext is presented, a frame that opens under the additional data of
   index `i` carries chunk `i` of the plaintext the writer sealed.
   */
  ghost predicate Unforgeable(c: Codec, p: seq<Byte>) {
    forall nonce, ct, i: nat :: c.open(nonce, c.aad(i), ct).Some? ==>
      Chunk(p, c.chunkSize, i) != [] && c.open(nonce, c.aad(i), ct).value == Chunk(p, c.chunkSize, i)
  }

  lemma FrameShape(c: Codec, p: seq<Byte>, index: nat)
    requires WellFormed(c, |p|) && Tail(p, c.chunkSize, index) != []
    ensures var msg := Chunk(p, c.chunkSize, index);
            && msg != []
            && MakeFrameNonce(c.prefix, index).Ok?
            && |FrameBytes(c, index, msg)| == |msg| + FRAME_OVERHEAD
            && Frames(c, Tail(p, c.chunkSize, index), index)
               == FrameBytes(c, index, msg) + Frames(c, Tail(p, c.chunkSize, index + 1), index + 1)
  {
    IndexInRange(c, p, index);
    TailStep(p, c.chunkSize, index);
  }

  /** If a genuine ciphertext starts with `have`, of the size of its first frame, that is the frame. */
  lemma FirstFrame(c: Codec, p: seq<Byte>, index: nat, have: seq<Byte>, rest: seq<Byte>)
    requires WellFormed(c, |p|) && Opens(c, p) && Tail(p, c.chunkSize, index) != []
    requires have + rest == Frames(c, Tail(p, c.chunkSize, index), index)
    requires |have| == |Chunk(p, c.chunkSize, index)| + FRAME_OVERHEAD
    ensures DecodeFrame(c, index, have) == Ok(Chunk(p, c.chunkSize, index))
    ensures rest == Frames(c, Tail(p, c.chunkSize, index + 1), index + 1)
  {
    FrameShape(c, p, index);
    IndexInRange(c, p, index);
    NonceCarriesIndex(c.prefix, index);
    var chunk := Chunk(p, c.chunkSize, index);
    var frame := FrameBytes(c, index, chunk);
    var later := Frames(c, Tail(p, c.chunkSize, index + 1), index + 1);
    SplitUnique(have, rest, frame, later);
    var nonce := MakeFrameNonce(c.prefix, index).value;
    SplitUnique(have[..12], have[12..], nonce, c.seal(nonce, c.aad(index), chunk));
  }

  /** Skipping one full frame of ciphertext is skipping one chunk of plaintext. */
  lemma SeekOneFrame(c: Codec, p: seq<Byte>, index: nat)
    requires WellFormed(c, |p|)
    ensures Drop(Frames(c, Tail(p, c.chunkSize, index), index), c.chunkSize + FRAME_OVERHEAD)
            == Frames(c, Tail(p, c.chunkSize, index + 1), index + 1)
  {
    TailStep(p, c.chunkSize, index);
    if Tail(p, c.chunkSize, index) != [] {
      FrameShape(c, p, index);
    }
  }

  lemma {:induction false} SeekFrames(c: Codec, p: seq<Byte>, index: nat, n: nat)
    requires WellFormed(c, |p|)
    ensures Drop(Frames(c, Tail(p, c.chunkSize, index), index), Times(n, c.chunkSize + FRAME_OVERHEAD))
            == Frames(c, Tail(p, c.chunkSize, index + n), index + n)
    decreases n
  {
    hide Drop;
    hide Frames;
    var full := c.chunkSize + FRAME_OVERHEAD;
    if n == 0 {
      DropNone(Frames(c, Tail(p, c.chunkSize, index), index));
    } else {
      SeekOneFrame(c, p, index);
      SeekFrames(c, p, index + 1, n - 1);
      DropDrop(Frames(c, Tail(p, c.chunkSize, index), index), full, Times(n - 1, full));
      assert index + 1 + (n - 1) == index + n;
    }
  }

  /** Seeking a ciphertext file to `ciphertext_offset` lands on the frame that holds `offset`. */
  lemma SeekLandsOnFrame(c: Codec, p: seq<Byte>, offset: nat)
    requires WellFormed(c, |p|)
    ensures Drop(Frames(c, p, 0), CiphertextOffset(c.chunkSize, offset))
            == Frames(c, Tail(p, c.chunkSize, offset / c.chunkSize), offset / c.chunkSize)
  {
    hide Drop;
    hide Frames;
    var n := offset / c.chunkSize;
    DropNone(p);
    SeekFrames(c, p, 0, n);
    TimesIsProduct(n, c.chunkSize + FRAME_OVERHEAD);
  }

  /** Every frame costs 28 bytes, and there is one frame per started chunk of plaintext. */
  lemma {:induction false} CiphertextLength(c: Codec, p: seq<Byte>, index: nat)
    requires WellFormed(c, |p|)
    ensures var t := Tail(p, c.chunkSize, index);
            |Frames(c, t, index)| == |t| + FRAME_OVERHEAD * CeilDiv(|t|, c.chunkSize)
    decreases |Tail(p, c.chunkSize, index)|
  {
    var t := Tail(p, c.chunkSize, index);
    CeilDivStep(|t|, c.chunkSize);
    if t != [] {
      FrameShape(c, p, index);
      TailStep(p, c.chunkSize, index);
      CiphertextLength(c, p, index + 1);
    }
  }
}
