/**
 Poll-driven byte sources. A schedule fixes, poll by poll, what the operating system does:
 it stalls, hands over some bytes, or fails. Quantifying over schedules is quantifying over
 every way in which reads can be interleaved with the arrival of data.
 */
module Streams {
  import opened Base

  datatype Tick = Stall | Give(n: nat) | Fail

  datatype IoError =
    | DeviceError
    | MissingManifestEntry
    | ChunkUnreadable
    | TooManyLostShards
    | ReedSolomonError
    | FrameTooShort
    | FrameIndexMismatch
    | AuthenticationError
    | TruncatedFrame
    | TruncatedObject
    | EncryptionFailed

  /** `Poll<io::Result<()>>` together with the bytes the call put into the caller's buffer. */
  datatype Poll = Pending | Ready(bytes: seq<Byte>) | Failed(error: IoError)

  /** A file or request body: fixed contents, read at the pace of a schedule. */
  class ByteSource {
    const data: seq<Byte>
    var pos: nat
    var schedule: seq<Tick>

    constructor (data: seq<Byte>, schedule: seq<Tick>)
      ensures this.data == data && this.schedule == schedule
      ensures Valid() && Rest() == data
      ensures Healthy() <==> Fail !in schedule
    {
      this.data := data;
      this.schedule := schedule;
      pos := 0;
    }

    ghost predicate Valid()
      reads this
    {
      pos <= |data|
    }

    ghost function Rest(): seq<Byte>
      requires Valid()
      reads this
    {
      data[pos..]
    }

    /** No failure is scheduled any more. */
    ghost predicate Healthy()
      reads this
    {
      Fail !in schedule
    }

    method PollRead(cap: nat) returns (r: Poll)
      requires Valid()
      modifies this
      ensures Valid()
      ensures |schedule| <= old(|schedule|)
      ensures r.Pending? ==> |schedule| < old(|schedule|)
      ensures old(Healthy()) ==> Healthy() && !r.Failed?
      ensures !r.Ready? ==> Rest() == old(Rest())
      ensures r.Ready? ==> |r.bytes| <= cap && old(Rest()) == r.bytes + Rest()
      ensures r.Ready? && cap > 0 && r.bytes == [] ==> Rest() == []
    {
      var give := cap;
      if |schedule| > 0 {
        var tick := schedule[0];
        schedule := schedule[1..];
        match tick
        case Stall => return Pending;
        case Fail => return Failed(DeviceError);
        case Give(n) => give := Min(cap, n + 1);
      }
      give := Min(give, |data| - pos);
      r := Ready(data[pos..pos + give]);
      pos := pos + give;
    }
  }
}
