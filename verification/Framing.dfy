/**
 Length-prefixed frames between guest and host: the resumable reader, the buffering writer,
 and the blocking forms. The wire accepts and yields bytes in whatever portions it likes.
 */
module Framing {
  import opened Common
  import opened Cbor

  const MAX_FRAME: nat := 4 * 1024 * 1024

  type Payload = seq<Byte>

  /** A payload on the wire: four octets of length, then the payload. */
  function EncodeFrame(p: Payload): seq<Byte>
    requires |p| < TWO_32
  {
    BigEndian(|p|, 4) + p
  }

  ghost predicate AllSmall(ps: seq<Payload>) {
    forall i :: 0 <= i < |ps| ==> |ps[i]| <= MAX_FRAME
  }

  ghost function EncodeFrames(ps: seq<Payload>): seq<Byte>
    requires forall i :: 0 <= i < |ps| ==> |ps[i]| < TWO_32
  {
    if ps == [] then [] else EncodeFrame(ps[0]) + EncodeFrames(ps[1..])
  }

  // ----- What a stream of bytes means -----

  datatype Parsed = NeedMore | TooLarge | Frame(payload: Payload, rest: seq<Byte>)

  function ParseFrame(s: seq<Byte>): Parsed {
    if |s| < 4 then NeedMore
    else
      var len := FromBigEndian(s[..4]);
      if len > MAX_FRAME then TooLarge
      else if |s| < 4 + len then NeedMore
      else Frame(s[4..4 + len], s[4 + len..])
  }

  lemma ParseOfEncoded(p: Payload, rest: seq<Byte>)
    requires |p| <= MAX_FRAME
    ensures ParseFrame(EncodeFrame(p) + rest) == Frame(p, rest)
  {
    hide BigEndian; hide FromBigEndian;
    PowersOf256();
    BigEndianRoundTrip(|p|, 4);
    var s := EncodeFrame(p) + rest;
    assert s[..4] == BigEndian(|p|, 4);
    assert s[4..4 + |p|] == p;
    assert s[4 + |p|..] == rest;
  }

  /** Reading more never changes the answer once there is one. */
  lemma ParseStable(s: seq<Byte>, more: seq<Byte>)
    requires ParseFrame(s) != NeedMore
    ensures ParseFrame(s + more) ==
            match ParseFrame(s) { case Frame(p, rest) => Frame(p, rest + more) case other => other }
  {
    hide BigEndian; hide FromBigEndian;
    var len := FromBigEndian(s[..4]);
    assert (s + more)[..4] == s[..4];
    if len <= MAX_FRAME {
      assert (s + more)[4..4 + len] == s[4..4 + len];
      assert (s + more)[4 + len..] == s[4 + len..] + more;
    }
  }

  /** Only an encoded frame parses to a frame with nothing left over. */
  lemma ParsedIsEncoded(s: seq<Byte>, p: Payload)
    requires ParseFrame(s) == Frame(p, [])
    ensures |p| <= MAX_FRAME && s == EncodeFrame(p)
  {
    hide BigEndian; hide FromBigEndian;
    var len := FromBigEndian(s[..4]);
    assert |s| == 4 + len && |p| == len;
    FourOctets(s[..4]);
    assert s == s[..4] + s[4..4 + len];
  }

  lemma FourOctets(bs: seq<Byte>)
    requires |bs| == 4
    ensures BigEndian(FromBigEndian(bs), 4) == bs
  {
    DigitsBack(bs);
  }

  lemma {:induction false} DigitsBack(bs: seq<Byte>)
    ensures BigEndian(FromBigEndian(bs), |bs|) == bs
  {
    if bs != [] {
      var n := |bs| - 1;
      DigitsBack(bs[..n]);
      assert FromBigEndian(bs) / 256 == FromBigEndian(bs[..n]) && FromBigEndian(bs) % 256 == bs[n];
      assert bs == bs[..n] + [bs[n]];
    }
  }

  // ----- Theorem: frames come out as they went in -----

  lemma FirstFrame(ps: seq<Payload>, tail: seq<Byte>)
    requires AllSmall(ps) && ps != []
    ensures ParseFrame(EncodeFrames(ps) + tail) == Frame(ps[0], EncodeFrames(ps[1..]) + tail)
  {
    assert EncodeFrames(ps) + tail == EncodeFrame(ps[0]) + (EncodeFrames(ps[1..]) + tail);
    ParseOfEncoded(ps[0], EncodeFrames(ps[1..]) + tail);
  }

  /**
   Let the bytes of the frames delivered so far, of the frame being read and of everything
   still under way make up the bytes of the frames enqueued. Then the delivered frames are a
   prefix of the enqueued ones, and once nothing is under way they are all of them.
   */
  lemma {:induction false} DeliveredInOrder(enqueued: seq<Payload>, delivered: seq<Payload>, partial: seq<Byte>, tail: seq<Byte>)
    requires AllSmall(enqueued) && AllSmall(delivered)
    requires EncodeFrames(delivered) + partial + tail == EncodeFrames(enqueued)
    requires ParseFrame(partial) == NeedMore || ParseFrame(partial) == TooLarge
    ensures delivered <= enqueued
    ensures ParseFrame(partial) == NeedMore
    ensures tail == [] ==> delivered == enqueued && partial == []
    decreases |delivered|
  {
    hide EncodeFrames; hide ParseFrame;
    if delivered == [] {
      NoFrames();
      assert [] + partial + tail == partial + tail;
      NothingDelivered(enqueued, partial, tail);
    } else {
      assert EncodeFrames(delivered) + partial + tail == EncodeFrames(delivered) + (partial + tail);
      FirstDelivered(enqueued, delivered, partial + tail);
      assert EncodeFrames(delivered[1..]) + partial + tail == EncodeFrames(delivered[1..]) + (partial + tail);
      DeliveredInOrder(enqueued[1..], delivered[1..], partial, tail);
      assert delivered == [delivered[0]] + delivered[1..] && enqueued == [enqueued[0]] + enqueued[1..];
    }
  }

  lemma NoFrames()
    ensures EncodeFrames([]) == []
  {
  }

  /** Before anything is delivered, the bytes held are the beginning of the first frame. */
  lemma NothingDelivered(enqueued: seq<Payload>, partial: seq<Byte>, tail: seq<Byte>)
    requires AllSmall(enqueued) && partial + tail == EncodeFrames(enqueued)
    requires ParseFrame(partial) == NeedMore || ParseFrame(partial) == TooLarge
    ensures ParseFrame(partial) == NeedMore
    ensures tail == [] ==> enqueued == [] && partial == []
  {
    hide ParseFrame;
    if enqueued == [] {
      assert partial == [];
      NothingParses();
    } else {
      FirstFrame(enqueued, []);
      assert EncodeFrames(enqueued) + [] == partial + tail;
      if ParseFrame(partial) == TooLarge {
        ParseStable(partial, tail);
      }
      assert tail == [] ==> partial + tail == partial;
    }
  }

  lemma NothingParses()
    ensures ParseFrame([]) == NeedMore
  {
  }

  /** The first frame delivered is the first one enqueued, and the same bytes follow both. */
  lemma FirstDelivered(enqueued: seq<Payload>, delivered: seq<Payload>, rest: seq<Byte>)
    requires AllSmall(enqueued) && AllSmall(delivered) && delivered != []
    requires EncodeFrames(delivered) + rest == EncodeFrames(enqueued)
    ensures enqueued != [] && enqueued[0] == delivered[0]
    ensures EncodeFrames(delivered[1..]) + rest == EncodeFrames(enqueued[1..])
  {
    hide ParseFrame; hide EncodeFrames;
    FirstFrame(delivered, rest);
    if enqueued == [] {
      NoFrames();
      NothingParses();
    } else {
      FirstFrame(enqueued, []);
      assert EncodeFrames(enqueued) + [] == EncodeFrames(enqueued);
      assert EncodeFrames(enqueued[1..]) + [] == EncodeFrames(enqueued[1..]);
    }
  }

  lemma {:induction false} EncodeFramesSnoc(ps: seq<Payload>, p: Payload)
    requires |p| < TWO_32 && forall i :: 0 <= i < |ps| ==> |ps[i]| < TWO_32
    ensures EncodeFrames(ps + [p]) == EncodeFrames(ps) + EncodeFrame(p)
  {
    if ps == [] {
      assert ps + [p] == [p];
      assert EncodeFrames([p][1..]) == [];
    } else {
      assert (ps + [p])[1..] == ps[1..] + [p];
      EncodeFramesSnoc(ps[1..], p);
    }
  }

  // ----- The wire -----

  datatype WriteResult = Wrote(n: nat) | WriteBlocked | WriteFailed

  datatype ReadResult = Got(n: nat) | ReadBlocked | ReadFailed

  /**
   A byte channel. It keeps everything ever written and how much of it has been read, and counts
   the writes and reads that failed and those that would have blocked.
   */
  class Wire {
    var sent: seq<Byte>
    var taken: nat
    var faults: nat
    var writeBlocks: nat
    var readFaults: nat
    var readBlocks: nat
    const closed: bool

    ghost predicate Valid()
      reads this
    {
      taken <= |sent|
    }

    constructor (closed: bool)
      ensures Valid() && sent == [] && taken == 0
    {
      this.closed := closed;
      sent, taken, faults, writeBlocks, readFaults, readBlocks := [], 0, 0, 0, 0, 0;
    }

    /** Accepts some of the bytes, or none; taking nothing without blocking counts as a failure. How many is not determined. */
    method Write(data: seq<Byte>) returns (r: WriteResult)
      requires Valid()
      modifies this
      ensures Valid() && taken == old(taken)
      ensures r.Wrote? ==> r.n <= |data| && sent == old(sent) + data[..r.n]
      ensures !r.Wrote? ==> sent == old(sent)
      ensures faults == old(faults) + if r.WriteFailed? || r == Wrote(0) then 1 else 0
      ensures writeBlocks == old(writeBlocks) + if r.WriteBlocked? then 1 else 0
      ensures readFaults == old(readFaults) && readBlocks == old(readBlocks)
    {
      var n: int := *;
      var blocked: bool := *;
      if n <= 0 || n > |data| {
        if blocked {
          writeBlocks := writeBlocks + 1;
          return WriteBlocked;
        }
        faults := faults + 1;
        return if n == 0 then Wrote(0) else WriteFailed;
      }
      sent := sent + data[..n];
      return Wrote(n);
    }

    /** Stores some of the next bytes at dst[from..]; zero only for an empty destination or at the end of a closed stream. */
    method Read(dst: array<Byte>, from: nat) returns (r: ReadResult)
      requires Valid() && from <= dst.Length
      modifies this, dst
      ensures Valid() && sent == old(sent) && faults == old(faults) && writeBlocks == old(writeBlocks)
      ensures r.Got? ==> r.n <= dst.Length - from && taken == old(taken) + r.n
                         && dst[..from + r.n] == old(dst[..from]) + sent[old(taken)..taken]
      ensures from == dst.Length ==> r == Got(0)
      ensures r == Got(0) ==> from == dst.Length || (closed && taken == |sent|)
      ensures !r.Got? ==> taken == old(taken) && dst[..] == old(dst[..])
      ensures readFaults == old(readFaults) + if r.ReadFailed? then 1 else 0
      ensures readBlocks == old(readBlocks) + if r.ReadBlocked? then 1 else 0
    {
      var n: int := *;
      var blocked: bool := *;
      if from == dst.Length {
        return Got(0);
      }
      if taken == |sent| && closed {
        return Got(0);
      }
      if taken == |sent| || n <= 0 || n > dst.Length - from || n > |sent| - taken {
        if taken == |sent| || blocked {
          readBlocks := readBlocks + 1;
          return ReadBlocked;
        }
        readFaults := readFaults + 1;
        return ReadFailed;
      }
      forall i | 0 <= i < n {
        dst[from + i] := sent[taken + i];
      }
      assert dst[..from] == old(dst[..from]);
      assert dst[from..from + n] == sent[taken..taken + n];
      assert dst[..from + n] == dst[..from] + dst[from..from + n];
      taken := taken + n;
      return Got(n);
    }
  }

  datatype IoError = EndOfStream | FrameTooLarge | OtherError

  /** What a call of the resumable reader returns: a frame, nothing yet, or an error. */
  type ReadOutcome = Result<Option<Payload>, IoError>

  /** What the first four octets of a frame, or fewer, parse to. */
  lemma LengthParses(held: seq<Byte>)
    requires |held| <= 4
    ensures ParseFrame(held) ==
            if |held| < 4 then NeedMore
            else if FromBigEndian(held) > MAX_FRAME then TooLarge
            else if FromBigEndian(held) == 0 then Frame([], []) else NeedMore
  {
    hide BigEndian; hide FromBigEndian;
    assert |held| == 4 ==> held[..4] == held;
  }

  // ----- The resumable reader -----

  class FrameReader {
    const lenBuf: array<Byte>
    var lenRead: nat
    var frame: array?<Byte>
    var frameRead: nat

    ghost predicate Valid()
      reads this, lenBuf, frame
    {
      && lenBuf.Length == 4 && lenRead <= 4
      && (frame == null ==> lenRead == 4 ==> FromBigEndian(lenBuf[..]) > MAX_FRAME)
      && (frame != null ==>
            && frame != lenBuf && lenRead == 4
            && 0 < frame.Length <= MAX_FRAME && FromBigEndian(lenBuf[..]) == frame.Length
            && frameRead < frame.Length)
    }

    /** The bytes of the current frame read so far. */
    ghost function Partial(): seq<Byte>
      requires Valid()
      reads this, lenBuf, frame
    {
      if frame == null then lenBuf[..lenRead] else lenBuf[..] + frame[..frameRead]
    }

    constructor ()
      ensures Valid() && Partial() == [] && fresh(lenBuf) && frame == null
    {
      lenBuf := new Byte[4](_ => 0);
      lenRead, frame, frameRead := 0, null, 0;
    }

    lemma HeldParses()
      requires Valid()
      ensures frame == null && lenRead == 4 ==> ParseFrame(Partial()) == TooLarge
      ensures frame == null && lenRead < 4 ==> ParseFrame(Partial()) == NeedMore
      ensures frame != null ==> ParseFrame(Partial()) == NeedMore
    {
      hide FromBigEndian;
      assert lenBuf[..4] == lenBuf[..];
      assert |Partial()| >= 4 ==> Partial()[..4] == lenBuf[..];
    }

    lemma PartialIsIncomplete()
      requires Valid()
      ensures ParseFrame(Partial()) == NeedMore || ParseFrame(Partial()) == TooLarge
    {
      HeldParses();
    }

    /**
     First half of a call, when no frame is under way: the length field. None means a body of
     at least one byte is expected next.
     */
    method ReadLength(wire: Wire) returns (r: Option<ReadOutcome>)
      requires Valid() && wire.Valid() && frame == null
      modifies this, lenBuf, wire
      ensures Valid() && wire.Valid() && wire.sent == old(wire.sent) && old(wire.taken) <= wire.taken
      ensures frame == null || fresh(frame)
      ensures Outcome(old(Partial()) + wire.sent[old(wire.taken)..wire.taken], r, Partial())
      ensures r.None? ==> frame != null && wire.taken > old(wire.taken)
      ensures r == Some(Ok(None)) ==> wire.taken > old(wire.taken) || wire.readBlocks > old(wire.readBlocks)
      ensures r == Some(Err(OtherError)) ==> wire.taken == old(wire.taken) && wire.readFaults > old(wire.readFaults)
      ensures r == Some(Err(EndOfStream)) ==>
                wire.taken == old(wire.taken)
                && ((wire.closed && wire.taken == |wire.sent|) || ParseFrame(old(Partial())) == TooLarge)
      ensures wire.readFaults >= old(wire.readFaults) && wire.readBlocks >= old(wire.readBlocks)
    {
      hide U32; hide ParseFrame; hide FromBigEndian;
      ghost var before, start := Partial(), wire.taken;
      HeldParses();
      assert lenRead == 4 ==> lenBuf[..4] == lenBuf[..];
      var got := wire.Read(lenBuf, lenRead);
      assert !got.Got? ==> lenBuf[..] == old(lenBuf[..]) && before + wire.sent[start..start] == before;
      if got.ReadBlocked? {
        return Some(Ok(None));
      }
      if got.ReadFailed? {
        return Some(Err(OtherError));
      }
      assert lenBuf[..lenRead + got.n] == before + wire.sent[start..wire.taken];
      if got.n == 0 {
        assert lenRead == 4 ==> lenBuf[..4] == lenBuf[..];
        return Some(Err(EndOfStream));
      }
      lenRead := lenRead + got.n;
      LengthParses(lenBuf[..lenRead]);
      if lenRead < 4 {
        return Some(Ok(None));
      }
      ghost var held := lenBuf[..4];
      assert held == lenBuf[..];
      var len := U32(lenBuf[0], lenBuf[1], lenBuf[2], lenBuf[3]);
      LengthField(held);
      if len > MAX_FRAME {
        return Some(Err(FrameTooLarge));
      }
      if len == 0 {
        lenRead := 0;
        return Some(Ok(Some([])));
      }
      frame := new Byte[len](_ => 0);
      frameRead := 0;
      assert lenBuf[..] + frame[..0] == held;
      return None;
    }

    /** Second half of a call: the body of the frame under way. */
    method ReadBody(wire: Wire) returns (r: ReadOutcome)
      requires Valid() && wire.Valid() && frame != null
      modifies this, frame, wire
      ensures Valid() && wire.Valid() && wire.sent == old(wire.sent) && old(wire.taken) <= wire.taken
      ensures frame == old(frame) || frame == null
      ensures Outcome(old(Partial()) + wire.sent[old(wire.taken)..wire.taken], Some(r), Partial())
      ensures ParseFrame(old(Partial()) + wire.sent[old(wire.taken)..wire.taken]) != TooLarge && r != Err(FrameTooLarge)
      ensures r == Ok(None) ==> wire.taken > old(wire.taken) || wire.readBlocks > old(wire.readBlocks)
      ensures r == Err(OtherError) ==> wire.readFaults > old(wire.readFaults)
      ensures r == Err(EndOfStream) ==> wire.closed && wire.taken == |wire.sent|
      ensures wire.readFaults >= old(wire.readFaults) && wire.readBlocks >= old(wire.readBlocks)
    {
      hide FromBigEndian;
      ghost var before, start, head := Partial(), wire.taken, lenBuf[..];
      var buf := frame;
      var got := wire.Read(buf, frameRead);
      assert lenBuf[..] == head;
      assert !got.Got? ==> buf[..] == old(frame[..]) && buf[..frameRead] == old(frame[..])[..frameRead];
      assert !got.Got? ==> before + wire.sent[start..start] == before;
      if got.ReadBlocked? {
        return Ok(None);
      }
      if got.ReadFailed? {
        return Err(OtherError);
      }
      assert head + buf[..frameRead + got.n] == before + wire.sent[start..wire.taken];
      if got.n == 0 {
        return Err(EndOfStream);
      }
      frameRead := frameRead + got.n;
      if frameRead < buf.Length {
        return Ok(None);
      }
      assert buf[..buf.Length] == buf[..];
      ghost var held := head + buf[..];
      assert held[..4] == head && held[4..4 + buf.Length] == buf[..] && held[4 + buf.Length..] == [];
      frame, frameRead, lenRead := null, 0, 0;
      return Ok(Some(buf[..]));
    }

    /**
     One call may return a frame, ask for more, or fail. The bytes it took join those already
     held; a returned frame is exactly what they encode, and the reader is empty again. It asks
     for more only when the bytes held are no frame yet, and then it took some or the wire
     blocked. It refuses exactly a length above the limit. Other errors have their cause in the
     wire, except that a reader that has refused reports the end of the stream.
     */
    method ReadFrame(wire: Wire) returns (r: ReadOutcome)
      requires Valid() && wire.Valid()
      modifies this, lenBuf, frame, wire
      ensures Valid() && wire.Valid() && wire.sent == old(wire.sent) && old(wire.taken) <= wire.taken
      ensures frame == old(frame) || frame == null || fresh(frame)
      ensures var held := old(Partial()) + wire.sent[old(wire.taken)..wire.taken];
              && Outcome(held, Some(r), Partial())
              && (ParseFrame(old(Partial())) == NeedMore && ParseFrame(held) == TooLarge ==> r == Err(FrameTooLarge))
      ensures r == Ok(None) ==> wire.taken > old(wire.taken) || wire.readBlocks > old(wire.readBlocks)
      ensures r == Err(OtherError) ==> wire.readFaults > old(wire.readFaults)
      ensures r == Err(EndOfStream) ==>
                (wire.closed && wire.taken == |wire.sent|) || ParseFrame(old(Partial())) == TooLarge
      ensures wire.readFaults >= old(wire.readFaults) && wire.readBlocks >= old(wire.readBlocks)
    {
      hide ParseFrame; hide Partial; hide Valid;
      ghost var before, start := Partial(), wire.taken;
      if frame == null {
        var early := ReadLength(wire);
        if early.Some? {
          assert wire.taken == start ==> before + wire.sent[start..wire.taken] == before;
          return early.value;
        }
      }
      ghost var mid := wire.taken;
      assert Partial() == before + wire.sent[start..mid];
      r := ReadBody(wire);
      assert before + wire.sent[start..mid] + wire.sent[mid..wire.taken] == before + wire.sent[start..wire.taken];
    }
  }

  /** What a call that returned r says about the bytes held, and what is still held after it. */
  ghost predicate Outcome(held: seq<Byte>, r: Option<ReadOutcome>, left: seq<Byte>) {
    match r
    case Some(Ok(Some(p))) => left == [] && ParseFrame(held) == Frame(p, [])
    case Some(Err(FrameTooLarge)) => left == held && ParseFrame(held) == TooLarge
    case Some(Err(_)) => left == held
    case _ => left == held && ParseFrame(held) == NeedMore
  }

  /** A length field put together from its four octets. */
  function U32(a: int, b: int, c: int, d: int): int {
    a * 0x100_0000 + b * 0x1_0000 + c * 0x100 + d
  }

  lemma LengthField(bs: seq<Byte>)
    requires |bs| == 4
    ensures FromBigEndian(bs) == U32(bs[0], bs[1], bs[2], bs[3])
  {
    assert bs[..3][..2] == bs[..2] && bs[..2][..1] == bs[..1] && bs[..1][..0] == [];
    assert FromBigEndian(bs[..1]) == bs[0];
    assert FromBigEndian(bs[..2]) == U32(0, 0, bs[0], bs[1]);
    assert FromBigEndian(bs[..3]) == U32(0, bs[0], bs[1], bs[2]);
  }

  /**
   The layout of a frame: its length in the first four octets, most significant first, then that
   many octets. A length above 4 MiB is refused whatever follows; a frame comes out exactly if
   all its octets are there, and nothing behind it is touched.
   */
  lemma FrameLayout(p: Payload, s: seq<Byte>)
    ensures |p| < 0x1_0000_0000 ==>
              var e := EncodeFrame(p); |e| == 4 + |p| && U32(e[0], e[1], e[2], e[3]) == |p| && e[4..] == p
    ensures |s| < 4 ==> ParseFrame(s) == NeedMore
    ensures |s| >= 4 ==>
              var len := U32(s[0], s[1], s[2], s[3]);
              && (ParseFrame(s) == TooLarge <==> len > 4194304)
              && (ParseFrame(s).Frame? <==> len <= 4194304 && |s| >= 4 + len)
              && (ParseFrame(s).Frame? ==> ParseFrame(s).payload == s[4..4 + len] && ParseFrame(s).rest == s[4 + len..])
  {
    hide BigEndian; hide FromBigEndian; hide U32;
    if |p| < 0x1_0000_0000 {
      PowersOf256();
      BigEndianRoundTrip(|p|, 4);
      LengthField(BigEndian(|p|, 4));
      assert EncodeFrame(p)[4..] == p;
    }
    if |s| >= 4 {
      LengthField(s[..4]);
    }
  }

  // ----- The buffering writer -----

  class FrameWriter {
    var buffer: seq<Byte>
    var offset: nat
    /** The largest number of bytes ever pending. */
    ghost var peak: nat

    ghost predicate Valid()
      reads this
    {
      offset <= |buffer| && |buffer| - offset <= peak
    }

    ghost function Pending(): seq<Byte>
      requires Valid()
      reads this
    {
      buffer[offset..]
    }

    constructor ()
      ensures Valid() && Pending() == [] && peak == 0
    {
      buffer, offset, peak := [], 0, 0;
    }

    function HasPending(): bool
      requires Valid()
      reads this
      ensures HasPending() <==> Pending() != []
    {
      offset < |buffer|
    }

    function PendingBytes(): (n: nat)
      requires Valid()
      reads this
      ensures n == |Pending()|
    {
      |buffer| - offset
    }

    method Enqueue(payload: Payload)
      requires Valid() && |payload| < TWO_32
      modifies this
      ensures Valid() && Pending() == old(Pending()) + EncodeFrame(payload)
      ensures peak == if |Pending()| > old(peak) then |Pending()| else old(peak)
    {
      var len := |payload|;
      var lenBuf := [len / 0x100_0000 % 256, len / 0x1_0000 % 256, len / 0x100 % 256, len % 256];
      assert lenBuf == BigEndian(len, 4) by {
        LengthOctets(len);
      }
      buffer := buffer + lenBuf;
      buffer := buffer + payload;
      peak := if |buffer| - offset > peak then |buffer| - offset else peak;
    }

    /** Hands bytes to the wire in order until it would block, fails, or nothing is left. */
    method Flush(wire: Wire) returns (r: Result<(), IoError>)
      requires Valid() && wire.Valid()
      modifies this, wire
      ensures Valid() && wire.Valid() && wire.taken == old(wire.taken)
      ensures old(wire.sent) <= wire.sent
      ensures wire.sent + Pending() == old(wire.sent) + old(Pending()) && peak == old(peak)
      ensures r.Err? <==> wire.faults > old(wire.faults)
      ensures wire.faults >= old(wire.faults) && wire.writeBlocks >= old(wire.writeBlocks)
      ensures r.Ok? ==> Pending() == [] || wire.writeBlocks == old(wire.writeBlocks) + 1
    {
      ghost var all := wire.sent + Pending();
      while offset < |buffer|
        invariant Valid() && wire.Valid() && wire.taken == old(wire.taken)
        invariant old(wire.sent) <= wire.sent && wire.sent + Pending() == all && peak == old(peak)
        invariant wire.faults == old(wire.faults) && wire.writeBlocks == old(wire.writeBlocks)
        decreases |buffer| - offset
      {
        ghost var sent, pending := wire.sent, Pending();
        var w := wire.Write(buffer[offset..]);
        if w.WriteBlocked? {
          return Ok(());
        }
        if w.WriteFailed? {
          return Err(OtherError);
        }
        if w.n == 0 {
          assert sent + pending[..0] == sent;
          return Err(EndOfStream);
        }
        offset := offset + w.n;
        assert Pending() == pending[w.n..];
        assert sent + pending[..w.n] + pending[w.n..] == sent + pending;
      }
      buffer, offset := [], 0;
      return Ok(());
    }
  }

  lemma LastOctet(value: nat, n: nat)
    requires n > 0
    ensures BigEndian(value, n) == BigEndian(value / 256, n - 1) + [value % 256]
    ensures BigEndian(value, 0) == []
  {
  }

  lemma LengthOctets(len: nat)
    requires len < TWO_32
    ensures BigEndian(len, 4) == [len / 0x100_0000 % 256, len / 0x1_0000 % 256, len / 0x100 % 256, len % 256]
  {
    hide BigEndian;
    var a, b, c := len / 0x100, len / 0x1_0000, len / 0x100_0000;
    assert a / 256 == b && b / 256 == c;
    LastOctet(len, 4);
    LastOctet(a, 3);
    LastOctet(b, 2);
    LastOctet(c, 1);
  }

  // ----- The blocking forms -----

  /**
   Fills the whole array; the wire's portions do not show. It fails only if a read does, or if
   the stream is closed and too short.
   */
  method ReadExact(wire: Wire, buf: array<Byte>) returns (r: Result<(), IoError>)
    requires wire.Valid()
    modifies wire, buf
    ensures wire.Valid() && wire.sent == old(wire.sent) && old(wire.taken) <= wire.taken
    ensures wire.readFaults >= old(wire.readFaults) && wire.readBlocks >= old(wire.readBlocks)
    ensures match r
            case Ok(_) => wire.taken == old(wire.taken) + buf.Length && buf[..] == wire.sent[old(wire.taken)..wire.taken]
            case Err(EndOfStream) => wire.closed && wire.taken == |wire.sent| < old(wire.taken) + buf.Length
            case Err(OtherError) => wire.readFaults > old(wire.readFaults) || wire.readBlocks > old(wire.readBlocks)
            case Err(FrameTooLarge) => false
  {
    ghost var start := wire.taken;
    var offset := 0;
    while offset < buf.Length
      invariant 0 <= offset <= buf.Length && wire.Valid() && wire.sent == old(wire.sent)
      invariant wire.taken == start + offset && buf[..offset] == wire.sent[start..wire.taken]
      invariant wire.readFaults == old(wire.readFaults) && wire.readBlocks == old(wire.readBlocks)
      decreases buf.Length - offset
    {
      ghost var done := buf[..offset];
      var got := wire.Read(buf, offset);
      if !got.Got? {
        return Err(OtherError);
      }
      if got.n == 0 {
        return Err(EndOfStream);
      }
      assert done + wire.sent[start + offset..wire.taken] == wire.sent[start..wire.taken];
      offset := offset + got.n;
    }
    assert buf[..offset] == buf[..];
    return Ok(());
  }

  /** What a reader of one frame may answer about a stream, given what is left of it and how the wire behaved. */
  ghost predicate Answer(stream: seq<Byte>, r: Result<Payload, IoError>, rest: seq<Byte>, ended: bool, trouble: bool) {
    match r
    case Ok(p) => ParseFrame(stream) == Frame(p, rest)
    case Err(FrameTooLarge) => ParseFrame(stream) == TooLarge
    case Err(EndOfStream) => ParseFrame(stream) == NeedMore && ended
    case Err(OtherError) => trouble
  }

  /**
   The blocking read takes exactly one frame off the stream, refuses exactly a length above the
   limit, reports the end exactly of a closed stream that stops short, unless a read fails.
   */
  method ReadFrameBlocking(wire: Wire) returns (r: Result<Payload, IoError>)
    requires wire.Valid()
    modifies wire
    ensures wire.Valid() && wire.sent == old(wire.sent) && old(wire.taken) <= wire.taken
    ensures Answer(wire.sent[old(wire.taken)..], r, wire.sent[wire.taken..], wire.closed && wire.taken == |wire.sent|,
                   wire.readFaults > old(wire.readFaults) || wire.readBlocks > old(wire.readBlocks))
    ensures wire.readFaults >= old(wire.readFaults) && wire.readBlocks >= old(wire.readBlocks)
  {
    hide U32; hide ParseFrame; hide FromBigEndian;
    ghost var sent, start := wire.sent, wire.taken;
    var lenBuf := new Byte[4](_ => 0);
    var done := ReadExact(wire, lenBuf);
    if done.Err? {
      ShortStream(sent, start);
      return Err(done.error);
    }
    LengthField(lenBuf[..]);
    var len := U32(lenBuf[0], lenBuf[1], lenBuf[2], lenBuf[3]);
    StreamParsed(sent, start, len);
    if len > MAX_FRAME {
      return Err(FrameTooLarge);
    }
    var frame := new Byte[len](_ => 0);
    done := ReadExact(wire, frame);
    if done.Err? {
      return Err(done.error);
    }
    return Ok(frame[..]);
  }

  lemma ShortStream(sent: seq<Byte>, start: nat)
    requires start <= |sent|
    ensures |sent| < start + 4 ==> ParseFrame(sent[start..]) == NeedMore
  {
  }

  lemma StreamParsed(sent: seq<Byte>, start: nat, len: nat)
    requires start + 4 <= |sent| && FromBigEndian(sent[start..start + 4]) == len
    ensures ParseFrame(sent[start..]) ==
            if len > MAX_FRAME then TooLarge
            else if start + 4 + len <= |sent| then Frame(sent[start + 4..start + 4 + len], sent[start + 4 + len..])
            else NeedMore
  {
    hide BigEndian; hide FromBigEndian;
    assert sent[start..][..4] == sent[start..start + 4];
  }

  /** What a call of the resumable reader has found out about the stream it reads from. */
  lemma OutcomeOfStream(before: seq<Byte>, sent: seq<Byte>, start: nat, taken: nat, got: ReadOutcome, left: seq<Byte>, stream: seq<Byte>)
    requires start <= taken <= |sent| && before + sent[start..] == stream && ParseFrame(before) == NeedMore
    requires var held := before + sent[start..taken];
             Outcome(held, Some(got), left) && (ParseFrame(held) == TooLarge ==> got == Err(FrameTooLarge))
    requires ParseFrame(left) == NeedMore || ParseFrame(left) == TooLarge
    ensures match got
            case Ok(Some(p)) => ParseFrame(stream) == Frame(p, sent[taken..])
            case Err(FrameTooLarge) => ParseFrame(stream) == TooLarge
            case _ => left + sent[taken..] == stream && ParseFrame(left) == NeedMore && |left| == |before| + taken - start
  {
    hide ParseFrame;
    var held, more := before + sent[start..taken], sent[taken..];
    assert sent[start..] == sent[start..taken] + more;
    assert held + more == stream;
    if ParseFrame(held) != NeedMore {
      ParseStable(held, more);
      assert [] + more == more;
    }
  }

  /** Bytes a frame at the head of the stream takes; one more than there are if the stream stops short. */
  function Needed(stream: seq<Byte>): nat {
    match ParseFrame(stream)
    case Frame(p, _) => 4 + |p|
    case TooLarge => 4
    case NeedMore => |stream| + 1
  }

  /** Bytes that are no frame yet are fewer than the frame needs. */
  lemma HeldBelowNeeded(held: seq<Byte>, more: seq<Byte>)
    requires ParseFrame(held) == NeedMore
    ensures |held| < Needed(held + more)
  {
    hide BigEndian; hide FromBigEndian;
    if |held| >= 4 {
      assert (held + more)[..4] == held[..4];
    }
  }

  /**
   Calls the resumable reader until it returns a frame or an error, at most so many times. The
   answer is the blocking reader's; without one, some call blocked, or all calls took bytes and
   what they took is no frame yet.
   */
  method ReadResuming(wire: Wire, r: FrameReader, calls: nat) returns (x: Option<Result<Payload, IoError>>)
    requires wire.Valid() && r.Valid() && r.Partial() == []
    modifies wire, r, r.lenBuf, r.frame
    ensures wire.Valid() && r.Valid() && wire.sent == old(wire.sent) && old(wire.taken) <= wire.taken
    ensures x.Some? ==> Answer(wire.sent[old(wire.taken)..], x.value, wire.sent[wire.taken..],
                               wire.closed && wire.taken == |wire.sent|, wire.readFaults > old(wire.readFaults))
    ensures x.None? ==> wire.readBlocks > old(wire.readBlocks) || calls < Needed(wire.sent[old(wire.taken)..])
    ensures wire.readFaults >= old(wire.readFaults) && wire.readBlocks >= old(wire.readBlocks)
  {
    hide ParseFrame; hide Outcome; hide FrameReader.Valid; hide FrameReader.Partial; hide Needed;
    ghost var stream := wire.sent[wire.taken..];
    assert r.Partial() + wire.sent[wire.taken..] == stream;
    ShortStream([], 0);
    var n := 0;
    while n < calls
      invariant n <= calls
      invariant wire.Valid() && r.Valid() && wire.sent == old(wire.sent) && old(wire.taken) <= wire.taken
      invariant r.frame == old(r.frame) || r.frame == null || fresh(r.frame)
      invariant r.Partial() + wire.sent[wire.taken..] == stream && ParseFrame(r.Partial()) == NeedMore
      invariant wire.readFaults >= old(wire.readFaults) && wire.readBlocks >= old(wire.readBlocks)
      invariant wire.readBlocks > old(wire.readBlocks) || |r.Partial()| >= n
    {
      ghost var before, start := r.Partial(), wire.taken;
      var got := r.ReadFrame(wire);
      r.PartialIsIncomplete();
      OutcomeOfStream(before, wire.sent, start, wire.taken, got, r.Partial(), stream);
      if got.Err? {
        assert wire.taken == |wire.sent| ==> r.Partial() + [] == r.Partial();
        return Some(Err(got.error));
      }
      if got.value.Some? {
        return Some(Ok(got.value.value));
      }
      n := n + 1;
    }
    HeldBelowNeeded(r.Partial(), wire.sent[wire.taken..]);
    return None;
  }

  /**
   The resumable reader refines the blocking one. On two wires with the same bytes to come, in
   whatever portions either wire gives them: whatever the resumable reader answers, unless one
   of the wires fails or blocks, is what the blocking one answers, be it a frame, a refusal or
   the end of the stream, and the same bytes are left after a frame. With as many calls as the
   frame has bytes it does answer.
   */
  method ReadBoth(a: Wire, r: FrameReader, calls: nat, b: Wire)
    returns (x: Option<Result<Payload, IoError>>, y: Result<Payload, IoError>)
    requires a.Valid() && b.Valid() && a != b && r.Valid() && r.Partial() == []
    requires a.sent[a.taken..] == b.sent[b.taken..]
    modifies a, r, r.lenBuf, r.frame, b
    ensures a.Valid() && b.Valid() && b.sent == old(b.sent)
    ensures x.Some? && x.value.Ok? && y.Ok? ==> x.value == y && a.sent[a.taken..] == b.sent[b.taken..]
    ensures x == Some(Err(FrameTooLarge)) ==> !y.Ok?
    ensures y == Err(FrameTooLarge) ==> !(x.Some? && x.value.Ok?)
    ensures Answer(b.sent[old(b.taken)..], y, b.sent[b.taken..], b.closed && b.taken == |b.sent|,
                   b.readFaults > old(b.readFaults) || b.readBlocks > old(b.readBlocks))
    ensures && a.readFaults == old(a.readFaults) && a.readBlocks == old(a.readBlocks)
            && b.readFaults == old(b.readFaults) && b.readBlocks == old(b.readBlocks)
            ==> (x.Some? ==> x.value == y) && (calls >= Needed(old(a.sent[a.taken..])) ==> x == Some(y))
  {
    hide ParseFrame; hide Needed;
    x := ReadResuming(a, r, calls);
    y := ReadFrameBlocking(b);
  }

  // ----- A whole link -----

  datatype LinkOp = DoEnqueue(payload: Payload) | DoFlush | DoRead

  /** The bytes of enqueued frames are on the wire or pending; those read are delivered or held. */
  ghost predicate Linked(w: FrameWriter, wire: Wire, r: FrameReader, enqueued: seq<Payload>, delivered: seq<Payload>)
    reads w, wire, r, r.lenBuf, r.frame
  {
    && w.Valid() && wire.Valid() && r.Valid()
    && AllSmall(enqueued) && AllSmall(delivered)
    && wire.sent + w.Pending() == EncodeFrames(enqueued)
    && EncodeFrames(delivered) + r.Partial() == wire.sent[..wire.taken]
  }

  lemma LinkedInOrder(w: FrameWriter, wire: Wire, r: FrameReader, enqueued: seq<Payload>, delivered: seq<Payload>)
    requires Linked(w, wire, r, enqueued, delivered)
    ensures delivered <= enqueued && w.Valid()
    ensures ParseFrame(r.Partial()) == NeedMore
    ensures w.Pending() == [] && wire.taken == |wire.sent| ==> delivered == enqueued && r.Partial() == []
  {
    var tail := wire.sent[wire.taken..] + w.Pending();
    assert EncodeFrames(delivered) + r.Partial() + tail == EncodeFrames(enqueued) by {
      assert wire.sent == wire.sent[..wire.taken] + wire.sent[wire.taken..];
    }
    r.PartialIsIncomplete();
    DeliveredInOrder(enqueued, delivered, r.Partial(), tail);
  }

  /** The payloads the script enqueues, in order. */
  function EnqueuedBy(script: seq<LinkOp>): seq<Payload> {
    if script == [] then []
    else
      var last := script[|script| - 1];
      EnqueuedBy(script[..|script| - 1]) + if last.DoEnqueue? then [last.payload] else []
  }

  function ReadsIn(script: seq<LinkOp>): nat {
    if script == [] then 0 else ReadsIn(script[..|script| - 1]) + if script[|script| - 1].DoRead? then 1 else 0
  }

  /** The frames among the results of the reads, in order. */
  function FramesIn(results: seq<ReadOutcome>): seq<Payload> {
    if results == [] then []
    else
      var last := results[|results| - 1];
      FramesIn(results[..|results| - 1]) + if last.Ok? && last.value.Some? then [last.value.value] else []
  }

  /**
   Any interleaving of enqueues, flushes and reads on a new link, over a wire that takes and
   gives bytes in any portions. Every byte of the frames the script enqueues is on the wire or
   pending, in order, and nothing else is; every byte read belongs to a frame delivered or to
   the one being read. So the frames the reads return are a prefix of those enqueued, no read
   refuses a frame, and once nothing is pending and everything sent is read they are all of them.
   */
  method RunLink(script: seq<LinkOp>, w: FrameWriter, wire: Wire, r: FrameReader) returns (results: seq<ReadOutcome>)
    requires forall i :: 0 <= i < |script| && script[i].DoEnqueue? ==> |script[i].payload| <= MAX_FRAME
    requires Linked(w, wire, r, [], [])
    modifies w, wire, r, r.lenBuf, r.frame
    ensures Linked(w, wire, r, EnqueuedBy(script), FramesIn(results))
    ensures |results| == ReadsIn(script) && Err(FrameTooLarge) !in results
    ensures FramesIn(results) <= EnqueuedBy(script)
    ensures w.Valid() && (!w.HasPending() && wire.taken == |wire.sent| ==> FramesIn(results) == EnqueuedBy(script))
  {
    hide Linked; hide EnqueuedBy; hide FramesIn; hide ReadsIn;
    results := [];
    StartOfLink(script);
    for i := 0 to |script|
      invariant r.frame == old(r.frame) || r.frame == null || fresh(r.frame)
      invariant Linked(w, wire, r, EnqueuedBy(script[..i]), FramesIn(results))
      invariant |results| == ReadsIn(script[..i]) && Err(FrameTooLarge) !in results
    {
      OneMoreOp(script, i);
      assert EnqueuedBy(script[..i]) + [] == EnqueuedBy(script[..i]);
      match script[i] {
        case DoEnqueue(p) => EnqueueOnce(w, wire, r, EnqueuedBy(script[..i]), FramesIn(results), p);
        case DoFlush => FlushOnce(w, wire, r, EnqueuedBy(script[..i]), FramesIn(results));
        case DoRead =>
          var got := ReadOnce(w, wire, r, EnqueuedBy(script[..i]), FramesIn(results));
          OneMoreRead(results, got);
          results := results + [got];
      }
    }
    assert script[..|script|] == script;
    LinkedInOrder(w, wire, r, EnqueuedBy(script), FramesIn(results));
  }

  lemma StartOfLink(script: seq<LinkOp>)
    ensures EnqueuedBy(script[..0]) == [] && ReadsIn(script[..0]) == 0 && FramesIn([]) == []
  {
  }

  lemma OneMoreOp(script: seq<LinkOp>, n: nat)
    requires n < |script|
    ensures EnqueuedBy(script[..n + 1]) == EnqueuedBy(script[..n]) + if script[n].DoEnqueue? then [script[n].payload] else []
    ensures ReadsIn(script[..n + 1]) == ReadsIn(script[..n]) + if script[n].DoRead? then 1 else 0
  {
    assert script[..n + 1][..n] == script[..n];
  }

  lemma OneMoreRead(results: seq<ReadOutcome>, got: ReadOutcome)
    ensures FramesIn(results + [got]) == FramesIn(results) + if got.Ok? && got.value.Some? then [got.value.value] else []
  {
    assert (results + [got])[..|results|] == results;
  }

  method EnqueueOnce(w: FrameWriter, ghost wire: Wire, ghost r: FrameReader, ghost enqueued: seq<Payload>, ghost delivered: seq<Payload>, p: Payload)
    requires Linked(w, wire, r, enqueued, delivered) && |p| <= MAX_FRAME
    modifies w
    ensures Linked(w, wire, r, enqueued + [p], delivered)
  {
    hide EncodeFrames; hide EncodeFrame; hide FrameReader.Valid; hide FrameReader.Partial;
    EncodeFramesSnoc(enqueued, p);
    assert wire.sent + (w.Pending() + EncodeFrame(p)) == wire.sent + w.Pending() + EncodeFrame(p);
    w.Enqueue(p);
  }

  method FlushOnce(w: FrameWriter, wire: Wire, ghost r: FrameReader, ghost enqueued: seq<Payload>, ghost delivered: seq<Payload>)
    requires Linked(w, wire, r, enqueued, delivered)
    modifies w, wire
    ensures Linked(w, wire, r, enqueued, delivered)
  {
    ghost var sent := wire.sent;
    var flushed := w.Flush(wire);
    assert wire.sent[..wire.taken] == sent[..wire.taken];
  }

  method ReadOnce(ghost w: FrameWriter, wire: Wire, r: FrameReader, ghost enqueued: seq<Payload>, ghost delivered: seq<Payload>)
    returns (got: ReadOutcome)
    requires Linked(w, wire, r, enqueued, delivered)
    modifies r, r.lenBuf, r.frame, wire
    ensures Linked(w, wire, r, enqueued, delivered + if got.Ok? && got.value.Some? then [got.value.value] else [])
    ensures got != Err(FrameTooLarge)
    ensures r.frame == old(r.frame) || r.frame == null || fresh(r.frame)
  {
    hide EncodeFrames; hide ParseFrame; hide Outcome;
    ghost var start, before := wire.taken, r.Partial();
    got := r.ReadFrame(wire);
    Received(delivered, before, wire.sent, start, wire.taken, got, r.Partial());
    ghost var delivered' := delivered + if got.Ok? && got.value.Some? then [got.value.value] else [];
    LinkedInOrder(w, wire, r, enqueued, delivered');
  }

  /** What one read means for the frames delivered so far and the bytes held. */
  lemma Received(delivered: seq<Payload>, before: seq<Byte>, sent: seq<Byte>, start: nat, taken: nat,
                 got: ReadOutcome, left: seq<Byte>)
    requires AllSmall(delivered) && start <= taken <= |sent|
    requires EncodeFrames(delivered) + before == sent[..start]
    requires Outcome(before + sent[start..taken], Some(got), left)
    ensures var delivered' := delivered + if got.Ok? && got.value.Some? then [got.value.value] else [];
            AllSmall(delivered') && EncodeFrames(delivered') + left == sent[..taken]
    ensures got == Err(FrameTooLarge) ==> ParseFrame(left) == TooLarge
  {
    hide EncodeFrames; hide ParseFrame;
    assert delivered + [] == delivered;
    var held := before + sent[start..taken];
    HeldJoins(delivered, before, sent, start, taken);
    if got.Ok? && got.value.Some? {
      ParsedIsEncoded(held, got.value.value);
      EncodeFramesSnoc(delivered, got.value.value);
      assert EncodeFrames(delivered + [got.value.value]) + [] == EncodeFrames(delivered) + held;
    }
  }

  lemma HeldJoins(delivered: seq<Payload>, before: seq<Byte>, sent: seq<Byte>, start: nat, taken: nat)
    requires AllSmall(delivered) && start <= taken <= |sent|
    requires EncodeFrames(delivered) + before == sent[..start]
    ensures EncodeFrames(delivered) + (before + sent[start..taken]) == sent[..taken]
  {
  }
}
