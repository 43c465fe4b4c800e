/** Reading frames from a byte source that delivers its bytes in pieces of any size
    (src/app/itch_replay.cpp), and the producer's loop that decodes them. */
module FrameReader {
  import opened Bits
  import opened Common
  import opened Itch
  import opened ItchCodec
  import opened ItchLayout

  /** A file or gzip stream: `rest` has yet to be delivered, in pieces whose sizes nothing is known about;
      then comes the end, or, when the source is `broken`, a read error. */
  class ByteSource {
    var rest: seq<Byte>
    const broken: bool

    constructor (bytes: seq<Byte>, broken: bool)
      ensures rest == bytes && this.broken == broken
    {
      rest := bytes;
      this.broken := broken;
    }

    /** Deliver 1 to `capacity` bytes into `output` from `at` on; 0 at the end, -1 on an error. */
    method ReadAtMost(output: array<Byte>, at: nat, capacity: nat) returns (read: int)
      requires capacity > 0 && at + capacity <= output.Length
      modifies this, output
      ensures if old(rest) == [] then read == (if broken then -1 else 0) else 1 <= read <= capacity && read <= |old(rest)|
      ensures old(rest) == [] ==> rest == [] && output[..] == old(output[..])
      ensures old(rest) != [] ==>
        rest == old(rest)[read..] && output[..at + read] == old(output[..at] + rest[..read])
    {
      if rest == [] {
        return if broken then -1 else 0;
      }
      var most := if capacity < |rest| then capacity else |rest|;
      var n :| 1 <= n <= most;
      for i := 0 to n
        invariant rest == old(rest)
        invariant output[..at + i] == old(output[..at]) + rest[..i]
      {
        output[at + i] := rest[i];
      }
      rest := rest[n..];
      read := n;
    }
  }

  datatype ReadFault = InputFailed | TruncatedPrefix | TruncatedPayload

  datatype FrameRead = Frame | EndOfFile | ReadError(fault: ReadFault)

  /** How reading a frame ends, given all the bytes that are left and how the source ends. */
  function FrameStatus(rest: seq<Byte>, broken: bool): FrameRead {
    if rest == [] then if broken then ReadError(InputFailed) else EndOfFile
    else if |rest| < 2 then ReadError(if broken then InputFailed else TruncatedPrefix)
    else if |rest| < 2 + Read2(rest, 0) then ReadError(if broken then InputFailed else TruncatedPayload)
    else Frame
  }

  /** The loop that fills what is left of a buffer, piece by piece; `read` is the answer of the last read. */
  method Fill(source: ByteSource, output: array<Byte>, at: nat) returns (read: int, filled: bool)
    requires at <= output.Length
    modifies source, output
    ensures filled <==> output.Length - at <= |old(source.rest)|
    ensures filled ==> source.rest == old(source.rest)[output.Length - at..]
    ensures filled ==> output[..] == old(output[..at] + source.rest[..output.Length - at])
    ensures !filled ==> read == if source.broken then -1 else 0
  {
    ghost var all, before := source.rest, output[..at];
    var done := at;
    read := 0;
    while done < output.Length
      invariant at <= done <= output.Length && Delivered(all, before, done - at, source.rest, output[..done])
      decreases output.Length - done
    {
      ghost var left, sofar := source.rest, output[..done];
      read := source.ReadAtMost(output, done, output.Length - done);
      if read <= 0 {
        return read, false;
      }
      DeliveredMore(all, before, done - at, left, sofar, read);
      done := done + read;
    }
    assert output[..] == output[..done];
    return read, true;
  }

  /** `n` bytes of `all` have been delivered behind `before`, and `left` have not. */
  ghost predicate Delivered(all: seq<Byte>, before: seq<Byte>, n: nat, left: seq<Byte>, now: seq<Byte>) {
    n <= |all| && left == all[n..] && now == before + all[..n]
  }

  lemma DeliveredMore(all: seq<Byte>, before: seq<Byte>, n: nat, left: seq<Byte>, now: seq<Byte>, read: nat)
    requires Delivered(all, before, n, left, now) && read <= |left|
    ensures Delivered(all, before, n + read, left[read..], now + left[..read])
  {
    assert all[..n + read] == all[..n] + left[..read];
  }

  /** next_frame: its answer and the frame depend only on the bytes that are left, not on the sizes of
      the pieces they come in. */
  method NextFrame(source: ByteSource) returns (status: FrameRead, frame: array<Byte>)
    modifies source
    ensures status == FrameStatus(old(source.rest), source.broken) && fresh(frame)
    ensures status.Frame? ==> IsFrame(frame[..]) && old(source.rest) == frame[..] + source.rest
  {
    hide BigEndian;
    frame := new Byte[0];
    ghost var all := source.rest;
    var prefix := new Byte[2];
    var read := source.ReadAtMost(prefix, 0, 2);
    if read < 0 {
      return ReadError(InputFailed), frame;
    }
    if read == 0 {
      return EndOfFile, frame;
    }
    var filled;
    read, filled := Fill(source, prefix, read);
    if !filled {
      return ReadError(if read == 0 then TruncatedPrefix else InputFailed), frame;
    }
    assert prefix[..] == all[..2] && all == prefix[..] + source.rest;
    label Prefixed:
    status, frame := ReadPayload(source, prefix[0], prefix[1]);
    assert all == [prefix[0], prefix[1]] + old@Prefixed(source.rest);
  }

  /** The rest of next_frame, once it has the length prefix. */
  method ReadPayload(source: ByteSource, first: Byte, second: Byte) returns (status: FrameRead, frame: array<Byte>)
    modifies source
    ensures fresh(frame) && status == FrameStatus([first, second] + old(source.rest), source.broken)
    ensures status.Frame? ==> IsFrame(frame[..]) && [first, second] + old(source.rest) == frame[..] + source.rest
  {
    hide BigEndian;
    ghost var all := [first, second] + source.rest;
    var high: nat := first;
    var payloadSize := BitOr(high * 0x100, second);
    PrefixValue(all, first, second);
    frame := new Byte[2 + payloadSize];
    frame[0], frame[1] := first, second;
    assert frame[..2] == [first, second];
    var read, filled := Fill(source, frame, 2);
    if !filled {
      return ReadError(if read == 0 then TruncatedPayload else InputFailed), frame;
    }
    assert all == frame[..] + source.rest;
    PrefixValue(frame[..], first, second);
    status := Frame;
  }

  lemma PrefixValue(bytes: seq<Byte>, first: Byte, second: Byte)
    requires |bytes| >= 2 && bytes[0] == first && bytes[1] == second
    ensures BitOr(first * 0x100, second) == Read2(bytes, 0) == 0x100 * first + second
  {
    Pow2Values();
    OrDisjoint(first, second, 8);
    var b := bytes[0..2];
    assert b[..1] == [first] && [first][..0] == [];
    assert BigEndian([first]) == first;
  }

  // ---- the producer's loop ----

  datatype StreamEnd = AtEnd | ReadFailed(fault: ReadFault) | DecodeFailed(code: DecodeErrorCode)

  /** The events of a whole byte string, decoded frame after frame, and how the decoding ends: at the end,
      with a decode error, or, where the decoder asks for more data, with a read error. */
  function Decoded(input: seq<Byte>, broken: bool): (r: (seq<ItchEvent>, StreamEnd))
    decreases |input|
  {
    if input == [] then ([], if broken then ReadFailed(InputFailed) else AtEnd)
    else
      match DecodeNext(input)
      case Complete(event, n) =>
        ConsumesSome(input);
        var later := Decoded(input[n..], broken);
        ([event] + later.0, later.1)
      case NeedMoreData =>
        ([], ReadFailed(if broken then InputFailed else if |input| < 2 then TruncatedPrefix else TruncatedPayload))
      case Error(code, _) => ([], DecodeFailed(code))
  }

  lemma ConsumesSome(input: seq<Byte>)
    ensures DecodeNext(input).Complete? ==> 0 < DecodeNext(input).bytesConsumed <= |input|
  {
    hide DecodeEvent, MessageLength, BigEndian;
  }

  /** The producer thread without its queue: read a frame, decode it, hand its event on. However the source
      cuts its bytes up, the events and the end are those of the whole byte string. */
  method Produce(source: ByteSource) returns (events: seq<ItchEvent>, end: StreamEnd)
    modifies source
    ensures (events, end) == Decoded(old(source.rest), source.broken)
  {
    hide Decoded, DecodeNext, FrameStatus;
    events := [];
    ghost var whole := Decoded(source.rest, source.broken);
    assert [] + whole.0 == whole.0;
    while true
      invariant whole.0 == events + Decoded(source.rest, source.broken).0
      invariant whole.1 == Decoded(source.rest, source.broken).1
      decreases |source.rest|
    {
      ghost var left := source.rest;
      var status, frame := NextFrame(source);
      StatusMeans(left, source.broken);
      if status.EndOfFile? {
        assert whole.0 == events;
        return events, AtEnd;
      }
      if status.ReadError? {
        assert whole.0 == events;
        return events, ReadFailed(status.fault);
      }
      FrameMeans(frame[..], source.rest, source.broken);
      var decoded := DecodeNext(frame[..]);
      if !decoded.Complete? {
        assert whole.0 == events;
        return events, DecodeFailed(decoded.code);
      }
      assert whole.0 == events + [decoded.event] + Decoded(source.rest, source.broken).0;
      events := events + [decoded.event];
    }
  }

  /** Reading no whole frame is what an incomplete tail amounts to. */
  lemma StatusMeans(rest: seq<Byte>, broken: bool)
    ensures FrameStatus(rest, broken).EndOfFile? ==> Decoded(rest, broken) == ([], AtEnd)
    ensures FrameStatus(rest, broken).ReadError? ==> Decoded(rest, broken) == ([], ReadFailed(FrameStatus(rest, broken).fault))
  {
  }

  /** A frame that was read is never incomplete for the decoder, which consumes all of it. */
  lemma FrameMeans(f: seq<Byte>, rest: seq<Byte>, broken: bool)
    requires IsFrame(f)
    ensures match DecodeNext(f)
            case Complete(event, n) =>
              n == |f| && Decoded(f + rest, broken) == ([event] + Decoded(rest, broken).0, Decoded(rest, broken).1)
            case NeedMoreData => false
            case Error(code, _) => Decoded(f + rest, broken) == ([], DecodeFailed(code))
  {
    FrameDecides(f, rest, 0);
    FrameConsumed(f);
    hide DecodeNext;
    assert (f + rest)[|f|..] == rest;
  }

  lemma FrameConsumed(f: seq<Byte>)
    requires IsFrame(f)
    ensures DecodeNext(f).Complete? ==> DecodeNext(f).bytesConsumed == |f|
  {
    hide DecodeEvent, MessageLength, BigEndian;
  }

  /** Where the decoder asks for more data, and only there, the reader reports a fault or the end. */
  lemma IncompleteTail(rest: seq<Byte>, broken: bool)
    ensures DecodeNext(rest).NeedMoreData? <==> !FrameStatus(rest, broken).Frame?
  {
    hide DecodeEvent, MessageLength, BigEndian;
  }

  /** How reading a frame ends, byte by byte: a source that fails reports just that. */
  lemma StatusIs(rest: seq<Byte>, broken: bool)
    ensures FrameStatus(rest, broken).Frame? <==> |rest| >= 2 && |rest| >= 2 + Num16(rest, 0)
    ensures FrameStatus(rest, broken).EndOfFile? <==> rest == [] && !broken
    ensures FrameStatus(rest, broken) == ReadError(InputFailed) <==>
      broken && (|rest| < 2 || |rest| < 2 + Num16(rest, 0))
    ensures FrameStatus(rest, broken) == ReadError(TruncatedPrefix) <==> !broken && |rest| == 1
    ensures FrameStatus(rest, broken) == ReadError(TruncatedPayload) <==>
      !broken && 2 <= |rest| < 2 + Num16(rest, 0)
  {
    hide Read2, Num16;
    ReadIs(rest, 0);
  }

  /** What a string of bytes decodes to, byte by byte: without a whole frame at its front nothing, and the end
      says why; a frame that says nothing stops the decoding; and otherwise the first event is what the first
      frame says, and the others are those of the bytes behind it. */
  lemma DecodedMeans(input: seq<Byte>, broken: bool)
    ensures var d := Decoded(input, broken);
      if |input| < 2 || |input| < 2 + Num16(input, 0) then
        d == ([], if broken then ReadFailed(InputFailed) else if input == [] then AtEnd
                  else if |input| == 1 then ReadFailed(TruncatedPrefix) else ReadFailed(TruncatedPayload))
      else
        var m := input[2..2 + Num16(input, 0)];
        if m == [] then d == ([], DecodeFailed(InvalidFrameLength))
        else if !Fits(m) then d == ([], DecodeFailed(UnexpectedMessageLength))
        else if !Sided(m) then d == ([], DecodeFailed(InvalidSide))
        else d.0 != [] && Says(m, d.0[0]) && (d.0[1..], d.1) == Decoded(input[2 + |m|..], broken)
  {
    hide Num16, DecodeNext, Fits, Sided, Says;
    DecodeMeans(input);
  }

  function EncodeAll(events: seq<ItchEvent>): seq<Byte>
    requires forall e :: e in events ==> !e.SkippedMessage?
  {
    if events == [] then [] else Encode(events[0]) + EncodeAll(events[1..])
  }

  /** A file written from any list of events is decoded back to that list, and then goes on with what follows. */
  lemma {:induction false} FileRoundTrip(events: seq<ItchEvent>, tail: seq<Byte>, broken: bool)
    requires forall e :: e in events ==> !e.SkippedMessage?
    ensures Decoded(EncodeAll(events) + tail, broken) == (events + Decoded(tail, broken).0, Decoded(tail, broken).1)
    decreases |events|
  {
    hide Decoded, Encode, EncodeAll;
    WholeFile(events);
    if events == [] {
      assert EncodeAll(events) + tail == tail;
      assert events + Decoded(tail, broken).0 == Decoded(tail, broken).0;
    } else {
      var e, later := events[0], events[1..];
      FileRoundTrip(later, tail, broken);
      EventThenRest(e, EncodeAll(later) + tail, broken);
      assert EncodeAll(events) + tail == Encode(e) + (EncodeAll(later) + tail);
      var more := Decoded(tail, broken).0;
      assert events + more == [e] + (later + more);
    }
  }

  lemma WholeFile(events: seq<ItchEvent>)
    requires forall e :: e in events ==> !e.SkippedMessage?
    ensures EncodeAll(events) == if events == [] then [] else Encode(events[0]) + EncodeAll(events[1..])
  {
  }

  lemma EventThenRest(e: ItchEvent, rest: seq<Byte>, broken: bool)
    requires !e.SkippedMessage?
    ensures Decoded(Encode(e) + rest, broken) == ([e] + Decoded(rest, broken).0, Decoded(rest, broken).1)
  {
    hide Decoded, Encode, DecodeNext;
    EncodeIsFrame(e);
    DecodeOfEncode(e, []);
    assert Encode(e) + [] == Encode(e);
    FrameMeans(Encode(e), rest, broken);
  }
}
