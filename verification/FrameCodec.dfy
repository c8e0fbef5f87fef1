/** Wire frames, and the streams of frames that daemon and client read. */
module FrameCodec {
  import opened Bytes
  import opened LengthPrefixed

  const MIN_FRAME: nat := 5
  const MAX_FRAME: nat := 16 * 1024 * 1024

  datatype FrameType = Request | Response | Event

  datatype Frame = Frame(frameType: FrameType, correlationId: u32, payload: seq<byte>)

  type u32 = x: int | 0 <= x < U32

  function TypeByte(t: FrameType): byte {
    match t
    case Request => 1
    case Response => 2
    case Event => 3
  }

  /** `FrameType::try_from`. */
  function TypeOf(b: byte): (t: Option<FrameType>)
    ensures t.Some? <==> 1 <= b <= 3
    ensures t.Some? ==> TypeByte(t.value) == b
  {
    if b == 1 then Some(Request)
    else if b == 2 then Some(Response)
    else if b == 3 then Some(Event)
    else None
  }

  function FrameBody(f: Frame): (body: seq<byte>)
    ensures |body| == 5 + |f.payload|
  {
    [TypeByte(f.frameType)] + BigEndian(f.correlationId) + f.payload
  }

  method Encode(f: Frame) returns (buf: seq<byte>)
    ensures buf == Record(FrameBody(f))
  {
    var totalLen := 1 + 4 + |f.payload|;
    buf := [];
    buf := buf + BigEndian(totalLen % U32);
    buf := buf + [TypeByte(f.frameType)];
    buf := buf + BigEndian(f.correlationId);
    buf := buf + f.payload;
  }

  /** `Frame::decode`; `None` is an error. */
  function Decode(data: seq<byte>): (f: Option<Frame>)
    ensures f.Some? ==> |data| == 5 + |f.value.payload|
  {
    if |data| < 5 || TypeOf(data[0]).None? then None
    else Some(Frame(TypeOf(data[0]).value, FromBigEndian(data[1..5]), data[5..]))
  }

  lemma DecodeInvertsBody(f: Frame)
    ensures Decode(FrameBody(f)) == Some(f)
  {
    var body := FrameBody(f);
    assert body[1..5] == BigEndian(f.correlationId);
    assert body[5..] == f.payload;
    BigEndianRoundTrip(f.correlationId);
  }

  lemma Layout(len: nat, t: byte, id: nat, payload: seq<byte>)
    requires len < U32 && id < U32
    ensures var s := BigEndian(len) + ([t] + BigEndian(id) + payload);
      && |s| == 9 + |payload| && WordAt(s, 0) == len && s[4] == t && WordAt(s, 5) == id && s[9..] == payload
  {
    var s := BigEndian(len) + ([t] + BigEndian(id) + payload);
    WordAtWritten([], len, [t] + BigEndian(id) + payload);
    assert s == [] + BigEndian(len) + ([t] + BigEndian(id) + payload);
    WordAtWritten(BigEndian(len) + [t], id, payload);
    assert s == BigEndian(len) + [t] + BigEndian(id) + payload;
  }

  lemma RecordOfFrame(f: Frame)
    requires 5 + |f.payload| < U32
    ensures Record(FrameBody(f)) ==
      BigEndian(5 + |f.payload|) + ([TypeByte(f.frameType)] + BigEndian(f.correlationId) + f.payload)
  {
  }

  /** The bytes of a frame: the length of what follows in four bytes, the type, the correlation id in
      four bytes, the payload. Words are written with the most significant byte first. */
  lemma EncodedBytes(f: Frame)
    requires 5 + |f.payload| < 0x1_0000_0000
    ensures var s := Record(FrameBody(f));
      && |s| == 9 + |f.payload| && WordAt(s, 0) == 5 + |f.payload|
      && s[4] == (match f.frameType case Request => 1 case Response => 2 case Event => 3)
      && WordAt(s, 5) == f.correlationId && s[9..] == f.payload
  {
    Layout(5 + |f.payload|, TypeByte(f.frameType), f.correlationId, f.payload);
    RecordOfFrame(f);
  }

  datatype Reading = Got(frame: Frame, rest: seq<byte>) | Disconnected | Failed

  /** The daemon's `read_frame`: a stream that ends inside a length counts as a clean disconnect, one
      that ends inside a body, a bad length and a bad body are errors. */
  function ReadFrame(stream: seq<byte>): (r: Reading)
    ensures r.Got? ==> |r.rest| < |stream|
  {
    match Next(stream, MIN_FRAME, MAX_FRAME)
    case Eof => Disconnected
    case BadLength => Failed
    case Torn => Failed
    case Body(body, rest) =>
      var f := Decode(body);
      if f.Some? then Got(f.value, rest) else Failed
  }

  lemma ReadSlices(stream: seq<byte>, len: nat)
    requires 5 <= len && 4 + len <= |stream|
    ensures var body := stream[4..4 + len];
      body[0] == stream[4] && body[1..5] == stream[5..9] && body[5..] == stream[9..4 + len]
  {
    var body := stream[4..4 + len];
    forall i | 0 <= i < 4 ensures body[1..5][i] == stream[5..9][i] {
      assert body[1 + i] == stream[5 + i];
    }
    assert forall i :: 0 <= i < |body| ==> body[i] == stream[4 + i];
  }

  /** What `read_frame` makes of any bytes whatever. */
  lemma ReadFrameBytes(stream: seq<byte>)
    ensures |stream| < 4 ==> ReadFrame(stream) == Disconnected
    ensures |stream| >= 4 ==>
      var len := WordAt(stream, 0);
      ReadFrame(stream) ==
        if len < 5 || len > 16_777_216 || |stream| < 4 + len || stream[4] !in {1, 2, 3} then Failed
        else Got(Frame(if stream[4] == 1 then Request else if stream[4] == 2 then Response else Event,
                       WordAt(stream, 5), stream[9..4 + len]),
                 stream[4 + len..])
  {
    if |stream| >= 4 {
      WordAtReads(stream, 0);
      assert stream[..4] == stream[0..4];
      var len := WordAt(stream, 0);
      if 5 <= len <= 16_777_216 && 4 + len <= |stream| {
        ReadSlices(stream, len);
        WordAtReads(stream, 5);
      }
    }
  }

  datatype Stream = Stream(frames: seq<Frame>, end: Reading)

  function ParseAll(stream: seq<byte>): Stream
    decreases |stream|
  {
    var r := ReadFrame(stream);
    if r.Got? then
      var tail := ParseAll(r.rest);
      Stream([r.frame] + tail.frames, tail.end)
    else Stream([], r)
  }

  /** The reading loop of a connection. */
  method ReadFrames(stream: seq<byte>) returns (frames: seq<Frame>, end: Reading)
    ensures Stream(frames, end) == ParseAll(stream)
  {
    frames := [];
    var unread := stream;
    while true
      invariant ParseAll(stream) == Stream(frames + ParseAll(unread).frames, ParseAll(unread).end)
      decreases |unread|
    {
      end := ReadFrame(unread);
      if !end.Got? {
        assert frames + [] == frames;
        return;
      }
      ConcatAssoc(frames, [end.frame], ParseAll(end.rest).frames);
      frames := frames + [end.frame];
      unread := end.rest;
    }
  }

  predicate Sendable(f: Frame) {
    |f.payload| + 5 <= MAX_FRAME
  }

  ghost predicate AllSendable(frames: seq<Frame>) {
    forall i :: 0 <= i < |frames| ==> Sendable(frames[i])
  }

  function EncodeAll(frames: seq<Frame>): seq<byte> {
    if frames == [] then [] else Record(FrameBody(frames[0])) + EncodeAll(frames[1..])
  }

  lemma ReadEncoded(f: Frame, tail: seq<byte>)
    requires Sendable(f)
    ensures ReadFrame(Record(FrameBody(f)) + tail) == Got(f, tail)
  {
    NextOfRecord(FrameBody(f), tail, MIN_FRAME, MAX_FRAME);
    DecodeInvertsBody(f);
  }

  /** A frame comes back exactly when its body is at most 16 MiB; a larger one, even one whose length
      wraps around to a small number, is never read as itself. */
  lemma FrameRoundTripIff(f: Frame, tail: seq<byte>)
    ensures ReadFrame(Record(FrameBody(f)) + tail) == Got(f, tail) <==> Sendable(f)
  {
    if Sendable(f) {
      ReadEncoded(f, tail);
    } else {
      NextWithinLimits(Record(FrameBody(f)) + tail, MIN_FRAME, MAX_FRAME);
    }
  }

  lemma ParseEncoded(f: Frame, tail: seq<byte>)
    requires Sendable(f)
    ensures ParseAll(Record(FrameBody(f)) + tail) == Stream([f] + ParseAll(tail).frames, ParseAll(tail).end)
  {
    ReadEncoded(f, tail);
  }

  /** Reading stops with an error at a frame that is too long. */
  lemma ParseUnsendable(f: Frame, tail: seq<byte>)
    requires !Sendable(f) && 5 + |f.payload| < U32
    ensures ParseAll(Record(FrameBody(f)) + tail) == Stream([], Failed)
  {
    LengthOfRecord(FrameBody(f), tail);
  }

  /** Encoded frames are parsed back to the same list, and reading goes on behind them. */
  lemma {:induction false} StreamRoundTrip(frames: seq<Frame>, tail: seq<byte>)
    requires AllSendable(frames)
    ensures ParseAll(EncodeAll(frames) + tail)
         == Stream(frames + ParseAll(tail).frames, ParseAll(tail).end)
  {
    if frames == [] {
      assert EncodeAll(frames) + tail == tail;
      assert frames + ParseAll(tail).frames == ParseAll(tail).frames;
    } else {
      ConcatAssoc(Record(FrameBody(frames[0])), EncodeAll(frames[1..]), tail);
      ReadEncoded(frames[0], EncodeAll(frames[1..]) + tail);
      StreamRoundTrip(frames[1..], tail);
      ConsConcat(frames, ParseAll(tail).frames);
    }
  }

  function FrameSize(f: Frame): nat {
    4 + 5 + |f.payload|
  }

  /** How many of the frames lie wholly in the first `k` bytes of their stream. */
  function WholeFrames(frames: seq<Frame>, k: nat): (m: nat)
    ensures m <= |frames|
  {
    if frames == [] || k < FrameSize(frames[0]) then 0
    else 1 + WholeFrames(frames[1..], k - FrameSize(frames[0]))
  }

  lemma PrefixCons(frames: seq<Frame>, m: nat)
    requires m < |frames|
    ensures frames[..m + 1] == [frames[0]] + frames[1..][..m]
    ensures |EncodeAll(frames[..m + 1])| == FrameSize(frames[0]) + |EncodeAll(frames[1..][..m])|
  {
    assert frames[..m + 1][1..] == frames[1..][..m];
  }

  lemma WholeFramesCons(frames: seq<Frame>, k: nat)
    requires frames != [] && k >= FrameSize(frames[0])
    ensures var m := WholeFrames(frames[1..], k - FrameSize(frames[0]));
      && frames[..WholeFrames(frames, k)] == [frames[0]] + frames[1..][..m]
      && |EncodeAll(frames[..WholeFrames(frames, k)])| == FrameSize(frames[0]) + |EncodeAll(frames[1..][..m])|
  {
    PrefixCons(frames, WholeFrames(frames[1..], k - FrameSize(frames[0])));
  }

  lemma {:induction false} WholeFramesFit(frames: seq<Frame>, k: nat)
    ensures |EncodeAll(frames[..WholeFrames(frames, k)])| <= k
    ensures WholeFrames(frames, k) < |frames| ==> k < |EncodeAll(frames[..WholeFrames(frames, k) + 1])|
    decreases frames
  {
    if frames != [] {
      PrefixCons(frames, 0);
      if k >= FrameSize(frames[0]) {
        var m := WholeFrames(frames[1..], k - FrameSize(frames[0]));
        WholeFramesFit(frames[1..], k - FrameSize(frames[0]));
        PrefixCons(frames, m);
        if m + 1 < |frames| {
          PrefixCons(frames, m + 1);
        }
      }
    }
  }

  /** A cut inside the first frame leaves no frame. */
  lemma CutFirstFrame(frames: seq<Frame>, k: nat)
    requires frames != [] && Sendable(frames[0]) && k < FrameSize(frames[0])
    requires k <= |EncodeAll(frames)|
    ensures ParseAll(EncodeAll(frames)[..k]) == Stream([], if k < 4 then Disconnected else Failed)
  {
    var body := FrameBody(frames[0]);
    assert EncodeAll(frames)[..k] == Record(body)[..k];
    CutFirst(body, k, MIN_FRAME, MAX_FRAME);
  }

  lemma CutBytes(frames: seq<Frame>, k: nat)
    requires frames != [] && FrameSize(frames[0]) <= k <= |EncodeAll(frames)|
    ensures EncodeAll(frames)[..k]
         == Record(FrameBody(frames[0])) + EncodeAll(frames[1..])[..k - FrameSize(frames[0])]
  {
    TakeConcat(Record(FrameBody(frames[0])), EncodeAll(frames[1..]), k - FrameSize(frames[0]));
  }

  /** A cut behind the first frame leaves it readable. */
  lemma CutLaterFrame(frames: seq<Frame>, k: nat)
    requires frames != [] && Sendable(frames[0]) && FrameSize(frames[0]) <= k <= |EncodeAll(frames)|
    ensures ParseAll(EncodeAll(frames)[..k])
         == var later := ParseAll(EncodeAll(frames[1..])[..k - FrameSize(frames[0])]);
            Stream([frames[0]] + later.frames, later.end)
  {
    CutBytes(frames, k);
    ParseEncoded(frames[0], EncodeAll(frames[1..])[..k - FrameSize(frames[0])]);
  }

  /** The first `k` bytes of a stream of frames parse to the frames that lie wholly in them: a prefix
      of the list. */
  lemma {:induction false} StreamPrefix(frames: seq<Frame>, k: nat)
    requires AllSendable(frames) && k <= |EncodeAll(frames)|
    ensures ParseAll(EncodeAll(frames)[..k]).frames == frames[..WholeFrames(frames, k)]
    decreases frames
  {
    if frames != [] {
      var n := FrameSize(frames[0]);
      if k < n {
        CutFirstFrame(frames, k);
      } else {
        CutLaterFrame(frames, k);
        StreamPrefix(frames[1..], k - n);
        WholeFramesCons(frames, k);
      }
    }
  }

  /** How the daemon sees the end of the first `k` bytes: as a disconnect between frames or inside a
      length, as an error inside a body. */
  function EndOfCut(frames: seq<Frame>, k: nat): Reading {
    if k < |EncodeAll(frames[..WholeFrames(frames, k)])| + 4 then Disconnected else Failed
  }

  lemma EndOfCutCons(frames: seq<Frame>, k: nat)
    requires frames != [] && k >= FrameSize(frames[0])
    ensures EndOfCut(frames, k) == EndOfCut(frames[1..], k - FrameSize(frames[0]))
  {
    WholeFramesCons(frames, k);
  }

  lemma EndOfFirst(frames: seq<Frame>, k: nat)
    requires frames != [] && k < FrameSize(frames[0])
    ensures EndOfCut(frames, k) == if k < 4 then Disconnected else Failed
  {
    assert EncodeAll(frames[..0]) == [];
  }

  lemma {:induction false} StreamPrefixEnd(frames: seq<Frame>, k: nat)
    requires AllSendable(frames) && k <= |EncodeAll(frames)|
    ensures ParseAll(EncodeAll(frames)[..k]).end == EndOfCut(frames, k)
    decreases frames
  {
    if frames != [] {
      var n := FrameSize(frames[0]);
      if k < n {
        CutFirstFrame(frames, k);
        EndOfFirst(frames, k);
      } else {
        CutLaterFrame(frames, k);
        StreamPrefixEnd(frames[1..], k - n);
        EndOfCutCons(frames, k);
      }
    }
  }

  /** Framing is prefix-free: no encoding starts another frame's encoding. */
  lemma PrefixFree(f: Frame, g: Frame, tail: seq<byte>)
    requires Sendable(f) && Sendable(g)
    requires Record(FrameBody(f)) + tail == Record(FrameBody(g))
    ensures f == g
  {
    ReadEncoded(f, tail);
    ReadEncoded(g, []);
    assert Record(FrameBody(g)) + [] == Record(FrameBody(g));
  }

  /** Two lists of frames with the same bytes are the same list. */
  lemma StreamInjective(frames: seq<Frame>, others: seq<Frame>)
    requires AllSendable(frames) && AllSendable(others)
    requires EncodeAll(frames) == EncodeAll(others)
    ensures frames == others
  {
    StreamRoundTrip(frames, []);
    StreamRoundTrip(others, []);
    assert EncodeAll(frames) + [] == EncodeAll(others) + [];
    assert ParseAll([]).frames == [];
    assert frames + [] == frames && others + [] == others;
  }
}
