/** The request loop of an authenticated connection: requests are read and answered one at a time,
    while forwarders put events into the same channel to the writer task. */
module Connection {
  import opened Bytes
  import opened FrameCodec

  const CHANNEL: nat := 256

  /** A frame from the client; `decodes` says whether its payload is a request the daemon knows. */
  datatype Incoming = Incoming(frameType: FrameType, id: nat, decodes: bool)

  /** A frame to the client; `fits` says whether it is short enough for the client to accept. */
  datatype Outgoing = EventFrame(fits: bool) | ResponseFrame(id: nat, fits: bool)

  datatype Server = Server(
    inbox: seq<Incoming>, read: nat, busy: Option<Incoming>, running: bool,
    channel: seq<Outgoing>, socket: seq<Outgoing>, writer: bool)

  datatype Step =
    | Arrive(frame: Incoming)  // the client sends a frame
    | Read                     // the loop takes the next frame
    | Respond(fits: bool)      // the loop sends the response to the request it handles
    | Emit(fits: bool)         // a forwarder or the history replay sends an event
    | Write                    // the writer task writes a frame to the socket
    | WriterStops              // the writer task fails; the channel is closed
    | LoopStops                // the connection ends or a response cannot be encoded

  function Start(): Server {
    Server([], 0, None, true, [], [], true)
  }

  predicate Enabled(s: Server, step: Step) {
    match step
    case Arrive(_) => true
    case Read => s.running && s.busy.None? && s.read < |s.inbox|
    case Respond(_) => s.running && s.busy.Some? && (s.writer ==> |s.channel| < CHANNEL)
    case Emit(_) => s.writer && |s.channel| < CHANNEL
    case Write => s.writer && s.channel != []
    case WriterStops => true
    case LoopStops => true
  }

  /** When the writer is gone, the answer to a request that did not decode is dropped and the loop
      goes on; any other answer ends the loop. */
  function Next(s: Server, step: Step): Server
    requires Enabled(s, step)
  {
    match step
    case Arrive(frame) => s.(inbox := s.inbox + [frame])
    case Read =>
      var frame := s.inbox[s.read];
      s.(read := s.read + 1, busy := if frame.frameType.Request? then Some(frame) else None)
    case Respond(fits) =>
      if s.writer then s.(channel := s.channel + [ResponseFrame(s.busy.value.id, fits)], busy := None)
      else s.(running := !s.busy.value.decodes, busy := None)
    case Emit(fits) => s.(channel := s.channel + [EventFrame(fits)])
    case Write => s.(socket := s.socket + [s.channel[0]], channel := s.channel[1..])
    case WriterStops => s.(writer := false)
    case LoopStops => s.(running := false)
  }

  ghost predicate IsRun(steps: seq<Step>) {
    steps == [] ||
    (IsRun(steps[..|steps| - 1]) && Enabled(After(steps[..|steps| - 1]), steps[|steps| - 1]))
  }

  ghost function After(steps: seq<Step>): Server {
    if steps == [] then Start()
    else
      var s := After(steps[..|steps| - 1]);
      if Enabled(s, steps[|steps| - 1]) then Next(s, steps[|steps| - 1]) else s
  }

  /** The ids of the requests among some incoming frames, in order. */
  function Requests(frames: seq<Incoming>): seq<nat> {
    if frames == [] then []
    else
      var last := frames[|frames| - 1];
      Requests(frames[..|frames| - 1]) + if last.frameType.Request? then [last.id] else []
  }

  /** The ids of the responses among some outgoing frames, in order. */
  function Responses(frames: seq<Outgoing>): seq<nat> {
    if frames == [] then []
    else
      var last := frames[|frames| - 1];
      Responses(frames[..|frames| - 1]) + if last.ResponseFrame? then [last.id] else []
  }

  function Handling(s: Server): seq<nat> {
    if s.busy.Some? then [s.busy.value.id] else []
  }

  /** While the writer lives, every request that was read has been answered once, in order, except the
      one being handled. */
  ghost predicate Inv(s: Server) {
    && s.read <= |s.inbox|
    && (s.busy.Some? ==> s.busy.value.frameType.Request?)
    && Responses(s.socket + s.channel) <= Requests(s.inbox[..s.read])
    && (s.writer ==> Responses(s.socket + s.channel) + Handling(s) == Requests(s.inbox[..s.read]))
  }

  lemma ResponsesSnoc(frames: seq<Outgoing>, f: Outgoing)
    ensures Responses(frames + [f]) == Responses(frames) + if f.ResponseFrame? then [f.id] else []
  {
    assert (frames + [f])[..|frames|] == frames;
  }

  lemma RequestsNext(frames: seq<Incoming>, i: nat)
    requires i < |frames|
    ensures Requests(frames[..i + 1]) == Requests(frames[..i]) + if frames[i].frameType.Request? then [frames[i].id] else []
  {
    assert frames[..i + 1][..i] == frames[..i];
  }

  lemma {:induction false} RequestsPrefix(frames: seq<Incoming>, more: seq<Incoming>)
    ensures Requests(frames) <= Requests(frames + more)
    decreases |more|
  {
    if more == [] {
      assert frames + more == frames;
    } else {
      InitConcat(frames, more);
      RequestsPrefix(frames, more[..|more| - 1]);
    }
  }

  lemma {:induction false} ResponsesPrefix(frames: seq<Outgoing>, more: seq<Outgoing>)
    ensures Responses(frames) <= Responses(frames + more)
    decreases |more|
  {
    if more == [] {
      assert frames + more == frames;
    } else {
      InitConcat(frames, more);
      ResponsesPrefix(frames, more[..|more| - 1]);
    }
  }

  lemma ReadKeeps(s: Server)
    requires Inv(s) && Enabled(s, Read)
    ensures Inv(Next(s, Read))
  {
    RequestsNext(s.inbox, s.read);
    NothingMore(Responses(s.socket + s.channel));
  }

  lemma NothingMore(ids: seq<nat>)
    ensures ids + [] == ids
  {
  }

  lemma PushKeeps(s: Server, step: Step)
    requires Inv(s) && Enabled(s, step) && (step.Respond? || step.Emit?)
    ensures Inv(Next(s, step))
  {
    var sent := s.socket + s.channel;
    NothingMore(Responses(sent));
    if step.Emit? {
      ConcatAssoc(s.socket, s.channel, [EventFrame(step.fits)]);
      ResponsesSnoc(sent, EventFrame(step.fits));
    } else {
      ConcatAssoc(s.socket, s.channel, [ResponseFrame(s.busy.value.id, step.fits)]);
      ResponsesSnoc(sent, ResponseFrame(s.busy.value.id, step.fits));
      NothingMore(Requests(s.inbox[..s.read]));
    }
  }

  lemma StepKeepsInv(s: Server, step: Step)
    requires Inv(s) && Enabled(s, step)
    ensures Inv(Next(s, step))
  {
    match step
    case Arrive(frame) => assert (s.inbox + [frame])[..s.read] == s.inbox[..s.read];
    case Read => ReadKeeps(s);
    case Respond(_) => PushKeeps(s, step);
    case Emit(_) => PushKeeps(s, step);
    case Write =>
      HeadTail(s.channel);
      ConcatAssoc(s.socket, [s.channel[0]], s.channel[1..]);
    case WriterStops =>
    case LoopStops =>
  }

  lemma {:induction false} RunKeepsInv(steps: seq<Step>)
    requires IsRun(steps)
    ensures Inv(After(steps))
  {
    if steps != [] {
      RunKeepsInv(steps[..|steps| - 1]);
      StepKeepsInv(After(steps[..|steps| - 1]), steps[|steps| - 1]);
    } else {
      assert Start().inbox[..0] == [];
    }
  }

  /** The responses on the wire carry, in order and once each, the ids of a prefix of the requests
      that arrived, whatever events are interleaved and whether or not the writer fails. */
  lemma ResponsesFollowRequests(steps: seq<Step>)
    requires IsRun(steps)
    ensures Responses(After(steps).socket) <= Requests(After(steps).inbox)
  {
    var s := After(steps);
    RunKeepsInv(steps);
    ResponsesPrefix(s.socket, s.channel);
    TakeDrop(s.inbox, s.read);
    RequestsPrefix(s.inbox[..s.read], s.inbox[s.read..]);
  }

  /** No request is left out: while the writer lives, when nothing is being handled and the channel is
      empty, the ids on the wire are those of all requests read. */
  lemma EveryRequestIsAnswered(steps: seq<Step>)
    requires IsRun(steps)
    requires var s := After(steps); s.writer && s.busy.None? && s.channel == []
    ensures var s := After(steps); s.read <= |s.inbox| && Responses(s.socket) == Requests(s.inbox[..s.read])
  {
    var s := After(steps);
    RunKeepsInv(steps);
    assert s.socket + [] == s.socket;
    NothingMore(Responses(s.socket));
  }

  lemma Extend(steps: seq<Step>, step: Step)
    requires IsRun(steps) && Enabled(After(steps), step)
    ensures IsRun(steps + [step]) && After(steps + [step]) == Next(After(steps), step)
  {
    assert (steps + [step])[..|steps|] == steps;
  }

  /** The loop waits for the next frame, and nothing has failed. */
  ghost predicate Healthy(s: Server) {
    s.running && s.writer && s.busy.None?
  }

  lemma {:induction false} Flush(before: seq<Step>) returns (steps: seq<Step>)
    requires IsRun(before) && After(before).writer
    ensures IsRun(steps) && After(steps).channel == []
    ensures After(steps) == After(before).(channel := [], socket := After(steps).socket)
    decreases |After(before).channel|
  {
    if After(before).channel == [] {
      steps := before;
    } else {
      Extend(before, Write);
      steps := Flush(before + [Write]);
    }
  }

  lemma AnswerOne(before: seq<Step>, fits: bool) returns (steps: seq<Step>)
    requires IsRun(before) && Healthy(After(before)) && After(before).read < |After(before).inbox|
    ensures IsRun(steps) && Healthy(After(steps)) && After(steps).inbox == After(before).inbox
    ensures After(steps).read == After(before).read + 1
  {
    var empty := Flush(before);
    Extend(empty, Read);
    steps := empty + [Read];
    if After(steps).busy.Some? {
      Extend(steps, Respond(fits));
      steps := steps + [Respond(fits)];
    }
  }

  lemma AllRead(inbox: seq<Incoming>, read: nat)
    requires read == |inbox|
    ensures inbox[..read] == inbox
  {
  }

  /** Nothing gets stuck: every request that has arrived can be answered, however many there are. */
  lemma {:induction false} AllCanBeAnswered(before: seq<Step>, fits: bool) returns (steps: seq<Step>)
    requires IsRun(before) && Healthy(After(before)) && After(before).read <= |After(before).inbox|
    ensures IsRun(steps) && After(steps).inbox == After(before).inbox
    ensures Responses(After(steps).socket) == Requests(After(before).inbox)
    decreases |After(before).inbox| - After(before).read
  {
    if After(before).read < |After(before).inbox| {
      var next := AnswerOne(before, fits);
      steps := AllCanBeAnswered(next, fits);
    } else {
      steps := Flush(before);
      EveryRequestIsAnswered(steps);
      AllRead(After(before).inbox, After(steps).read);
    }
  }

  /** The channel never holds more than 256 frames, and events wait only when it is full. */
  lemma {:induction false} ChannelBounded(steps: seq<Step>)
    requires IsRun(steps)
    ensures |After(steps).channel| <= 256
    ensures After(steps).writer && |After(steps).channel| < 256 ==> Enabled(After(steps), Emit(true))
  {
    if steps != [] {
      ChannelBounded(steps[..|steps| - 1]);
    }
  }

  /** How many frames a client can read: those before the first that is too long. */
  function Readable(frames: seq<Outgoing>): (n: nat)
    ensures n <= |frames|
    ensures n < |frames| ==> !frames[n].fits
    ensures forall i :: 0 <= i < n ==> frames[i].fits
  {
    if frames == [] || !frames[0].fits then 0 else 1 + Readable(frames[1..])
  }

  /** `send_request`: events are skipped, the first response is taken; a frame that is too long is an
      error, even an event. */
  method TakeResponse(frames: seq<Outgoing>) returns (found: bool, id: nat, read: nat)
    ensures found <==> Responses(frames[..Readable(frames)]) != []
    ensures found ==> [id] <= Responses(frames)
    ensures read <= |frames| && (found ==> Responses(frames[..read]) == [id])
  {
    found, id, read := false, 0, 0;
    while read < |frames| && frames[read].fits
      invariant read <= Readable(frames)
      invariant Responses(frames[..read]) == []
    {
      var frame := frames[read];
      ResponsesSnoc(frames[..read], frame);
      TakeSnoc(frames, read);
      read := read + 1;
      if frame.ResponseFrame? {
        ResponsesOfPrefix(frames, read, Readable(frames));
        ResponsesOfPrefix(frames, read, |frames|);
        TakeAll(frames);
        return true, frame.id, read;
      }
    }
  }

  lemma ResponsesOfPrefix(frames: seq<Outgoing>, m: nat, n: nat)
    requires m <= n <= |frames|
    ensures Responses(frames[..m]) <= Responses(frames[..n])
  {
    ResponsesPrefix(frames[..m], frames[m..n]);
    assert frames[..m] + frames[m..n] == frames[..n];
  }

  /** A client that sends its next request only after the response to the last one takes its own: when
      it has consumed `n` frames with `k` responses in them, the next response on the wire is the one
      to its request number `k`. */
  lemma FirstResponseIsOwn(steps: seq<Step>, n: nat, k: nat)
    requires IsRun(steps) && n <= |After(steps).socket|
    requires |Responses(After(steps).socket[..n])| == k
    requires Responses(After(steps).socket[n..]) != []
    ensures k < |Requests(After(steps).inbox)|
    ensures Responses(After(steps).socket[n..])[0] == Requests(After(steps).inbox)[k]
  {
    var socket := After(steps).socket;
    ResponsesFollowRequests(steps);
    TakeDrop(socket, n);
    ResponsesConcat(socket[..n], socket[n..]);
    assert Responses(socket)[k] == Responses(socket[n..])[0];
  }

  lemma {:induction false} ResponsesConcat(a: seq<Outgoing>, b: seq<Outgoing>)
    ensures Responses(a + b) == Responses(a) + Responses(b)
    decreases |b|
  {
    if b == [] {
      assert a + b == a;
    } else {
      InitConcat(a, b);
      ResponsesConcat(a, b[..|b| - 1]);
    }
  }
}
