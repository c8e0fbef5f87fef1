/** The client side of an attach: history up to the first response, then the live reader. Both give up
    at a frame that is longer than a client accepts. */
module AttachClient {
  import opened Bytes
  import opened Attach
  import opened ChunkCodec
  import opened Retention
  import FrameCodec
  import LengthPrefixed

  /** How the daemon packs its frames; MessagePack is a parameter. */
  type Packing = Frame -> FrameCodec.Frame

  /** An output event takes at least a byte for every byte of its data. */
  ghost predicate KeepsData(pack: Packing) {
    forall f: Frame :: f.Output? ==> |f.data| <= |pack(f).payload|
  }

  predicate Fits(pack: Packing, f: Frame) {
    FrameCodec.Sendable(pack(f))
  }

  datatype Outcome = ExitReported | Disconnected | AttachFailed

  /** The first frame at or behind `from` that is too long for the client, or the number of frames. */
  function FirstUnfit(pack: Packing, frames: seq<Frame>, from: nat := 0): (k: nat)
    requires from <= |frames|
    ensures from <= k <= |frames|
    ensures k < |frames| ==> !Fits(pack, frames[k])
    ensures forall i :: from <= i < k ==> Fits(pack, frames[i])
    decreases |frames| - from
  {
    if from == |frames| || !Fits(pack, frames[from]) then from else FirstUnfit(pack, frames, from + 1)
  }

  /** The first response at or behind `from`, or the number of frames. */
  function FirstReply(frames: seq<Frame>, from: nat := 0): (r: nat)
    requires from <= |frames|
    ensures from <= r <= |frames|
    ensures r < |frames| ==> frames[r].Reply?
    ensures forall i :: from <= i < r ==> !frames[i].Reply?
    decreases |frames| - from
  {
    if from == |frames| || frames[from].Reply? then from else FirstReply(frames, from + 1)
  }

  /** The first exit event at or behind `from`, or the number of frames. */
  function FirstExit(frames: seq<Frame>, from: nat): (x: nat)
    requires from <= |frames|
    ensures from <= x <= |frames|
    ensures x < |frames| ==> frames[x].Exited?
    ensures forall i :: from <= i < x ==> !frames[i].Exited?
    decreases |frames| - from
  {
    if from == |frames| || frames[from].Exited? then from else FirstExit(frames, from + 1)
  }

  /** What the user is shown, and how the attach ends, when the socket delivers these frames and then
      closes. */
  ghost predicate Rendered(pack: Packing, frames: seq<Frame>, shown: seq<byte>, outcome: Outcome) {
    var end := FirstUnfit(pack, frames);
    var r := FirstReply(frames);
    if r >= end then shown == [] && outcome == AttachFailed
    else
      var x := Min(FirstExit(frames, r + 1), end);
      shown == Outputs(frames[..x]) && outcome == if x < end then ExitReported else Disconnected
  }

  // ---------------------------------------------------------------- the bytes behind the frames

  function Packed(pack: Packing, frames: seq<Frame>): (packed: seq<FrameCodec.Frame>)
    ensures |packed| == |frames|
    ensures forall i :: 0 <= i < |frames| ==> packed[i] == pack(frames[i])
  {
    if frames == [] then [] else [pack(frames[0])] + Packed(pack, frames[1..])
  }

  /** A reader got the first `k` of these frames, and an error at the next one if there is one. */
  ghost predicate ReadUpTo(frames: seq<FrameCodec.Frame>, k: nat, stream: FrameCodec.Stream) {
    && k <= |frames| && stream.frames == frames[..k]
    && stream.end == if k < |frames| then FrameCodec.Failed else FrameCodec.Disconnected
  }

  lemma ReadUpToCons(f: FrameCodec.Frame, rest: seq<FrameCodec.Frame>, k: nat, stream: FrameCodec.Stream)
    requires ReadUpTo(rest, k, stream)
    ensures ReadUpTo([f] + rest, k + 1, FrameCodec.Stream([f] + stream.frames, stream.end))
  {
    TakeConcat([f], rest, k);
  }

  lemma FirstUnfitCons(pack: Packing, frames: seq<Frame>)
    requires frames != []
    ensures FirstUnfit(pack, frames) == if Fits(pack, frames[0]) then 1 + FirstUnfit(pack, frames[1..]) else 0
  {
    var k, later := FirstUnfit(pack, frames), FirstUnfit(pack, frames[1..]);
    if Fits(pack, frames[0]) {
      assert later < |frames[1..]| ==> !Fits(pack, frames[later + 1]);
      assert forall i :: 1 <= i <= later ==> frames[i] == frames[1..][i - 1];
      assert k < |frames| ==> frames[1..][k - 1] == frames[k];
    }
  }

  /** On the bytes of the socket: the frames that the client's codec yields are those before the first
      that is too long, and that one is an error. */
  lemma {:induction false} ReadableFrames(pack: Packing, frames: seq<Frame>)
    requires forall f :: f in frames ==> 5 + |pack(f).payload| < U32
    ensures ReadUpTo(Packed(pack, frames), FirstUnfit(pack, frames),
                     FrameCodec.ParseAll(FrameCodec.EncodeAll(Packed(pack, frames))))
  {
    if frames != [] {
      var f, rest := pack(frames[0]), Packed(pack, frames[1..]);
      assert Packed(pack, frames) == [f] + rest && ([f] + rest)[1..] == rest;
      assert frames[0] in frames;
      FirstUnfitCons(pack, frames);
      if Fits(pack, frames[0]) {
        FrameCodec.ParseEncoded(f, FrameCodec.EncodeAll(rest));
        ReadableFrames(pack, frames[1..]);
        ReadUpToCons(f, rest, FirstUnfit(pack, frames[1..]), FrameCodec.ParseAll(FrameCodec.EncodeAll(rest)));
      } else {
        FrameCodec.ParseUnsendable(f, FrameCodec.EncodeAll(rest));
      }
    }
  }

  // ---------------------------------------------------------------- the two readers

  lemma OutputsNext(frames: seq<Frame>, i: nat)
    requires i < |frames|
    ensures Outputs(frames[..i + 1]) == Outputs(frames[..i]) + if frames[i].Output? then frames[i].data else []
  {
    TakeSnoc(frames, i);
    OutputsSnoc(frames[..i], frames[i]);
  }

  /** `shown` is the output of the frames from `from` to `to`. */
  ghost predicate ShownBetween(frames: seq<Frame>, from: nat, to: nat, shown: seq<byte>)
    requires from <= to <= |frames|
  {
    Outputs(frames[..from]) + shown == Outputs(frames[..to])
  }

  lemma ShowNext(frames: seq<Frame>, from: nat, i: nat, shown: seq<byte>)
    requires from <= i < |frames| && ShownBetween(frames, from, i, shown)
    ensures ShownBetween(frames, from, i + 1, if frames[i].Output? then shown + frames[i].data else shown)
  {
    OutputsNext(frames, i);
    var data := if frames[i].Output? then frames[i].data else [];
    ConcatAssoc(Outputs(frames[..from]), shown, data);
    assert Outputs(frames[..i]) + [] == Outputs(frames[..i]);
  }

  lemma ShowNothing(frames: seq<Frame>, from: nat)
    requires from <= |frames|
    ensures ShownBetween(frames, from, from, [])
  {
  }

  /** `send_request_with_history`, from the first frame that follows the request. */
  method CaptureHistory(pack: Packing, frames: seq<Frame>) returns (ok: bool, history: seq<byte>, read: nat)
    ensures ok <==> FirstReply(frames) < FirstUnfit(pack, frames)
    ensures ok ==> read == FirstReply(frames) + 1 && ShownBetween(frames, 0, read, history)
  {
    history, read := [], 0;
    ShowNothing(frames, 0);
    while read < |frames| && Fits(pack, frames[read])
      invariant read <= FirstUnfit(pack, frames) && read <= FirstReply(frames)
      invariant ShownBetween(frames, 0, read, history)
    {
      ShowNext(frames, 0, read, history);
      var frame := frames[read];
      read := read + 1;
      if frame.Reply? {
        return true, history, read;
      }
      if frame.Output? {
        history := history + frame.data;
      }
    }
    ok := false;
  }

  /** The socket reader task, from frame `from` on. */
  method ReadLive(pack: Packing, frames: seq<Frame>, from: nat) returns (live: seq<byte>, outcome: Outcome)
    requires from <= FirstUnfit(pack, frames)
    ensures var x := Min(FirstExit(frames, from), FirstUnfit(pack, frames));
      && ShownBetween(frames, from, x, live)
      && outcome == if x < FirstUnfit(pack, frames) then ExitReported else Disconnected
  {
    live := [];
    var i := from;
    ShowNothing(frames, from);
    while i < |frames| && Fits(pack, frames[i])
      invariant from <= i <= FirstUnfit(pack, frames) && i <= FirstExit(frames, from)
      invariant ShownBetween(frames, from, i, live)
    {
      ShowNext(frames, from, i, live);
      var frame := frames[i];
      if frame.Exited? {
        return live, ExitReported;
      }
      if frame.Output? {
        live := live + frame.data;
      }
      i := i + 1;
    }
    outcome := Disconnected;
  }

  method RunAttach(pack: Packing, frames: seq<Frame>) returns (shown: seq<byte>, outcome: Outcome)
    ensures Rendered(pack, frames, shown, outcome)
  {
    var ok, history, read := CaptureHistory(pack, frames);
    if !ok {
      return [], AttachFailed;
    }
    var live;
    live, outcome := ReadLive(pack, frames, read);
    shown := history + live;
    assert frames[..0] == [] && Outputs([]) + history == history;
  }

  // ---------------------------------------------------------------- what is shown

  /** Without a response that the client can read, the attach fails and shows nothing. */
  lemma UnansweredShowsNothing(pack: Packing, frames: seq<Frame>, shown: seq<byte>, outcome: Outcome)
    requires Rendered(pack, frames, shown, outcome)
    requires forall i :: 0 <= i < |frames| && frames[i].Reply? ==> exists j :: 0 <= j < i && !Fits(pack, frames[j])
    ensures shown == [] && outcome == AttachFailed
  {
    var r := FirstReply(frames);
    if r < |frames| {
      var j :| 0 <= j < r && !Fits(pack, frames[j]);
    }
  }

  lemma OutputsPrefix(frames: seq<Frame>, x: nat)
    requires x <= |frames|
    ensures Outputs(frames[..x]) <= Outputs(frames)
  {
    TakeDrop(frames, x);
    OutputsConcat(frames[..x], frames[x..]);
  }

  lemma ShownIsPrefix(pack: Packing, frames: seq<Frame>, shown: seq<byte>, outcome: Outcome)
    requires Rendered(pack, frames, shown, outcome)
    ensures shown <= Outputs(frames)
  {
    if !outcome.AttachFailed? {
      OutputsPrefix(frames, Min(FirstExit(frames, FirstReply(frames) + 1), FirstUnfit(pack, frames)));
    }
  }

  /** Whatever the daemon sends, what the user is shown are published bytes at strictly increasing
      positions of the stream. */
  lemma ShownIsSubsequence(pack: Packing, steps: seq<Step>, shown: seq<byte>, outcome: Outcome) returns (pos: seq<nat>)
    requires IsRun(steps) && Rendered(pack, After(steps).socket, shown, outcome)
    ensures Embeds(pos, shown, Flatten(After(steps).published))
  {
    var s := After(steps);
    var all := ClientSeesSubsequence(steps);
    ShownIsPrefix(pack, s.socket, shown, outcome);
    EmbedPrefix(all, Outputs(s.socket), Flatten(s.published), shown);
    pos := all[..|shown|];
  }

  /** The attach is the first request after authentication. */
  ghost predicate AttachesFirst(steps: seq<Step>) {
    steps == [] ||
    (var before, last := steps[..|steps| - 1], steps[|steps| - 1];
     AttachesFirst(before) && (last.PushReply? ==> !After(before).handler.Waiting?))
  }

  /** Responses, the exit event and the events of single messages are short; only a history can be
      too long. */
  ghost predicate LiveFits(pack: Packing, published: seq<Msg>) {
    && Fits(pack, Exited)
    && (forall id :: Fits(pack, Reply(id)))
    && (forall k :: 0 <= k < |published| ==> Fits(pack, Output(published[k])))
  }

  /** The history event, once it has been sent; there is none for an empty history. */
  function HistoryEvent(h: Handler): (events: seq<Frame>)
    ensures |events| <= 1
  {
    if h.Waiting? || h.Replaying? || h.snap.text == [] then [] else [Output(h.snap.text)]
  }

  ghost predicate HistoryFits(pack: Packing, h: Handler) {
    HistoryEvent(h) == [] || Fits(pack, HistoryEvent(h)[0])
  }

  /** The queue of a connection that attaches first: the history event, then short frames, and no
      response before that of the attach. */
  ghost predicate QueueInv(pack: Packing, s: System) {
    && HistoryEvent(s.handler) <= Queued(s)
    && (s.handler.Waiting? || s.handler.Replaying? ==> Queued(s) == [])
    && (s.handler.Replaying? ==> s.handler.snap.text != [])
    && (forall i :: |HistoryEvent(s.handler)| <= i < |Queued(s)| ==> Fits(pack, Queued(s)[i]))
    && (forall i :: 0 <= i < |Queued(s)| && Queued(s)[i].Reply? ==> s.handler.Serving?)
    && (s.fwd.Running? && s.fwd.held.Some? ==> Fits(pack, s.fwd.held.value))
  }

  lemma PushKeepsQueue(pack: Packing, s: System, next: System, f: Frame)
    requires QueueInv(pack, s) && Queued(next) == Queued(s) + [f] && Fits(pack, f)
    requires !s.handler.Waiting? && !s.handler.Replaying? && !next.handler.Waiting? && !next.handler.Replaying?
    requires next.handler.snap == s.handler.snap
    requires s.handler.Serving? || f.Reply? ==> next.handler.Serving?
    requires next.fwd.Running? && next.fwd.held.Some? ==> Fits(pack, next.fwd.held.value)
    ensures QueueInv(pack, next)
  {
    var before, after := Queued(s), Queued(s) + [f];
    assert forall i :: 0 <= i < |before| ==> after[i] == before[i];
    assert after[|before|] == f;
  }

  lemma PushHistoryKeepsQueue(pack: Packing, s: System)
    requires QueueInv(pack, s) && s.fwd.NotSpawned? && Enabled(s, PushHistory)
    ensures QueueInv(pack, Next(s, PushHistory))
  {
    var next, event := Next(s, PushHistory), [Output(s.handler.snap.text)];
    QueuedAfter(s, PushHistory);
    assert HistoryEvent(next.handler) == event;
    assert Queued(next) == event;
  }

  /** The other steps put nothing into the channel; the forwarder may come to hold a short frame. */
  lemma QuietKeepsQueue(pack: Packing, s: System, next: System)
    requires QueueInv(pack, s) && Queued(next) == Queued(s)
    requires HistoryEvent(next.handler) == HistoryEvent(s.handler)
    requires next.handler.Serving? == s.handler.Serving?
    requires next.handler.Waiting? || next.handler.Replaying? ==> s.handler.Waiting? || s.handler.Replaying?
    requires next.handler.Replaying? ==> next.handler.snap.text != []
    requires next.fwd.Running? && next.fwd.held.Some? ==> Fits(pack, next.fwd.held.value)
    ensures QueueInv(pack, next)
  {
  }

  lemma HoldsShortFrame(pack: Packing, s: System, step: Step)
    requires QueueInv(pack, s) && Enabled(s, step) && LiveFits(pack, s.published)
    ensures var f := Next(s, step).fwd; f.Running? && f.held.Some? ==> Fits(pack, f.held.value)
  {
  }

  lemma ReplyKeepsQueue(pack: Packing, s: System, id: nat)
    requires QueueInv(pack, s) && Enabled(s, PushReply(id)) && !s.handler.Waiting? && Fits(pack, Reply(id))
    ensures QueueInv(pack, Next(s, PushReply(id)))
  {
    QueuedAfter(s, PushReply(id));
    PushKeepsQueue(pack, s, Next(s, PushReply(id)), Reply(id));
  }

  lemma ForwardKeepsQueue(pack: Packing, s: System)
    requires QueueInv(pack, s) && HandlerInv(s) && Enabled(s, ForwardPush)
    requires ForwarderInv(s.fwd, s.published, s.closed)
    ensures QueueInv(pack, Next(s, ForwardPush))
  {
    QueuedAfter(s, ForwardPush);
    PushKeepsQueue(pack, s, Next(s, ForwardPush), s.fwd.held.value);
  }

  lemma OtherKeepsQueue(pack: Packing, s: System, step: Step)
    requires QueueInv(pack, s) && Enabled(s, step) && LiveFits(pack, s.published)
    requires !step.PushHistory? && !step.PushReply? && !step.ForwardPush?
    ensures QueueInv(pack, Next(s, step))
  {
    QueuedAfter(s, step);
    assert Queued(s) + [] == Queued(s);
    HoldsShortFrame(pack, s, step);
    QuietKeepsQueue(pack, s, Next(s, step));
  }

  lemma StepKeepsQueue(pack: Packing, s: System, step: Step)
    requires Inv(s) && QueueInv(pack, s) && Enabled(s, step) && LiveFits(pack, s.published)
    requires step.PushReply? ==> !s.handler.Waiting?
    ensures QueueInv(pack, Next(s, step))
  {
    match step
    case PushHistory => PushHistoryKeepsQueue(pack, s);
    case PushReply(id) => ReplyKeepsQueue(pack, s, id);
    case ForwardPush => ForwardKeepsQueue(pack, s);
    case _ => OtherKeepsQueue(pack, s, step);
  }

  lemma LiveFitBefore(pack: Packing, s: System, step: Step)
    requires Enabled(s, step) && LiveFits(pack, Next(s, step).published)
    ensures LiveFits(pack, s.published)
  {
    if step.Publish? {
      assert forall k :: 0 <= k < |s.published| ==> Next(s, step).published[k] == s.published[k];
    }
  }

  lemma {:induction false} RunKeepsQueue(pack: Packing, steps: seq<Step>)
    requires IsRun(steps) && AttachesFirst(steps) && LiveFits(pack, After(steps).published)
    ensures QueueInv(pack, After(steps))
  {
    if steps != [] {
      var before, last := steps[..|steps| - 1], steps[|steps| - 1];
      LiveFitBefore(pack, After(before), last);
      RunKeepsQueue(pack, before);
      RunKeepsInv(before);
      StepKeepsQueue(pack, After(before), last);
    }
  }

  lemma {:induction false} NoOutputs(frames: seq<Frame>)
    requires forall i :: 0 <= i < |frames| ==> !frames[i].Output?
    ensures Outputs(frames) == []
  {
    if frames != [] {
      NoOutputs(frames[..|frames| - 1]);
    }
  }

  lemma NothingBehind(frames: seq<Frame>, x: nat)
    requires x < |frames| && frames[x].Exited? && forall j :: x < j < |frames| ==> frames[j].Reply?
    ensures Outputs(frames) == Outputs(frames[..x])
  {
    var rest := frames[x..];
    forall i | 0 <= i < |rest| ensures !rest[i].Output? {
      assert rest[i] == frames[x + i];
    }
    NoOutputs(rest);
    TakeDrop(frames, x);
    OutputsConcat(frames[..x], rest);
    assert Outputs(frames[..x]) + [] == Outputs(frames[..x]);
  }

  /** A reader that may read to the end shows everything: only responses follow an exit event. */
  lemma AllShown(pack: Packing, steps: seq<Step>, shown: seq<byte>, outcome: Outcome)
    requires IsRun(steps) && Rendered(pack, After(steps).socket, shown, outcome)
    requires FirstUnfit(pack, After(steps).socket) == |After(steps).socket| && !outcome.AttachFailed?
    ensures shown == Outputs(After(steps).socket)
  {
    var frames := After(steps).socket;
    var x := FirstExit(frames, FirstReply(frames) + 1);
    if x < |frames| {
      ExitComesLast(steps, x);
      NothingBehind(frames, x);
    } else {
      TakeAll(frames);
    }
  }

  /** The socket of a client whose attach has been answered. */
  lemma AnsweredSocket(pack: Packing, steps: seq<Step>)
    requires IsRun(steps) && AttachesFirst(steps) && LiveFits(pack, After(steps).published)
    requires FirstReply(After(steps).socket) < |After(steps).socket|
    ensures var s := After(steps);
      && s.handler.Serving? && HistoryEvent(s.handler) <= s.socket
      && FirstUnfit(pack, s.socket) == if HistoryFits(pack, s.handler) then |s.socket| else 0
  {
    var s := After(steps);
    RunKeepsQueue(pack, steps);
    assert forall i :: 0 <= i < |s.socket| ==> Queued(s)[i] == s.socket[i];
  }

  /** An attach that was answered shows every output byte that the daemon wrote, wherever the answer
      lands among the output, if and only if the history event fits one frame. When it does not, the
      attach fails and shows nothing. */
  lemma AttachShowsAllIff(pack: Packing, steps: seq<Step>, shown: seq<byte>, outcome: Outcome)
    requires IsRun(steps) && AttachesFirst(steps) && LiveFits(pack, After(steps).published)
    requires FirstReply(After(steps).socket) < |After(steps).socket|
    requires Rendered(pack, After(steps).socket, shown, outcome)
    ensures shown == Outputs(After(steps).socket) <==> HistoryFits(pack, After(steps).handler)
    ensures outcome.AttachFailed? <==> !HistoryFits(pack, After(steps).handler)
    ensures outcome.AttachFailed? ==> shown == []
  {
    var s := After(steps);
    AnsweredSocket(pack, steps);
    if HistoryFits(pack, s.handler) {
      AllShown(pack, steps, shown, outcome);
    } else {
      assert s.socket[0] == HistoryEvent(s.handler)[0];
      OutputsPrefix(s.socket, 1);
      OutputsNext(s.socket, 0);
      assert Outputs(s.socket[..1]) == s.handler.snap.text;
    }
  }

  /** The socket of an attach that was answered starts with the end of the log as it was when the history
      was taken: the last `n` bytes, or all of it. */
  lemma HistoryShownFirst(before: seq<Step>, n: nat, later: seq<Step>)
    requires var steps := before + [TakeSnapshot(n)] + later;
      IsRun(steps) && AttachesFirst(steps) && FirstReply(After(steps).socket) < |After(steps).socket|
    ensures var log := Flatten(After(before).tr.log);
      log[|log| - Min(n, |log|)..] <= Outputs(After(before + [TakeSnapshot(n)] + later).socket)
  {
    var steps := before + [TakeSnapshot(n)] + later;
    var s := After(steps);
    var small: Packing := (f: Frame) => FrameCodec.Frame(FrameCodec.Event, 0, []);
    AnsweredSocket(small, steps);
    HistoryText(before, n, later);
    if HistoryEvent(s.handler) != [] {
      assert s.socket[..1] == HistoryEvent(s.handler);
      OutputsPrefix(s.socket, 1);
      OutputsNext(s.socket, 0);
    }
  }

  /** MessagePack writes a byte of data as one or two bytes; the rest of an event is short. */
  ghost predicate AtMostDoubles(pack: Packing) {
    forall f: Frame :: f.Output? ==> |pack(f).payload| <= 2 * |f.data| + 1024
  }

  /** The longest history that fits then, whatever the transcript holds; the default is 1,048,576. */
  const SAFE_HISTORY: nat := (FrameCodec.MAX_FRAME - 5 - 1024) / 2

  lemma ShortEventFits(pack: Packing, h: Handler)
    requires AtMostDoubles(pack) && !h.Waiting? && |h.snap.text| <= SAFE_HISTORY
    ensures HistoryFits(pack, h)
  {
    var event := Output(h.snap.text);
    assert |pack(event).payload| <= 2 * |event.data| + 1024;
  }

  lemma ShortHistoryFits(pack: Packing, before: seq<Step>, n: nat, later: seq<Step>)
    requires IsRun(before + [TakeSnapshot(n)] + later) && AtMostDoubles(pack) && n <= SAFE_HISTORY
    ensures HistoryFits(pack, After(before + [TakeSnapshot(n)] + later).handler)
  {
    HistoryOf(before, n, later);
    ShortEventFits(pack, After(before + [TakeSnapshot(n)] + later).handler);
  }

  // ---------------------------------------------------------------- whether the exit is reported

  lemma {:induction false} AttachesFirstPrefix(a: seq<Step>, b: seq<Step>)
    requires AttachesFirst(a + b)
    ensures AttachesFirst(a)
    decreases |b|
  {
    if b == [] {
      assert a + b == a;
    } else {
      InitConcat(a, b);
      AttachesFirstPrefix(a, b[..|b| - 1]);
    }
  }

  lemma {:induction false} QueuedGrows(a: seq<Step>, b: seq<Step>)
    requires IsRun(a + b)
    ensures Queued(After(a)) <= Queued(After(a + b))
    ensures After(a).published <= After(a + b).published
    decreases |b|
  {
    if b == [] {
      assert a + b == a;
    } else {
      var init := b[..|b| - 1];
      InitConcat(a, b);
      QueuedGrows(a, init);
      QueuedAfter(After(a + init), b[|b| - 1]);
    }
  }

  lemma BeforeAnswer(pack: Packing, before: seq<Step>, later: seq<Step>)
    requires IsRun(before + later) && AttachesFirst(before + later)
    requires LiveFits(pack, After(before + later).published) && After(before).handler.Replying?
    ensures forall i :: 0 <= i < |Queued(After(before))| ==> !Queued(After(before))[i].Reply?
    ensures ExitInv(After(before))
  {
    RunPrefix(before, later);
    AttachesFirstPrefix(before, later);
    QueuedGrows(before, later);
    RunKeepsQueue(pack, before);
    RunKeepsExitInv(before);
  }

  lemma AnswerQueued(before: seq<Step>, id: nat, after: seq<Step>)
    requires IsRun(before + [PushReply(id)] + after)
    ensures Queued(After(before)) + [Reply(id)] <= Queued(After(before + [PushReply(id)] + after))
  {
    RunPrefix(before + [PushReply(id)], after);
    AfterSnoc(before, PushReply(id));
    QueuedAfter(After(before), PushReply(id));
    QueuedGrows(before + [PushReply(id)], after);
  }

  /** The exit of the session is reported exactly when the history fits and the forwarder has not sent
      the exit before the handler answers the attach: an exit event that overtakes the answer is read
      by the history loop, which drops it. */
  lemma ExitReportedIff(pack: Packing, before: seq<Step>, id: nat, after: seq<Step>, shown: seq<byte>, outcome: Outcome)
    requires var steps := before + [PushReply(id)] + after;
      && IsRun(steps) && AttachesFirst(steps) && LiveFits(pack, After(steps).published)
      && Rendered(pack, After(steps).socket, shown, outcome)
      && (exists r :: 0 <= r < |After(steps).socket| && After(steps).socket[r].Reply?)
      && (exists x :: 0 <= x < |After(steps).socket| && After(steps).socket[x].Exited?)
    requires After(before).handler.Replying?
    ensures outcome == ExitReported <==>
      HistoryFits(pack, After(before + [PushReply(id)] + after).handler) && !After(before).fwd.Ended?
  {
    var steps := before + [PushReply(id)] + after;
    var socket := After(steps).socket;
    AnsweredSocket(pack, steps);
    AnswerQueued(before, id, after);
    ConcatAssoc(before, [PushReply(id)], after);
    BeforeAnswer(pack, before, [PushReply(id)] + after);
    AnswerIsFirst(After(before), After(steps), id);
    var x :| 0 <= x < |socket| && socket[x].Exited?;
    ExitBehindAnswer(steps, After(before), x);
  }

  /** `now` is the state in which the handler answers the attach. */
  lemma AnswerIsFirst(now: System, s: System, id: nat)
    requires Queued(now) + [Reply(id)] <= Queued(s)
    requires forall i :: 0 <= i < |Queued(now)| ==> !Queued(now)[i].Reply?
    requires FirstReply(s.socket) < |s.socket|
    ensures FirstReply(s.socket) == |Queued(now)|
    ensures s.socket[|Queued(now)|] == Reply(id)
    ensures forall i :: 0 <= i < |Queued(now)| ==> s.socket[i] == Queued(now)[i]
  {
    var n := |Queued(now)|;
    assert Queued(s)[n] == Reply(id);
    assert forall i :: 0 <= i < n ==> Queued(s)[i] == Queued(now)[i];
    assert forall i :: 0 <= i < |s.socket| ==> Queued(s)[i] == s.socket[i];
  }

  lemma ExitBehindAnswer(steps: seq<Step>, now: System, x: nat)
    requires IsRun(steps) && ExitInv(now)
    requires var n, socket := |Queued(now)|, After(steps).socket;
      && n < |socket| && socket[n].Reply? && x < |socket| && socket[x].Exited?
      && forall i :: 0 <= i < n ==> socket[i] == Queued(now)[i]
    ensures FirstExit(After(steps).socket, |Queued(now)| + 1) < |After(steps).socket| <==> !now.fwd.Ended?
  {
    var n, socket := |Queued(now)|, After(steps).socket;
    if now.fwd.Ended? {
      var i :| 0 <= i < n && Queued(now)[i].Exited?;
      assert socket[i].Exited?;
      ExitComesLast(steps, i);
      NoExitBehind(socket, i, n + 1);
    } else {
      ExitNotQueued(now, socket, x);
      ExitBehind(socket, n + 1, x);
    }
  }

  lemma ExitNotQueued(now: System, socket: seq<Frame>, x: nat)
    requires ExitInv(now) && !now.fwd.Ended?
    requires |Queued(now)| < |socket| && socket[|Queued(now)|].Reply? && x < |socket| && socket[x].Exited?
    requires forall i :: 0 <= i < |Queued(now)| ==> socket[i] == Queued(now)[i]
    ensures x > |Queued(now)|
  {
    assert forall i :: 0 <= i < |Queued(now)| ==> !Queued(now)[i].Exited?;
  }

  lemma NoExitBehind(frames: seq<Frame>, i: nat, from: nat)
    requires i < from <= |frames| && forall j :: i < j < |frames| ==> frames[j].Reply?
    ensures FirstExit(frames, from) == |frames|
  {
  }

  lemma ExitBehind(frames: seq<Frame>, from: nat, x: nat)
    requires from <= x < |frames| && frames[x].Exited?
    ensures FirstExit(frames, from) < |frames|
  {
  }

  // ---------------------------------------------------------------- runs that go wrong

  /** The ring closes right after the subscription and the forwarder is faster than the handler: the
      daemon writes both frames and the client never learns of the exit. */
  lemma ExitDroppedExample(pack: Packing) returns (steps: seq<Step>)
    requires LiveFits(pack, [])
    ensures IsRun(steps) && After(steps).socket == [Exited, Reply(1)]
    ensures Rendered(pack, After(steps).socket, [], Disconnected)
  {
    var pushed := ExitOvertakes();
    Extend(pushed, PushReply(1));
    var answered := pushed + [PushReply(1)];
    steps := WriteTwo(answered, Exited, Reply(1));
    SwallowedFrames(pack);
  }

  lemma WriteTwo(before: seq<Step>, a: Frame, b: Frame) returns (steps: seq<Step>)
    requires IsRun(before) && After(before).socket == [] && After(before).channel == [a, b]
    ensures IsRun(steps) && After(steps).socket == [a, b]
    ensures FullReads(before) ==> FullReads(steps)
    ensures After(steps).handler == After(before).handler
  {
    Extend(before, WriteFrame);
    var once := before + [WriteFrame];
    assert After(once).socket == [a] && After(once).channel == [b];
    Extend(once, WriteFrame);
    steps := once + [WriteFrame];
  }

  lemma ExitOvertakes() returns (steps: seq<Step>)
    ensures IsRun(steps) && After(steps).handler.Replying?
    ensures After(steps).socket == [] && After(steps).channel == [Exited]
  {
    var s3 := ClosedAfterSubscribe();
    Extend(s3, ForwardReceive);
    var s4 := s3 + [ForwardReceive];
    Extend(s4, ForwardPush);
    steps := s4 + [ForwardPush];
  }

  lemma ClosedAfterSubscribe() returns (steps: seq<Step>)
    ensures IsRun(steps)
    ensures var s := After(steps);
      && s.published == [] && s.closed && s.handler.Replying?
      && s.fwd == Running(0, 0, None, [], false) && s.socket == [] && s.channel == []
  {
    var s0: seq<Step> := [];
    Extend(s0, TakeSnapshot(0));
    var s1 := s0 + [TakeSnapshot(0)];
    Extend(s1, Subscribe);
    var s2 := s1 + [Subscribe];
    Extend(s2, TranscriptStop);
    var s3 := s2 + [TranscriptStop];
    Extend(s3, CloseRing);
    steps := s3 + [CloseRing];
  }

  lemma SwallowedFrames(pack: Packing)
    requires LiveFits(pack, [])
    ensures Rendered(pack, [Exited, Reply(1)], [], Disconnected)
  {
    var frames := [Exited, Reply(1)];
    assert frames[1..] == [Reply(1)];
    assert FirstReply(frames) == 1;
    assert frames[..2] == frames;
    NoOutputs(frames);
  }

  /** Terminal output as the PTY thread reads it: one full buffer. */
  function FullRead(): (msg: Msg)
    ensures |msg| == PTY_READ
  {
    seq(PTY_READ, _ => 65)
  }

  /** A session that has published and stored `k` full buffers. */
  ghost predicate Filled(s: System, k: nat) {
    && |s.published| == k && s.tr.cursor == k && s.tr.held.None? && !s.tr.stopped && !s.closed
    && PlainSize(s.tr.log) == 8192 * k && FileSize(s.tr.log) == 8224 * k  // a chunk adds 32 bytes
    && s.handler.Waiting? && s.fwd.NotSpawned? && s.channel == [] && s.socket == []
  }

  ghost predicate FullReads(steps: seq<Step>) {
    forall step :: step in steps && step.Publish? ==> |step.msg| == PTY_READ
  }

  const MANY_READS: nat := 2049

  /** One more buffer has been published and received, and not yet stored. */
  function Received(s: System, msg: Msg): System {
    s.(published := s.published + [msg], tr := s.tr.(cursor := s.tr.cursor + 1, held := Some(s.tr.cursor)))
  }

  lemma StoreFull(s: System, k: nat)
    requires Filled(s, k) && k < MANY_READS
    ensures Enabled(Received(s, FullRead()), TranscriptAppend)
    ensures Filled(Next(Received(s, FullRead()), TranscriptAppend), k + 1)
  {
    SizeSnoc(s.tr.log, FullRead());
    assert (s.published + [FullRead()])[k] == FullRead();
  }

  lemma ReceiveFull(before: seq<Step>, k: nat) returns (steps: seq<Step>)
    requires IsRun(before) && Filled(After(before), k) && FullReads(before)
    ensures IsRun(steps) && After(steps) == Received(After(before), FullRead()) && FullReads(steps)
  {
    Extend(before, Publish(FullRead()));
    var published := before + [Publish(FullRead())];
    Extend(published, TranscriptReceive);
    steps := published + [TranscriptReceive];
  }

  lemma FillOnce(before: seq<Step>, k: nat) returns (steps: seq<Step>)
    requires IsRun(before) && Filled(After(before), k) && FullReads(before) && k < MANY_READS
    ensures IsRun(steps) && Filled(After(steps), k + 1) && FullReads(steps)
  {
    var received := ReceiveFull(before, k);
    StoreFull(After(before), k);
    Extend(received, TranscriptAppend);
    steps := received + [TranscriptAppend];
  }

  lemma FillNone() returns (steps: seq<Step>)
    ensures IsRun(steps) && Filled(After(steps), 0) && FullReads(steps)
  {
    steps := [];
  }

  lemma {:induction false} Fill(k: nat) returns (steps: seq<Step>)
    requires k <= MANY_READS
    ensures IsRun(steps) && Filled(After(steps), k) && FullReads(steps)
  {
    if k == 0 {
      steps := FillNone();
    } else {
      var before := Fill(k - 1);
      steps := FillOnce(before, k - 1);
    }
  }

  /** The client asks for all of a transcript of 2,049 full buffers: just over 16 MiB, so the history
      event does not fit one frame however it is packed. The daemon sends it, and the attach fails. */
  lemma LongHistoryExample(pack: Packing) returns (steps: seq<Step>)
    requires KeepsData(pack)
    ensures IsRun(steps) && FullReads(steps) && After(steps).handler.Serving?
    ensures |Outputs(After(steps).socket)| == MANY_READS * PTY_READ
    ensures Rendered(pack, After(steps).socket, [], AttachFailed)
  {
    var filled := Fill(MANY_READS);
    var text := Flatten(After(filled).tr.log);
    var attached := AttachFilled(filled);
    steps := WriteTwo(attached, Output(text), Reply(1));
    OutputsSnoc([Output(text)], Reply(1));
    OutputsSnoc([], Output(text));
    assert [] + [Output(text)] == [Output(text)] && [Output(text)] + [Reply(1)] == [Output(text), Reply(1)];
  }

  lemma AttachFilled(filled: seq<Step>) returns (steps: seq<Step>)
    requires IsRun(filled) && Filled(After(filled), MANY_READS) && FullReads(filled)
    ensures IsRun(steps) && FullReads(steps) && After(steps).handler.Serving? && After(steps).socket == []
    ensures After(steps).channel == [Output(Flatten(After(filled).tr.log)), Reply(1)]
  {
    var sent := SendHistory(filled);
    Extend(sent, Subscribe);
    var subscribed := sent + [Subscribe];
    Extend(subscribed, PushReply(1));
    steps := subscribed + [PushReply(1)];
  }

  lemma SendHistory(filled: seq<Step>) returns (steps: seq<Step>)
    requires IsRun(filled) && Filled(After(filled), MANY_READS) && FullReads(filled)
    ensures IsRun(steps) && FullReads(steps) && After(steps).handler.Subscribing? && After(steps).socket == []
    ensures After(steps).channel == [Output(Flatten(After(filled).tr.log))]
  {
    Extend(filled, TakeSnapshot(MAX_TRANSCRIPT_SIZE));
    var taken := filled + [TakeSnapshot(MAX_TRANSCRIPT_SIZE)];
    Extend(taken, PushHistory);
    steps := taken + [PushHistory];
  }
}
