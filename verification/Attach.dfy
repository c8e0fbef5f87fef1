/** Attaching to a session as a transition system. The PTY threads publish messages on a broadcast
    ring; the transcript task is one receiver of it; the connection handler takes a history snapshot,
    subscribes, and spawns a forwarder that is another receiver; handler and forwarder put frames into
    one bounded channel that the writer task drains to the socket. Every interleaving is a run. */
module Attach {
  import opened Bytes
  import opened ChunkCodec
  import opened Retention

  type Msg = seq<byte>

  const RING: nat := 512
  const CHANNEL: nat := 256

  // ---------------------------------------------------------------- the broadcast ring

  datatype Recv = Message(index: nat) | Lagged(next: nat) | Empty | Closed

  /** A receiver at `cursor` when `tail` messages have been published: the next message, unless the
      ring has overwritten it; the end only after everything retained has been received. */
  function Receive(cursor: nat, tail: nat, closed: bool): (r: Recv)
    requires cursor <= tail
    ensures cursor < tail <= cursor + 512 ==> r == Message(cursor)
    ensures cursor + 512 < tail ==> r == Lagged(tail - 512)
    ensures cursor == tail ==> r == if closed then Closed else Empty
  {
    if cursor == tail then (if closed then Closed else Empty)
    else if tail - cursor > RING then Lagged(tail - RING)
    else Message(cursor)
  }

  // ---------------------------------------------------------------- the system

  datatype Frame = Output(data: seq<byte>) | Exited | Reply(id: nat)

  /** The transcript task. `held` is a message that was received and not yet appended; `logged` are
      the messages whose bytes the chunks of `log` are. */
  datatype Transcript = Transcript(
    cursor: nat, held: Option<nat>, log: seq<Msg>, logged: seq<nat>, lagged: bool, truncated: bool, stopped: bool)

  /** The answer of `get_history`. `from` are the messages in the log at that moment; `complete` says
      that the transcript had neither lagged nor been truncated, and `whole` that nothing was cut off. */
  datatype Snapshot = Snapshot(text: seq<byte>, from: seq<nat>, complete: bool, whole: bool)

  datatype Handler =
    | Waiting
    | Replaying(snap: Snapshot)    // history fetched, its event not yet sent
    | Subscribing(snap: Snapshot)
    | Replying(snap: Snapshot)     // forwarder spawned, response not yet sent
    | Serving(snap: Snapshot)

  datatype Forwarder =
    | NotSpawned
    | Running(since: nat, cursor: nat, held: Option<Frame>, forwarded: seq<nat>, lagged: bool)
    | Ended(since: nat, forwarded: seq<nat>, lagged: bool)

  datatype System = System(
    published: seq<Msg>, closed: bool, tr: Transcript, handler: Handler, fwd: Forwarder,
    channel: seq<Frame>, socket: seq<Frame>)

  datatype Step =
    | Publish(msg: Msg)
    | CloseRing
    | TranscriptReceive
    | TranscriptAppend
    | TranscriptStop
    | TakeSnapshot(historyBytes: nat)
    | PushHistory
    | Subscribe
    | PushReply(id: nat)
    | ForwardReceive
    | ForwardPush
    | WriteFrame

  function Start(): System {
    System([], false, Transcript(0, None, [], [], false, false, false), Waiting, NotSpawned, [], [])
  }

  predicate Enabled(s: System, step: Step) {
    match step
    case Publish(msg) => !s.closed && msg != []
    case CloseRing => !s.closed && s.tr.stopped  // until then the transcript task holds a sender
    case TranscriptReceive =>
      !s.tr.stopped && s.tr.held.None? && s.tr.cursor < |s.published|
    case TranscriptAppend => s.tr.held.Some? && !s.tr.stopped && s.tr.held.value < |s.published|
    case TranscriptStop => true
    case TakeSnapshot(_) => s.handler.Waiting?
    case PushHistory => s.handler.Replaying? && |s.channel| < CHANNEL
    case Subscribe => s.handler.Subscribing?
    case PushReply(_) =>
      (s.handler.Waiting? || s.handler.Replying? || s.handler.Serving?) && |s.channel| < CHANNEL
    case ForwardReceive =>
      s.fwd.Running? && s.fwd.held.None? && s.fwd.cursor <= |s.published|
      && !Receive(s.fwd.cursor, |s.published|, s.closed).Empty?
    case ForwardPush => s.fwd.Running? && s.fwd.held.Some? && |s.channel| < CHANNEL
    case WriteFrame => s.channel != []
  }

  function AfterReceive(t: Transcript, tail: nat): Transcript
    requires t.cursor <= tail
  {
    match Receive(t.cursor, tail, false)
    case Message(i) => t.(cursor := i + 1, held := Some(i))
    case Lagged(next) => t.(cursor := next, lagged := true)
    case _ => t
  }

  function AfterStore(t: Transcript, published: seq<Msg>): Transcript
    requires t.held.Some? && t.held.value < |published|
  {
    var log := AfterAppend(t.log, published[t.held.value]);
    var logged := t.logged + [t.held.value];
    t.(held := None, log := log, logged := LastN(logged, |log|),
       truncated := t.truncated || Truncates(t.log, published[t.held.value]))
  }

  function AfterForward(f: Forwarder, published: seq<Msg>, closed: bool): Forwarder
    requires f.Running? && f.cursor <= |published|
  {
    match Receive(f.cursor, |published|, closed)
    case Message(i) => f.(cursor := i + 1, held := Some(Output(published[i])), forwarded := f.forwarded + [i])
    case Lagged(next) => f.(cursor := next, lagged := true)
    case Closed => f.(held := Some(Exited))
    case Empty => f
  }

  function SnapshotOf(t: Transcript, historyBytes: nat): Snapshot {
    var plain := Flatten(t.log);
    Snapshot(LastN(plain, historyBytes), t.logged, !t.lagged && !t.truncated, |plain| <= historyBytes)
  }

  function Next(s: System, step: Step): System
    requires Enabled(s, step)
  {
    match step
    case Publish(msg) => s.(published := s.published + [msg])
    case CloseRing => s.(closed := true)
    case TranscriptReceive => s.(tr := AfterReceive(s.tr, |s.published|))
    case TranscriptAppend => s.(tr := AfterStore(s.tr, s.published))
    case TranscriptStop => s.(tr := s.tr.(stopped := true))
    case TakeSnapshot(n) =>
      var snap := SnapshotOf(s.tr, n);
      s.(handler := if snap.text == [] then Subscribing(snap) else Replaying(snap))
    case PushHistory =>
      s.(channel := s.channel + [Output(s.handler.snap.text)], handler := Subscribing(s.handler.snap))
    case Subscribe =>
      var tail := |s.published|;
      s.(fwd := Running(tail, tail, None, [], false), handler := Replying(s.handler.snap))
    case PushReply(id) =>
      s.(channel := s.channel + [Reply(id)],
         handler := if s.handler.Replying? then Serving(s.handler.snap) else s.handler)
    case ForwardReceive => s.(fwd := AfterForward(s.fwd, s.published, s.closed))
    case ForwardPush =>
      s.(channel := s.channel + [s.fwd.held.value],
         fwd := if s.fwd.held.value.Exited? then Ended(s.fwd.since, s.fwd.forwarded, s.fwd.lagged)
                else s.fwd.(held := None))
    case WriteFrame => s.(socket := s.socket + [s.channel[0]], channel := s.channel[1..])
  }

  ghost predicate IsRun(steps: seq<Step>) {
    steps == [] ||
    (IsRun(steps[..|steps| - 1]) && Enabled(After(steps[..|steps| - 1]), steps[|steps| - 1]))
  }

  ghost function After(steps: seq<Step>): System {
    if steps == [] then Start()
    else
      var s := After(steps[..|steps| - 1]);
      if Enabled(s, steps[|steps| - 1]) then Next(s, steps[|steps| - 1]) else s
  }

  // ---------------------------------------------------------------- vocabulary

  ghost predicate Within(idx: seq<nat>, lo: nat, hi: nat) {
    forall k :: 0 <= k < |idx| ==> lo <= idx[k] < hi
  }

  /** The bytes of the messages with these indices, in this order. */
  ghost function Pick(published: seq<Msg>, idx: seq<nat>): seq<byte> {
    if idx == [] then []
    else
      var i := idx[|idx| - 1];
      Pick(published, idx[..|idx| - 1]) + if i < |published| then published[i] else []
  }

  /** `idx` is `lo`, ..., `hi - 1`. */
  ghost predicate Consecutive(idx: seq<nat>, lo: nat, hi: nat) {
    lo + |idx| == hi && forall k :: 0 <= k < |idx| ==> idx[k] == lo + k
  }

  lemma ConsecutiveSnoc(idx: seq<nat>, lo: nat, hi: nat)
    requires Consecutive(idx, lo, hi)
    ensures Consecutive(idx + [hi], lo, hi + 1)
  {
  }

  ghost function Range(lo: nat, hi: nat): (r: seq<nat>)
    requires lo <= hi
    ensures |r| == hi - lo
    ensures forall k :: 0 <= k < |r| ==> r[k] == lo + k
  {
    seq(hi - lo, k requires 0 <= k => lo + k)
  }

  /** The terminal output carried by a list of frames. */
  ghost function Outputs(frames: seq<Frame>): seq<byte> {
    if frames == [] then []
    else
      var last := frames[|frames| - 1];
      Outputs(frames[..|frames| - 1]) + if last.Output? then last.data else []
  }

  lemma OutputsSnoc(frames: seq<Frame>, f: Frame)
    ensures Outputs(frames + [f]) == Outputs(frames) + if f.Output? then f.data else []
  {
    assert (frames + [f])[..|frames|] == frames;
  }

  lemma {:induction false} OutputsConcat(a: seq<Frame>, b: seq<Frame>)
    ensures Outputs(a + b) == Outputs(a) + Outputs(b)
    decreases |b|
  {
    if b == [] {
      assert a + b == a;
      assert Outputs(a) + [] == Outputs(a);
    } else {
      var init, last := b[..|b| - 1], b[|b| - 1];
      OutputsConcat(a, init);
      assert a + b == (a + init) + [last];
      OutputsSnoc(a + init, last);
      ConcatAssoc(Outputs(a), Outputs(init), if last.Output? then last.data else []);
    }
  }

  lemma PickSnoc(published: seq<Msg>, idx: seq<nat>, i: nat)
    requires i < |published|
    ensures Pick(published, idx + [i]) == Pick(published, idx) + published[i]
  {
    assert (idx + [i])[..|idx|] == idx;
  }

  lemma {:induction false} PickGrows(published: seq<Msg>, more: seq<Msg>, idx: seq<nat>)
    requires Within(idx, 0, |published|)
    ensures Pick(published + more, idx) == Pick(published, idx)
  {
    if idx != [] {
      var init := idx[..|idx| - 1];
      assert Within(init, 0, |published|);
      PickGrows(published, more, init);
    }
  }

  lemma {:induction false} PickConsecutive(published: seq<Msg>, idx: seq<nat>, lo: nat, hi: nat)
    requires Consecutive(idx, lo, hi) && hi <= |published|
    ensures Pick(published, idx) == Flatten(published[lo..hi])
    decreases |idx|
  {
    if lo < hi {
      PickConsecutive(published, idx[..|idx| - 1], lo, hi - 1);
      SliceLast(published, lo, hi);
      FlattenSnoc(published[lo..hi - 1], published[hi - 1]);
    } else {
      assert published[lo..hi] == [];
    }
  }

  lemma SliceLast<T>(s: seq<T>, lo: nat, hi: nat)
    requires lo < hi <= |s|
    ensures s[lo..hi] == s[lo..hi - 1] + [s[hi - 1]]
  {
  }

  lemma AddIndex(idx: seq<nat>, lo: nat, i: nat)
    requires StrictlyIncreasing(idx) && Within(idx, lo, i) && lo <= i
    ensures StrictlyIncreasing(idx + [i]) && Within(idx + [i], lo, i + 1)
  {
  }

  lemma {:induction false} PickSplit(published: seq<Msg>, a: seq<nat>, b: seq<nat>)
    ensures Pick(published, a + b) == Pick(published, a) + Pick(published, b)
    decreases |b|
  {
    if b == [] {
      assert a + b == a && Pick(published, a) + [] == Pick(published, a);
    } else {
      var init, i := b[..|b| - 1], b[|b| - 1];
      InitConcat(a, b);
      PickSplit(published, a, init);
      ConcatAssoc(Pick(published, a), Pick(published, init), if i < |published| then published[i] else []);
    }
  }

  // ---------------------------------------------------------------- the transcript task

  /** Chunk `k` of the log is the message that `logged[k]` names. */
  ghost predicate Chunks(published: seq<Msg>, logged: seq<nat>, log: seq<Msg>) {
    && |log| == |logged|
    && forall k :: 0 <= k < |log| ==> logged[k] < |published| && log[k] == published[logged[k]]
  }

  /** Where the log can reach at most. */
  function Reached(t: Transcript): nat {
    if t.held.Some? then t.held.value else t.cursor
  }

  ghost predicate TranscriptInv(t: Transcript, published: seq<Msg>) {
    && t.cursor <= |published|
    && (t.held.Some? ==> t.held.value + 1 == t.cursor)
    && Chunks(published, t.logged, t.log)
    && StrictlyIncreasing(t.logged)
    && Within(t.logged, 0, Reached(t))
    && (!t.lagged && !t.truncated ==> Consecutive(t.logged, 0, Reached(t)))
  }

  lemma {:induction false} ChunksArePicked(published: seq<Msg>, logged: seq<nat>, log: seq<Msg>)
    requires Chunks(published, logged, log)
    ensures Flatten(log) == Pick(published, logged)
  {
    if log != [] {
      var n := |log| - 1;
      ChunksArePicked(published, logged[..n], log[..n]);
      FlattenLast(log);
    }
  }

  lemma ReceiveKeeps(t: Transcript, published: seq<Msg>)
    requires TranscriptInv(t, published) && t.held.None?
    ensures TranscriptInv(AfterReceive(t, |published|), published)
  {
  }

  lemma SuffixKeepsChunks(published: seq<Msg>, logged: seq<nat>, log: seq<Msg>, kept: seq<Msg>, end: nat)
    requires Chunks(published, logged, log) && StrictlyIncreasing(logged) && Within(logged, 0, end)
    requires IsSuffix(kept, log)
    ensures Chunks(published, LastN(logged, |kept|), kept)
    ensures StrictlyIncreasing(LastN(logged, |kept|)) && Within(LastN(logged, |kept|), 0, end)
  {
  }

  lemma AddChunk(published: seq<Msg>, logged: seq<nat>, log: seq<Msg>, i: nat)
    requires Chunks(published, logged, log) && i < |published|
    ensures Chunks(published, logged + [i], log + [published[i]])
  {
  }

  lemma StoreKeepsChunks(t: Transcript, published: seq<Msg>)
    requires TranscriptInv(t, published) && t.held.Some? && published[t.held.value] != []
    ensures var t' := AfterStore(t, published);
      && Chunks(published, t'.logged, t'.log)
      && StrictlyIncreasing(t'.logged) && Within(t'.logged, 0, t.cursor)
  {
    var i := t.held.value;
    AppendKeepsSuffix(t.log, published[i]);
    AddIndex(t.logged, 0, i);
    AddChunk(published, t.logged, t.log, i);
    SuffixKeepsChunks(published, t.logged + [i], t.log + [published[i]], AfterAppend(t.log, published[i]), i + 1);
  }

  lemma StoreKeeps(t: Transcript, published: seq<Msg>)
    requires TranscriptInv(t, published) && t.held.Some? && published[t.held.value] != []
    ensures TranscriptInv(AfterStore(t, published), published)
  {
    StoreKeepsChunks(t, published);
    if !AfterStore(t, published).lagged && !AfterStore(t, published).truncated {
      ConsecutiveSnoc(t.logged, 0, t.held.value);
    }
  }

  lemma TranscriptGrows(t: Transcript, published: seq<Msg>, msg: Msg)
    requires TranscriptInv(t, published)
    ensures TranscriptInv(t, published + [msg])
  {
  }

  // ---------------------------------------------------------------- the snapshot

  /** The history is the end of what the log held, all of it messages published before `limit`. */
  ghost predicate SnapshotInv(snap: Snapshot, published: seq<Msg>, limit: nat) {
    && StrictlyIncreasing(snap.from)
    && Within(snap.from, 0, limit) && limit <= |published|
    && IsSuffix(snap.text, Pick(published, snap.from))
    && (snap.whole ==> snap.text == Pick(published, snap.from))
    && (snap.complete ==> Consecutive(snap.from, 0, |snap.from|))
  }

  lemma SnapshotKeeps(t: Transcript, published: seq<Msg>, n: nat)
    requires TranscriptInv(t, published)
    ensures SnapshotInv(SnapshotOf(t, n), published, |published|)
  {
    ChunksArePicked(published, t.logged, t.log);
  }

  lemma SnapshotGrows(snap: Snapshot, published: seq<Msg>, limit: nat, msg: Msg)
    requires SnapshotInv(snap, published, limit)
    ensures SnapshotInv(snap, published + [msg], limit)
    ensures limit == |published| ==> SnapshotInv(snap, published + [msg], limit + 1)
  {
    PickGrows(published, [msg], snap.from);
  }

  // ---------------------------------------------------------------- the forwarder

  function Forwarded(f: Forwarder): seq<nat> {
    if f.NotSpawned? then [] else f.forwarded
  }

  /** What the forwarder has received since it subscribed. */
  ghost predicate ForwarderInv(f: Forwarder, published: seq<Msg>, closed: bool) {
    match f
    case NotSpawned => true
    case Running(since, cursor, held, forwarded, lagged) =>
      && since <= cursor <= |published|
      && StrictlyIncreasing(forwarded) && Within(forwarded, since, cursor)
      && (!lagged ==> Consecutive(forwarded, since, cursor))
      && (held == Some(Exited) ==> closed && cursor == |published|)
      && (held.Some? ==> !held.value.Reply?)
    case Ended(since, forwarded, lagged) =>
      && closed && since <= |published|
      && StrictlyIncreasing(forwarded) && Within(forwarded, since, |published|)
      && (!lagged ==> Consecutive(forwarded, since, |published|))
  }

  lemma ForwardKeeps(f: Forwarder, published: seq<Msg>, closed: bool)
    requires ForwarderInv(f, published, closed) && f.Running? && f.held.None?
    ensures ForwarderInv(AfterForward(f, published, closed), published, closed)
  {
    AddIndex(f.forwarded, f.since, f.cursor);
    if !f.lagged {
      ConsecutiveSnoc(f.forwarded, f.since, f.cursor);
    }
  }

  lemma ForwarderGrows(f: Forwarder, published: seq<Msg>, msg: Msg)
    requires ForwarderInv(f, published, false)
    ensures ForwarderInv(f, published + [msg], false)
  {
  }

  lemma ForwardedWithin(f: Forwarder, published: seq<Msg>, closed: bool)
    requires ForwarderInv(f, published, closed)
    ensures Within(Forwarded(f), 0, |published|)
  {
  }

  // ---------------------------------------------------------------- the pipeline

  function Held(f: Forwarder): seq<Frame> {
    if f.Running? && f.held.Some? then [f.held.value] else []
  }

  /** Everything on its way to the client, oldest first. */
  function Pipeline(s: System): seq<Frame> {
    s.socket + s.channel + Held(s.fwd)
  }

  function Replayed(h: Handler): seq<byte> {
    if h.Waiting? || h.Replaying? then [] else h.snap.text
  }

  ghost predicate HandlerInv(s: System) {
    && (s.fwd.NotSpawned? <==> !(s.handler.Replying? || s.handler.Serving?))
    && (!s.handler.Waiting? ==>
          SnapshotInv(s.handler.snap, s.published, if s.fwd.NotSpawned? then |s.published| else s.fwd.since))
  }

  ghost predicate PipelineInv(s: System) {
    Outputs(Pipeline(s)) == Replayed(s.handler) + Pick(s.published, Forwarded(s.fwd))
  }

  ghost predicate NonEmpty(published: seq<Msg>) {
    forall k :: 0 <= k < |published| ==> published[k] != []
  }

  ghost predicate Inv(s: System) {
    && NonEmpty(s.published)
    && TranscriptInv(s.tr, s.published)
    && ForwarderInv(s.fwd, s.published, s.closed)
    && HandlerInv(s)
    && PipelineInv(s)
  }

  lemma NoOutput(a: seq<Frame>, mid: Frame, b: seq<Frame>)
    requires !mid.Output?
    ensures Outputs(a + [mid] + b) == Outputs(a + b)
  {
    OutputsConcat(a + [mid], b);
    OutputsSnoc(a, mid);
    OutputsConcat(a, b);
    assert Outputs(a) + [] == Outputs(a);
  }

  lemma HandlerGrows(s: System, msg: Msg)
    requires HandlerInv(s)
    ensures HandlerInv(s.(published := s.published + [msg]))
  {
    if !s.handler.Waiting? {
      var limit := if s.fwd.NotSpawned? then |s.published| else s.fwd.since;
      SnapshotGrows(s.handler.snap, s.published, limit, msg);
    }
  }

  lemma PipelineGrows(s: System, msg: Msg)
    requires ForwarderInv(s.fwd, s.published, s.closed) && PipelineInv(s)
    ensures PipelineInv(s.(published := s.published + [msg]))
  {
    assert Pipeline(s.(published := s.published + [msg])) == Pipeline(s);
    ForwardedWithin(s.fwd, s.published, s.closed);
    PickGrows(s.published, [msg], Forwarded(s.fwd));
  }

  lemma PublishKeeps(s: System, msg: Msg)
    requires Inv(s) && Enabled(s, Publish(msg))
    ensures Inv(Next(s, Publish(msg)))
  {
    TranscriptGrows(s.tr, s.published, msg);
    ForwarderGrows(s.fwd, s.published, msg);
    HandlerGrows(s, msg);
    PipelineGrows(s, msg);
  }

  /** A step of the connection leaves the session alone. */
  lemma SameSession(s: System, next: System)
    requires Inv(s) && next.published == s.published && next.closed == s.closed && next.tr == s.tr
    requires ForwarderInv(next.fwd, next.published, next.closed) && HandlerInv(next) && PipelineInv(next)
    ensures Inv(next)
  {
  }

  lemma PushHistoryKeeps(s: System)
    requires Inv(s) && Enabled(s, PushHistory)
    ensures Inv(Next(s, PushHistory))
  {
    var f := Output(s.handler.snap.text);
    PushLast(s.socket, s.channel, f);
    OutputsSnoc(s.socket + s.channel, f);
    assert Pipeline(s) == s.socket + s.channel;
  }

  lemma PushLast(socket: seq<Frame>, channel: seq<Frame>, f: Frame)
    ensures socket + (channel + [f]) + [] == socket + channel + [f]
    ensures socket + channel + [] == socket + channel
  {
  }

  lemma ReplyHidden(s: System, id: nat)
    ensures Outputs(Pipeline(s.(channel := s.channel + [Reply(id)]))) == Outputs(Pipeline(s))
  {
    var sent := s.socket + s.channel;
    ConcatAssoc(s.socket, s.channel, [Reply(id)]);
    NoOutput(sent, Reply(id), Held(s.fwd));
  }

  lemma ReplyKeepsHandler(s: System, id: nat)
    requires HandlerInv(s) && Enabled(s, PushReply(id))
    ensures HandlerInv(Next(s, PushReply(id)))
    ensures Replayed(Next(s, PushReply(id)).handler) == Replayed(s.handler)
  {
  }

  lemma PushReplyKeeps(s: System, id: nat)
    requires Inv(s) && Enabled(s, PushReply(id))
    ensures Inv(Next(s, PushReply(id)))
  {
    var next := Next(s, PushReply(id));
    ReplyHidden(s, id);
    assert Pipeline(next) == Pipeline(s.(channel := s.channel + [Reply(id)]));
    ReplyKeepsHandler(s, id);
    SameSession(s, next);
  }

  lemma SubscribeKeeps(s: System)
    requires Inv(s) && Enabled(s, Subscribe)
    ensures Inv(Next(s, Subscribe))
  {
    var next := Next(s, Subscribe);
    assert Pipeline(next) == Pipeline(s);
    assert Forwarded(next.fwd) == Forwarded(s.fwd) && Replayed(next.handler) == Replayed(s.handler);
    SameSession(s, next);
  }

  lemma SnapshotKeepsHandler(s: System, n: nat)
    requires TranscriptInv(s.tr, s.published) && HandlerInv(s) && Enabled(s, TakeSnapshot(n))
    ensures HandlerInv(Next(s, TakeSnapshot(n)))
    ensures Replayed(Next(s, TakeSnapshot(n)).handler) == Replayed(s.handler)
  {
    SnapshotKeeps(s.tr, s.published, n);
  }

  lemma TakeSnapshotKeeps(s: System, n: nat)
    requires Inv(s) && Enabled(s, TakeSnapshot(n))
    ensures Inv(Next(s, TakeSnapshot(n)))
  {
    SnapshotKeepsHandler(s, n);
    assert Pipeline(Next(s, TakeSnapshot(n))) == Pipeline(s);
    SameSession(s, Next(s, TakeSnapshot(n)));
  }

  lemma HoldFrame(s: System, f: Forwarder)
    requires Held(s.fwd) == [] && f.Running? && f.held.Some?
    ensures Outputs(Pipeline(s.(fwd := f))) ==
      Outputs(Pipeline(s)) + if f.held.value.Output? then f.held.value.data else []
  {
    var sent := s.socket + s.channel;
    assert Pipeline(s) == sent;
    OutputsSnoc(sent, f.held.value);
  }

  lemma ReceivePipeline(s: System)
    requires PipelineInv(s) && Enabled(s, ForwardReceive)
    ensures PipelineInv(s.(fwd := AfterForward(s.fwd, s.published, s.closed)))
  {
    var next := AfterForward(s.fwd, s.published, s.closed);
    match Receive(s.fwd.cursor, |s.published|, s.closed)
    case Message(i) =>
      HoldFrame(s, next);
      PickSnoc(s.published, s.fwd.forwarded, i);
      ConcatAssoc(Replayed(s.handler), Pick(s.published, s.fwd.forwarded), s.published[i]);
    case Closed =>
      HoldFrame(s, next);
      NothingAppended(Outputs(Pipeline(s)));
    case Lagged(_) =>
      assert Pipeline(s.(fwd := next)) == Pipeline(s);
  }

  lemma NothingAppended(bytes: seq<byte>)
    ensures bytes + [] == bytes
  {
  }

  lemma ReceiveKeepsHandler(s: System)
    requires HandlerInv(s) && ForwarderInv(s.fwd, s.published, s.closed) && Enabled(s, ForwardReceive)
    ensures HandlerInv(s.(fwd := AfterForward(s.fwd, s.published, s.closed)))
  {
    assert AfterForward(s.fwd, s.published, s.closed).since == s.fwd.since;
  }

  lemma ForwardReceiveKeeps(s: System)
    requires Inv(s) && Enabled(s, ForwardReceive)
    ensures Inv(Next(s, ForwardReceive))
  {
    ForwardKeeps(s.fwd, s.published, s.closed);
    ReceivePipeline(s);
    ReceiveKeepsHandler(s);
    SameSession(s, s.(fwd := AfterForward(s.fwd, s.published, s.closed)));
  }

  lemma PushHeld(s: System)
    requires Enabled(s, ForwardPush)
    ensures Pipeline(Next(s, ForwardPush)) == Pipeline(s)
  {
    ConcatAssoc(s.socket, s.channel, [s.fwd.held.value]);
  }

  lemma PushKeepsForwarder(s: System)
    requires ForwarderInv(s.fwd, s.published, s.closed) && Enabled(s, ForwardPush)
    ensures ForwarderInv(Next(s, ForwardPush).fwd, s.published, s.closed)
    ensures Forwarded(Next(s, ForwardPush).fwd) == Forwarded(s.fwd)
    ensures HandlerInv(s) ==> HandlerInv(Next(s, ForwardPush))
  {
  }

  lemma ForwardPushKeeps(s: System)
    requires Inv(s) && Enabled(s, ForwardPush)
    ensures Inv(Next(s, ForwardPush))
  {
    PushHeld(s);
    PushKeepsForwarder(s);
    SameSession(s, Next(s, ForwardPush));
  }

  lemma WriteKeeps(s: System)
    requires Inv(s) && Enabled(s, WriteFrame)
    ensures Inv(Next(s, WriteFrame))
  {
    MoveHead(s.socket, s.channel, Held(s.fwd));
    assert Pipeline(Next(s, WriteFrame)) == Pipeline(s);
    SameSession(s, Next(s, WriteFrame));
  }

  lemma MoveHead(socket: seq<Frame>, channel: seq<Frame>, held: seq<Frame>)
    requires channel != []
    ensures socket + [channel[0]] + channel[1..] + held == socket + channel + held
  {
    HeadTail(channel);
    ConcatAssoc(socket, [channel[0]], channel[1..]);
  }

  lemma ForwarderCloses(f: Forwarder, published: seq<Msg>)
    requires ForwarderInv(f, published, false)
    ensures ForwarderInv(f, published, true)
  {
  }

  /** A step of the session leaves the connection alone. */
  lemma SameConnection(s: System, next: System)
    requires Inv(s) && next.published == s.published && next.handler == s.handler && next.fwd == s.fwd
    requires next.channel == s.channel && next.socket == s.socket
    requires TranscriptInv(next.tr, next.published) && ForwarderInv(next.fwd, next.published, next.closed)
    ensures Inv(next)
  {
    assert Pipeline(next) == Pipeline(s);
  }

  lemma SessionStepKeeps(s: System, step: Step)
    requires Inv(s) && Enabled(s, step)
    requires step.CloseRing? || step.TranscriptReceive? || step.TranscriptAppend? || step.TranscriptStop?
    ensures Inv(Next(s, step))
  {
    match step {
      case CloseRing => ForwarderCloses(s.fwd, s.published);
      case TranscriptReceive => ReceiveKeeps(s.tr, s.published);
      case TranscriptAppend => StoreKeeps(s.tr, s.published);
      case TranscriptStop => StopKeeps(s.tr, s.published);
    }
    SameConnection(s, Next(s, step));
  }

  lemma StopKeeps(t: Transcript, published: seq<Msg>)
    requires TranscriptInv(t, published)
    ensures TranscriptInv(t.(stopped := true), published)
  {
  }

  lemma StepKeepsInv(s: System, step: Step)
    requires Inv(s) && Enabled(s, step)
    ensures Inv(Next(s, step))
  {
    match step
    case Publish(msg) => PublishKeeps(s, msg);
    case TakeSnapshot(n) => TakeSnapshotKeeps(s, n);
    case PushHistory => PushHistoryKeeps(s);
    case Subscribe => SubscribeKeeps(s);
    case PushReply(id) => PushReplyKeeps(s, id);
    case ForwardReceive => ForwardReceiveKeeps(s);
    case ForwardPush => ForwardPushKeeps(s);
    case WriteFrame => WriteKeeps(s);
    case _ => SessionStepKeeps(s, step);
  }

  lemma AfterLast(steps: seq<Step>)
    requires IsRun(steps) && steps != []
    ensures var before, last := steps[..|steps| - 1], steps[|steps| - 1];
      IsRun(before) && Enabled(After(before), last) && After(steps) == Next(After(before), last)
  {
  }

  lemma {:induction false} RunKeepsInv(steps: seq<Step>)
    requires IsRun(steps)
    ensures Inv(After(steps))
  {
    if steps != [] {
      AfterLast(steps);
      RunKeepsInv(steps[..|steps| - 1]);
      StepKeepsInv(After(steps[..|steps| - 1]), steps[|steps| - 1]);
    }
  }

  /** The frame channel never holds more than 256 frames, and the forwarder waits only when it is full. */
  lemma {:induction false} ChannelBounded(steps: seq<Step>)
    requires IsRun(steps)
    ensures |After(steps).channel| <= 256
    ensures var s := After(steps);
      |s.channel| < 256 && s.fwd.Running? && s.fwd.held.Some? ==> Enabled(s, ForwardPush)
  {
    if steps != [] {
      AfterLast(steps);
      ChannelBounded(steps[..|steps| - 1]);
    }
  }

  // ---------------------------------------------------------------- nothing duplicated, nothing reordered

  /** `part` is read off `whole` at these positions, from left to right. */
  ghost predicate Embeds(pos: seq<nat>, part: seq<byte>, whole: seq<byte>) {
    && |pos| == |part|
    && StrictlyIncreasing(pos)
    && forall k :: 0 <= k < |pos| ==> pos[k] < |whole| && whole[pos[k]] == part[k]
  }

  lemma EmbedSuffix(pos: seq<nat>, part: seq<byte>, whole: seq<byte>, end: seq<byte>)
    requires Embeds(pos, part, whole) && IsSuffix(end, part)
    ensures Embeds(pos[|part| - |end|..], end, whole)
  {
  }

  lemma EmbedPrefix(pos: seq<nat>, part: seq<byte>, whole: seq<byte>, start: seq<byte>)
    requires Embeds(pos, part, whole) && start <= part
    ensures Embeds(pos[..|start|], start, whole)
  {
  }

  lemma EmbedGrow(pos: seq<nat>, part: seq<byte>, whole: seq<byte>, more: seq<byte>)
    requires Embeds(pos, part, whole)
    ensures Embeds(pos, part, whole + more)
  {
  }

  lemma EmbedAppend(pos: seq<nat>, part: seq<byte>, whole: seq<byte>, more: seq<byte>)
    requires Embeds(pos, part, whole)
    ensures Embeds(pos + Range(|whole|, |whole| + |more|), part + more, whole + more)
  {
  }

  /** Messages picked by increasing indices are read off the stream from left to right. */
  lemma {:induction false} PickEmbeds(published: seq<Msg>, idx: seq<nat>, m: nat) returns (pos: seq<nat>)
    requires StrictlyIncreasing(idx) && Within(idx, 0, m) && m <= |published|
    ensures Embeds(pos, Pick(published, idx), Flatten(published[..m]))
    decreases |idx|
  {
    if idx == [] {
      pos := [];
    } else {
      var init, i := idx[..|idx| - 1], idx[|idx| - 1];
      var before := PickEmbeds(published, init, i);
      pos := before + Range(|Flatten(published[..i])|, |Flatten(published[..i])| + |published[i]|);
      EmbedAppend(before, Pick(published, init), Flatten(published[..i]), published[i]);
      FlattenPrefix(published, i, m);
      EmbedGrow(pos, Pick(published, idx), Flatten(published[..i]) + published[i], Flatten(published[i + 1..m]));
    }
  }

  lemma FlattenPrefix(published: seq<Msg>, i: nat, m: nat)
    requires i < m <= |published|
    ensures Flatten(published[..m]) == Flatten(published[..i]) + published[i] + Flatten(published[i + 1..m])
  {
    TakeSnoc(published, i);
    FlattenSnoc(published[..i], published[i]);
    FlattenSplit(published[..m], i + 1);
    assert published[..m][..i + 1] == published[..i + 1];
    assert published[..m][i + 1..] == published[i + 1..m];
  }

  lemma JoinIncreasing(a: seq<nat>, b: seq<nat>, mid: nat, hi: nat)
    requires StrictlyIncreasing(a) && Within(a, 0, mid)
    requires StrictlyIncreasing(b) && Within(b, mid, hi) && mid <= hi
    ensures StrictlyIncreasing(a + b) && Within(a + b, 0, hi)
  {
  }

  /** Where the shown messages come from: the history from `earlier`, the live part from `live`, and every
      message of the history is older than every live one. */
  lemma HistoryBeforeLive(s: System) returns (earlier: seq<nat>, live: seq<nat>)
    requires Inv(s)
    ensures StrictlyIncreasing(earlier + live) && Within(earlier + live, 0, |s.published|)
    ensures IsSuffix(Outputs(Pipeline(s)), Pick(s.published, earlier + live))
  {
    live := Forwarded(s.fwd);
    earlier := if s.handler.Waiting? || s.handler.Replaying? then [] else s.handler.snap.from;
    if earlier != [] || live != [] {
      JoinIncreasing(earlier, live, if s.fwd.NotSpawned? then |s.published| else s.fwd.since, |s.published|);
    }
    PickSplit(s.published, earlier, live);
    SuffixConcat(Replayed(s.handler), Pick(s.published, earlier), Pick(s.published, live));
  }

  lemma PipelineEmbeds(s: System) returns (pos: seq<nat>)
    requires Inv(s)
    ensures Embeds(pos, Outputs(Pipeline(s)), Flatten(s.published))
  {
    var earlier, live := HistoryBeforeLive(s);
    var all := PickEmbeds(s.published, earlier + live, |s.published|);
    TakeAll(s.published);
    EmbedSuffix(all, Pick(s.published, earlier + live), Flatten(s.published), Outputs(Pipeline(s)));
    pos := all[|Pick(s.published, earlier + live)| - |Outputs(Pipeline(s))|..];
  }

  lemma SocketComesFirst(s: System)
    ensures Outputs(s.socket) <= Outputs(Pipeline(s))
  {
    ConcatAssoc(s.socket, s.channel, Held(s.fwd));
    OutputsConcat(s.socket, s.channel + Held(s.fwd));
  }

  /** In every interleaving of publishing, transcript writing, truncation, lag and attaching, the bytes
      the client gets are the published bytes at strictly increasing positions of the stream. */
  lemma ClientSeesSubsequence(steps: seq<Step>) returns (pos: seq<nat>)
    requires IsRun(steps)
    ensures Embeds(pos, Outputs(After(steps).socket), Flatten(After(steps).published))
  {
    var s := After(steps);
    RunKeepsInv(steps);
    var all := PipelineEmbeds(s);
    SocketComesFirst(s);
    EmbedPrefix(all, Outputs(Pipeline(s)), Flatten(s.published), Outputs(s.socket));
    pos := all[..|Outputs(s.socket)|];
  }

  // ---------------------------------------------------------------- what is lost

  lemma StepKeepsSnapshot(s: System, step: Step)
    requires Enabled(s, step) && !s.handler.Waiting?
    ensures !Next(s, step).handler.Waiting? && Next(s, step).handler.snap == s.handler.snap
  {
  }

  lemma StepKeepsSubscription(s: System, step: Step)
    requires Enabled(s, step) && (s.handler.Replying? || s.handler.Serving?) && !s.fwd.NotSpawned?
    ensures Next(s, step).handler.Replying? || Next(s, step).handler.Serving?
    ensures !Next(s, step).fwd.NotSpawned? && Next(s, step).fwd.since == s.fwd.since
  {
  }

  lemma {:induction false} RunPrefix(a: seq<Step>, b: seq<Step>)
    requires IsRun(a + b)
    ensures IsRun(a)
    decreases |b|
  {
    if b == [] {
      assert a + b == a;
    } else {
      InitConcat(a, b);
      RunPrefix(a, b[..|b| - 1]);
    }
  }

  lemma {:induction false} SnapshotStays(a: seq<Step>, b: seq<Step>)
    requires IsRun(a + b) && !After(a).handler.Waiting?
    ensures !After(a + b).handler.Waiting? && After(a + b).handler.snap == After(a).handler.snap
    decreases |b|
  {
    if b == [] {
      assert a + b == a;
    } else {
      var init := b[..|b| - 1];
      InitConcat(a, b);
      SnapshotStays(a, init);
      StepKeepsSnapshot(After(a + init), b[|b| - 1]);
    }
  }

  lemma {:induction false} SubscriptionStays(a: seq<Step>, b: seq<Step>)
    requires IsRun(a + b) && After(a).handler.Replying? && !After(a).fwd.NotSpawned?
    ensures After(a + b).handler.Replying? || After(a + b).handler.Serving?
    ensures !After(a + b).fwd.NotSpawned? && After(a + b).fwd.since == After(a).fwd.since
    decreases |b|
  {
    if b == [] {
      assert a + b == a;
    } else {
      var init := b[..|b| - 1];
      InitConcat(a, b);
      SubscriptionStays(a, init);
      StepKeepsSubscription(After(a + init), b[|b| - 1]);
    }
  }

  lemma AfterSnoc(a: seq<Step>, step: Step)
    requires IsRun(a + [step])
    ensures IsRun(a) && Enabled(After(a), step) && After(a + [step]) == Next(After(a), step)
  {
    assert (a + [step])[..|a|] == a;
  }

  lemma LossPicks(published: seq<Msg>, from: seq<nat>, forwarded: seq<nat>, since: nat, got: nat)
    requires Consecutive(from, 0, |from|) && Within(from, 0, since)
    requires Consecutive(forwarded, since, got) && got <= |published|
    ensures |from| <= since
    ensures Pick(published, from) == Flatten(published[..|from|])
    ensures Pick(published, forwarded) == Flatten(published[since..got])
  {
    if |from| > 0 {
      assert from[|from| - 1] == |from| - 1;
    }
    PickConsecutive(published, from, 0, |from|);
    PickConsecutive(published, forwarded, since, got);
  }

  /** What has been sent to the client are the messages before `stored` and those from `seen` to `got`. */
  ghost predicate Shows(s: System, stored: nat, seen: nat, got: nat) {
    && stored <= seen <= got <= |s.published|
    && Outputs(Pipeline(s)) == Flatten(s.published[..stored]) + Flatten(s.published[seen..got])
  }

  lemma ShowsPicked(s: System, from: seq<nat>, forwarded: seq<nat>, since: nat, got: nat)
    requires Consecutive(from, 0, |from|) && Within(from, 0, since)
    requires Consecutive(forwarded, since, got) && got <= |s.published|
    requires Outputs(Pipeline(s)) == Pick(s.published, from) + Pick(s.published, forwarded)
    ensures Shows(s, |from|, since, got)
  {
    LossPicks(s.published, from, forwarded, since, got);
  }

  /** Where the forwarder has got to: the next message it will receive, or the end of the stream. */
  function Position(s: System): nat {
    if s.fwd.Running? then s.fwd.cursor else |s.published|
  }

  /** The state of an attached client in terms of its snapshot and its subscription. */
  lemma AttachedPipeline(s: System)
    requires Inv(s) && !s.fwd.NotSpawned? && !s.fwd.lagged
    requires s.handler.snap.complete && s.handler.snap.whole
    ensures Shows(s, |s.handler.snap.from|, s.fwd.since, Position(s))
  {
    ShowsPicked(s, s.handler.snap.from, s.fwd.forwarded, s.fwd.since, Position(s));
  }

  /** The snapshot that the handler of a later state still holds. */
  lemma HistoryOf(before: seq<Step>, n: nat, later: seq<Step>)
    requires IsRun(before + [TakeSnapshot(n)] + later)
    ensures var s := After(before + [TakeSnapshot(n)] + later);
      !s.handler.Waiting? && s.handler.snap == SnapshotOf(After(before).tr, n)
    ensures Inv(After(before))
  {
    RunPrefix(before + [TakeSnapshot(n)], later);
    AfterSnoc(before, TakeSnapshot(n));
    SnapshotStays(before + [TakeSnapshot(n)], later);
    RunKeepsInv(before);
  }

  /** In every run, the history of an attach is the end of the log as it was when the history was
      taken: as many bytes as were asked for, or all of it. */
  lemma HistoryText(before: seq<Step>, n: nat, later: seq<Step>)
    requires IsRun(before + [TakeSnapshot(n)] + later)
    ensures var h := After(before + [TakeSnapshot(n)] + later).handler;
      && !h.Waiting? && IsSuffix(h.snap.text, Flatten(After(before).tr.log))
      && |h.snap.text| == Min(n, |Flatten(After(before).tr.log)|)
  {
    HistoryOf(before, n, later);
    SnapshotText(After(before).tr, n);
  }

  lemma SnapshotText(t: Transcript, n: nat)
    ensures IsSuffix(SnapshotOf(t, n).text, Flatten(t.log))
    ensures |SnapshotOf(t, n).text| == Min(n, |Flatten(t.log)|)
  {
  }

  /** Where the forwarder of a later state started. */
  lemma SubscriptionOf(before: seq<Step>, later: seq<Step>)
    requires IsRun(before + [Subscribe] + later)
    ensures var s := After(before + [Subscribe] + later);
      !s.fwd.NotSpawned? && s.fwd.since == |After(before).published|
  {
    RunPrefix(before + [Subscribe], later);
    AfterSnoc(before, Subscribe);
    SubscriptionStays(before + [Subscribe], later);
  }

  lemma Regroup(a: seq<Step>, b: seq<Step>, c: seq<Step>, d: seq<Step>)
    ensures a + b + c + d == a + (b + c + d)
  {
  }

  /** A run in which the history is taken after `before`, the client subscribes after `between`, and
      `after` follows. */
  ghost function AttachRun(before: seq<Step>, n: nat, between: seq<Step>, after: seq<Step>): seq<Step> {
    before + [TakeSnapshot(n)] + between + [Subscribe] + after
  }

  /** The transcript has neither lagged nor been truncated, and a history of `n` bytes covers it. */
  ghost predicate Covered(t: Transcript, n: nat) {
    !t.lagged && !t.truncated && |Flatten(t.log)| <= n
  }

  /** What an attach loses, exactly. Let `stored` be how many messages the transcript had appended when
      the history was taken, and `seen` how many had been published at the subscription. If the
      history covers the transcript and the client does not lag, then of the messages up to the one
      that the forwarder will receive next, the client is shown all but those from `stored` to `seen`. */
  lemma LossIsExact(before: seq<Step>, n: nat, between: seq<Step>, after: seq<Step>)
    requires IsRun(AttachRun(before, n, between, after)) && Covered(After(before).tr, n)
    requires var s := After(AttachRun(before, n, between, after)); !s.fwd.NotSpawned? ==> !s.fwd.lagged
    ensures var s := After(AttachRun(before, n, between, after));
      && !s.fwd.NotSpawned?
      && Shows(s, Reached(After(before).tr), |After(before + [TakeSnapshot(n)] + between).published|, Position(s))
  {
    var taken := before + [TakeSnapshot(n)];
    var steps := AttachRun(before, n, between, after);
    SubscriptionOf(taken + between, after);
    Regroup(taken, between, [Subscribe], after);
    HistoryOf(before, n, between + [Subscribe] + after);
    RunKeepsInv(steps);
    AttachedPipeline(After(steps));
    assert |After(before).tr.logged| == Reached(After(before).tr);
  }

  lemma {:induction false} NonEmptyFlatten(msgs: seq<Msg>)
    requires NonEmpty(msgs)
    ensures Flatten(msgs) == [] <==> msgs == []
  {
    if msgs != [] {
      assert msgs[0] != [];
    }
  }

  /** Nothing that was published is still on its way to the client. */
  ghost predicate CaughtUp(s: System) {
    s.channel == [] && Held(s.fwd) == [] && Position(s) == |s.published|
  }

  /** So a client that has caught up has been shown the whole stream if and only if nothing was in
      flight during the attach: everything published before the subscription was in the transcript
      when the history was taken. */
  lemma WholeStreamIff(before: seq<Step>, n: nat, between: seq<Step>, after: seq<Step>)
    requires IsRun(AttachRun(before, n, between, after)) && Covered(After(before).tr, n)
    requires var s := After(AttachRun(before, n, between, after));
      CaughtUp(s) && (!s.fwd.NotSpawned? ==> !s.fwd.lagged)
    ensures var s := After(AttachRun(before, n, between, after));
      Outputs(s.socket) == Flatten(s.published) <==>
        Reached(After(before).tr) == |After(before + [TakeSnapshot(n)] + between).published|
  {
    var s := After(AttachRun(before, n, between, after));
    LossIsExact(before, n, between, after);
    RunKeepsInv(AttachRun(before, n, between, after));
    GapIsVisible(s, Reached(After(before).tr), |After(before + [TakeSnapshot(n)] + between).published|, |s.published|);
    assert Pipeline(s) == s.socket;
    TakeAll(s.published);
  }

  lemma GapIsVisible(s: System, stored: nat, seen: nat, got: nat)
    requires NonEmpty(s.published) && Shows(s, stored, seen, got)
    ensures Outputs(Pipeline(s)) == Flatten(s.published[..got]) <==> stored == seen
  {
    var gap := s.published[stored..seen];
    GapSplits(s.published, stored, seen, got);
    NonEmptyFlatten(gap);
  }

  lemma GapSplits(published: seq<Msg>, stored: nat, seen: nat, got: nat)
    requires stored <= seen <= got <= |published|
    ensures Flatten(published[..got])
         == Flatten(published[..stored]) + (Flatten(published[stored..seen]) + Flatten(published[seen..got]))
    ensures NonEmpty(published) ==> NonEmpty(published[stored..seen])
  {
    FlattenSplit(published[..got], stored);
    FlattenSplit(published[stored..got], seen - stored);
    assert published[..got][..stored] == published[..stored];
    assert published[..got][stored..] == published[stored..got];
    assert published[stored..got][..seen - stored] == published[stored..seen];
    assert published[stored..got][seen - stored..] == published[seen..got];
  }

  lemma Extend(steps: seq<Step>, step: Step)
    requires IsRun(steps) && Enabled(After(steps), step)
    ensures IsRun(steps + [step]) && After(steps + [step]) == Next(After(steps), step)
  {
    assert (steps + [step])[..|steps|] == steps;
  }

  /** Such a loss: a message published just before the attach is in neither half, although the
      transcript stores it right afterwards. */
  lemma LossExample() returns (steps: seq<Step>)
    ensures IsRun(steps) && After(steps).handler.Serving?
    ensures After(steps).published == [[65]] && After(steps).tr.log == [[65]]
    ensures Pipeline(After(steps)) == [Reply(1)]
  {
    var s4 := AttachBeforeStore();
    Extend(s4, TranscriptReceive);
    var s5 := s4 + [TranscriptReceive];
    assert After(s5).tr.held == Some(0);
    Extend(s5, TranscriptAppend);
    steps := s5 + [TranscriptAppend];
    StoreFirst();
  }

  lemma StoreFirst()
    ensures AfterAppend([], [65]) == [[65]]
  {
    SizeOne([65]);
    assert [] + [[65]] == [[65]];
  }

  lemma AttachBeforeStore() returns (steps: seq<Step>)
    ensures IsRun(steps)
    ensures var s := After(steps);
      && s.handler.Serving? && s.published == [[65]] && s.tr == Start().tr
      && s.socket == [] && s.channel == [Reply(1)] && Held(s.fwd) == []
  {
    var s0: seq<Step> := [];
    Extend(s0, Publish([65]));
    var s1 := s0 + [Publish([65])];
    Extend(s1, TakeSnapshot(1000));
    var s2 := s1 + [TakeSnapshot(1000)];
    Extend(s2, Subscribe);
    var s3 := s2 + [Subscribe];
    Extend(s3, PushReply(1));
    steps := s3 + [PushReply(1)];
  }

  // ---------------------------------------------------------------- the end of a session

  function Queued(s: System): seq<Frame> {
    s.socket + s.channel
  }

  /** The exit event is sent once, by a forwarder that then ends; only responses can follow it. */
  ghost predicate ExitInv(s: System) {
    && (s.fwd.Ended? <==> exists i :: 0 <= i < |Queued(s)| && Queued(s)[i].Exited?)
    && (forall i, j :: 0 <= i < j < |Queued(s)| && Queued(s)[i].Exited? ==> Queued(s)[j].Reply?)
  }

  lemma QueuedAfter(s: System, step: Step)
    requires Enabled(s, step)
    ensures Queued(Next(s, step)) == Queued(s) +
      match step
      case PushHistory => [Output(s.handler.snap.text)]
      case PushReply(id) => [Reply(id)]
      case ForwardPush => [s.fwd.held.value]
      case _ => []
  {
    if step.WriteFrame? {
      HeadTail(s.channel);
    }
  }

  lemma PushKeepsExitInv(s: System, next: System, f: Frame)
    requires ExitInv(s) && Queued(next) == Queued(s) + [f]
    requires s.fwd.Ended? ==> f.Reply?
    requires next.fwd.Ended? <==> s.fwd.Ended? || f.Exited?
    ensures ExitInv(next)
  {
    var before, after := Queued(s), Queued(s) + [f];
    assert forall i :: 0 <= i < |before| ==> after[i] == before[i];
    assert after[|before|] == f;
  }

  lemma QuietKeepsExitInv(s: System, next: System)
    requires ExitInv(s) && Queued(next) == Queued(s)
    requires next.fwd.Ended? == s.fwd.Ended?
    ensures ExitInv(next)
  {
  }

  /** Which steps end the forwarder. */
  lemma EndsForwarder(s: System, step: Step)
    requires HandlerInv(s) && ForwarderInv(s.fwd, s.published, s.closed) && Enabled(s, step)
    ensures Next(s, step).fwd.Ended? <==>
      s.fwd.Ended? || (step.ForwardPush? && s.fwd.held == Some(Exited))
    ensures step.PushHistory? || step.ForwardPush? ==> !s.fwd.Ended?
  {
  }

  lemma StepKeepsExitInv(s: System, step: Step)
    requires Inv(s) && ExitInv(s) && Enabled(s, step)
    ensures ExitInv(Next(s, step))
  {
    QueuedAfter(s, step);
    EndsForwarder(s, step);
    match step
    case PushHistory => PushKeepsExitInv(s, Next(s, step), Output(s.handler.snap.text));
    case PushReply(id) => PushKeepsExitInv(s, Next(s, step), Reply(id));
    case ForwardPush => PushKeepsExitInv(s, Next(s, step), s.fwd.held.value);
    case _ =>
      assert Queued(s) + [] == Queued(s);
      QuietKeepsExitInv(s, Next(s, step));
  }

  lemma {:induction false} RunKeepsExitInv(steps: seq<Step>)
    requires IsRun(steps)
    ensures ExitInv(After(steps))
  {
    if steps != [] {
      var init := steps[..|steps| - 1];
      RunKeepsInv(init);
      RunKeepsExitInv(init);
      StepKeepsExitInv(After(init), steps[|steps| - 1]);
    }
  }

  /** A client that is told of the exit has been sent everything published since its subscription,
      unless it lagged. */
  lemma ExitComesLast(steps: seq<Step>, i: nat)
    requires IsRun(steps)
    requires i < |After(steps).socket| && After(steps).socket[i].Exited?
    ensures var s := After(steps);
      && s.fwd.Ended? && s.closed && s.fwd.since <= |s.published|
      && (forall j :: i < j < |s.socket| ==> s.socket[j].Reply?)
      && (!s.fwd.lagged ==>
            Outputs(Pipeline(s)) == Replayed(s.handler) + Flatten(s.published[s.fwd.since..]))
  {
    var s := After(steps);
    RunKeepsInv(steps);
    RunKeepsExitInv(steps);
    assert Queued(s)[i] == s.socket[i];
    forall j | i < j < |s.socket| ensures s.socket[j].Reply? {
      assert Queued(s)[j] == s.socket[j];
    }
    if !s.fwd.lagged {
      PickConsecutive(s.published, s.fwd.forwarded, s.fwd.since, |s.published|);
      assert s.published[s.fwd.since..|s.published|] == s.published[s.fwd.since..];
    }
  }

  // ---------------------------------------------------------------- the size of the transcript

  ghost predicate WithinCap(s: System, bound: nat) {
    Bounded(s.published, bound) && Bounded(s.tr.log, bound) && FileSize(s.tr.log) <= MAX_TRANSCRIPT_SIZE
  }

  lemma StepKeepsTranscriptCap(s: System, step: Step, bound: nat)
    requires WithinCap(s, bound) && Enabled(s, step) && bound <= CAP_PAYLOAD_LIMIT
    requires step.Publish? ==> |step.msg| <= bound
    ensures WithinCap(Next(s, step), bound)
  {
    if step.TranscriptAppend? {
      AppendKeepsCap(s.tr.log, s.published[s.tr.held.value], bound);
      AppendKeepsBound(s.tr.log, s.published[s.tr.held.value], bound);
    }
  }

  lemma {:induction false} RunKeepsTranscriptCap(steps: seq<Step>, bound: nat)
    requires IsRun(steps) && bound <= CAP_PAYLOAD_LIMIT
    requires forall step :: step in steps && step.Publish? ==> |step.msg| <= bound
    ensures WithinCap(After(steps), bound)
  {
    if steps != [] {
      var init, step := steps[..|steps| - 1], steps[|steps| - 1];
      assert forall x :: x in init ==> x in steps;
      assert step in steps;
      RunKeepsTranscriptCap(init, bound);
      StepKeepsTranscriptCap(After(init), step, bound);
    }
  }

  /** Whatever happens on the connection, the transcript of a session never stays over its cap: the PTY
      threads publish at most 8192 bytes at a time. */
  lemma TranscriptWithinCap(steps: seq<Step>)
    requires IsRun(steps)
    requires forall step :: step in steps && step.Publish? ==> |step.msg| <= PTY_READ
    ensures FileSize(After(steps).tr.log) <= MAX_TRANSCRIPT_SIZE
  {
    RunKeepsTranscriptCap(steps, PTY_READ);
  }
}
