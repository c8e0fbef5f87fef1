/** Nothing gets stuck: from any state of any run, the transcript task and the connection can bring
    the log and the client up to date, without anything new being published. */
module Progress {
  import opened Bytes
  import opened Attach

  /** The run goes on with steps that publish nothing and leave the handler alone. */
  ghost predicate Continues(before: seq<Step>, steps: seq<Step>) {
    && before <= steps && IsRun(steps)
    && After(steps).published == After(before).published && After(steps).closed == After(before).closed
    && After(steps).handler == After(before).handler
  }

  lemma ContinuesTrans(a: seq<Step>, b: seq<Step>, c: seq<Step>)
    requires Continues(a, b) && Continues(b, c)
    ensures Continues(a, c)
  {
  }

  /** One more step. */
  lemma StepOn(before: seq<Step>, step: Step)
    requires IsRun(before) && Enabled(After(before), step)
    requires step in {TranscriptReceive, TranscriptAppend, ForwardReceive, ForwardPush, WriteFrame}
    ensures Continues(before, before + [step]) && After(before + [step]) == Next(After(before), step)
  {
    Extend(before, step);
  }

  /** The writer task can empty the channel. */
  lemma {:induction false} EmptyChannel(before: seq<Step>) returns (steps: seq<Step>)
    requires IsRun(before)
    ensures Continues(before, steps) && After(steps).channel == []
    ensures After(steps).fwd == After(before).fwd && After(steps).tr == After(before).tr
    decreases |After(before).channel|
  {
    if After(before).channel == [] {
      steps := before;
    } else {
      StepOn(before, WriteFrame);
      steps := EmptyChannel(before + [WriteFrame]);
      ContinuesTrans(before, before + [WriteFrame], steps);
    }
  }

  /** The forwarder has gone on, and has not lagged if it was within the ring. */
  ghost predicate Onward(a: System, b: System) {
    && a.fwd.Running? && b.fwd.Running? && b.published == a.published
    && b.fwd.since == a.fwd.since && a.fwd.cursor <= b.fwd.cursor
    && (|a.published| <= a.fwd.cursor + 512 ==> b.fwd.lagged == a.fwd.lagged)
  }

  lemma OnwardTrans(a: System, b: System, c: System)
    requires Onward(a, b) && Onward(b, c)
    ensures Onward(a, c)
  {
  }

  lemma PushOne(before: seq<Step>) returns (steps: seq<Step>)
    requires IsRun(before) && After(before).fwd.Running?
    requires After(before).fwd.held.Some? && !After(before).fwd.held.value.Exited?
    ensures Continues(before, steps) && Onward(After(before), After(steps))
    ensures After(steps).fwd.cursor == After(before).fwd.cursor && After(steps).fwd.held.None?
  {
    RunKeepsInv(before);
    var empty := EmptyChannel(before);
    StepOn(empty, ForwardPush);
    steps := empty + [ForwardPush];
    ContinuesTrans(before, empty, steps);
  }

  lemma ReceiveOne(before: seq<Step>) returns (steps: seq<Step>)
    requires IsRun(before) && After(before).fwd.Running? && After(before).fwd.held.None?
    requires After(before).fwd.cursor < |After(before).published|
    ensures Continues(before, steps) && Onward(After(before), After(steps))
    ensures After(before).fwd.cursor < After(steps).fwd.cursor <= |After(steps).published|
    ensures After(steps).fwd.held != Some(Exited)
  {
    StepOn(before, ForwardReceive);
    steps := before + [ForwardReceive];
  }

  /** A client can be sent everything that was published since it subscribed; nothing is lost on the way
      if it was within the ring. */
  lemma {:induction false} CatchUp(before: seq<Step>) returns (steps: seq<Step>)
    requires IsRun(before) && After(before).fwd.Running? && After(before).fwd.held != Some(Exited)
    requires After(before).fwd.cursor <= |After(before).published|
    ensures Continues(before, steps) && Onward(After(before), After(steps)) && CaughtUp(After(steps))
    decreases |After(before).published| - After(before).fwd.cursor, |Held(After(before).fwd)|
  {
    if After(before).fwd.held.Some? {
      var next := PushOne(before);
      steps := CatchUp(next);
      ContinuesTrans(before, next, steps);
      OnwardTrans(After(before), After(next), After(steps));
    } else if After(before).fwd.cursor < |After(before).published| {
      var next := ReceiveOne(before);
      steps := CatchUp(next);
      ContinuesTrans(before, next, steps);
      OnwardTrans(After(before), After(next), After(steps));
    } else {
      steps := EmptyChannel(before);
    }
  }

  lemma PushExit(before: seq<Step>) returns (steps: seq<Step>)
    requires IsRun(before) && After(before).fwd.Running? && After(before).fwd.held == Some(Exited)
    ensures Continues(before, steps) && After(steps).fwd.Ended? && After(steps).channel == []
  {
    var empty := EmptyChannel(before);
    StepOn(empty, ForwardPush);
    var pushed := empty + [ForwardPush];
    steps := EmptyChannel(pushed);
    ContinuesTrans(before, empty, pushed);
    ContinuesTrans(before, pushed, steps);
  }

  lemma ReceiveEnd(before: seq<Step>) returns (steps: seq<Step>)
    requires IsRun(before) && After(before).closed && After(before).fwd.Running? && CaughtUp(After(before))
    ensures Continues(before, steps) && After(steps).fwd.Running? && After(steps).fwd.held == Some(Exited)
  {
    StepOn(before, ForwardReceive);
    steps := before + [ForwardReceive];
  }

  /** When the session has ended, every client can be sent the exit event. */
  lemma SendExit(before: seq<Step>) returns (steps: seq<Step>, x: nat)
    requires IsRun(before) && After(before).closed && After(before).fwd.Running?
    ensures Continues(before, steps) && x < |After(steps).socket| && After(steps).socket[x].Exited?
  {
    RunKeepsInv(before);
    if After(before).fwd.held == Some(Exited) {
      steps := PushExit(before);
    } else {
      var caught := CatchUp(before);
      var held := ReceiveEnd(caught);
      steps := PushExit(held);
      ContinuesTrans(before, caught, held);
      ContinuesTrans(before, held, steps);
    }
    RunKeepsExitInv(steps);
    assert Queued(After(steps)) == After(steps).socket;
    x :| 0 <= x < |After(steps).socket| && After(steps).socket[x].Exited?;
  }

  // ---------------------------------------------------------------- the handler

  /** What a step of the handler leaves alone. */
  ghost predicate SameStream(a: System, b: System) {
    b.published == a.published && b.closed == a.closed && b.tr == a.tr
  }

  lemma HandlerStep(before: seq<Step>, step: Step)
    requires IsRun(before) && Enabled(After(before), step)
    requires step.TakeSnapshot? || step.PushHistory? || step.Subscribe? || step.PushReply?
    ensures IsRun(before + [step]) && After(before + [step]) == Next(After(before), step)
    ensures SameStream(After(before), After(before + [step]))
  {
    Extend(before, step);
  }

  /** The history part of an attach: a snapshot, and its event unless it is empty. */
  lemma ReplayHistory(before: seq<Step>, n: nat) returns (steps: seq<Step>)
    requires IsRun(before) && After(before).handler.Waiting?
    ensures before + [TakeSnapshot(n)] <= steps && IsRun(steps) && SameStream(After(before), After(steps))
    ensures After(steps).handler.Subscribing? && After(steps).channel == []
  {
    HandlerStep(before, TakeSnapshot(n));
    var taken := before + [TakeSnapshot(n)];
    var empty := EmptyChannel(taken);
    if After(empty).handler.Replaying? {
      HandlerStep(empty, PushHistory);
      steps := EmptyChannel(empty + [PushHistory]);
    } else {
      steps := empty;
    }
  }

  lemma SubscribeNow(before: seq<Step>) returns (steps: seq<Step>)
    requires IsRun(before) && After(before).handler.Subscribing?
    ensures before <= steps && IsRun(steps)
    ensures var s := After(before);
      After(steps) == s.(fwd := Running(|s.published|, |s.published|, None, [], false), handler := Replying(s.handler.snap))
  {
    HandlerStep(before, Subscribe);
    steps := before + [Subscribe];
  }

  lemma AnswerNow(before: seq<Step>, id: nat) returns (steps: seq<Step>)
    requires IsRun(before) && After(before).handler.Replying? && After(before).channel == []
    ensures before <= steps && IsRun(steps)
    ensures var s := After(before);
      After(steps) == s.(socket := s.socket + [Reply(id)], handler := Serving(s.handler.snap))
  {
    HandlerStep(before, PushReply(id));
    var answered := before + [PushReply(id)];
    assert After(answered).channel == [Reply(id)];
    Extend(answered, WriteFrame);
    steps := answered + [WriteFrame];
    assert [Reply(id)][1..] == [];
  }

  /** A request to attach can always be answered at once: whatever is going on, the history is taken,
      sent, the client is subscribed and the response reaches the socket. */
  lemma AttachCompletes(before: seq<Step>, n: nat, id: nat) returns (steps: seq<Step>)
    requires IsRun(before) && After(before).handler.Waiting?
    ensures before + [TakeSnapshot(n)] <= steps && IsRun(steps) && SameStream(After(before), After(steps))
    ensures var s := After(steps);
      && s.handler.Serving? && s.channel == [] && s.socket != [] && s.socket[|s.socket| - 1] == Reply(id)
      && s.fwd == Running(|s.published|, |s.published|, None, [], false)
  {
    var sent := ReplayHistory(before, n);
    var subscribed := SubscribeNow(sent);
    steps := AnswerNow(subscribed, id);
  }

  /** So an attach with nothing in flight, to a session that lives, can always go on to show the whole
      stream, from any point at which the client is within the ring and has not lagged. */
  lemma WholeStreamReachable(before: seq<Step>, n: nat, between: seq<Step>, after: seq<Step>) returns (more: seq<Step>)
    requires IsRun(AttachRun(before, n, between, after)) && Covered(After(before).tr, n)
    requires Reached(After(before).tr) == |After(before + [TakeSnapshot(n)] + between).published|
    requires var s := After(AttachRun(before, n, between, after));
      !s.closed && (s.fwd.Running? ==> !s.fwd.lagged && |s.published| <= s.fwd.cursor + 512)
    ensures IsRun(AttachRun(before, n, between, after + more))
    ensures var s, t := After(AttachRun(before, n, between, after)), After(AttachRun(before, n, between, after + more));
      t.published == s.published && Outputs(t.socket) == Flatten(s.published)
  {
    var steps := AttachRun(before, n, between, after);
    RunKeepsInv(steps);
    LossIsExact(before, n, between, after);
    var later := CatchUp(steps);
    more := later[|steps|..];
    assert later == steps + more;
    ConcatAssoc(before + [TakeSnapshot(n)] + between + [Subscribe], after, more);
    WholeStreamIff(before, n, between, after + more);
  }

  // ---------------------------------------------------------------- the transcript task

  lemma StoreOne(before: seq<Step>) returns (steps: seq<Step>)
    requires IsRun(before) && !After(before).tr.stopped && After(before).tr.held.Some?
    ensures Continues(before, steps) && !After(steps).tr.stopped && After(steps).fwd == After(before).fwd
    ensures After(steps).tr.cursor == After(before).tr.cursor && After(steps).tr.held.None?
    ensures After(steps).tr.lagged == After(before).tr.lagged
  {
    RunKeepsInv(before);
    StepOn(before, TranscriptAppend);
    steps := before + [TranscriptAppend];
  }

  lemma TakeOne(before: seq<Step>) returns (steps: seq<Step>)
    requires IsRun(before) && !After(before).tr.stopped && After(before).tr.held.None?
    requires After(before).tr.cursor < |After(before).published|
    ensures Continues(before, steps) && !After(steps).tr.stopped && After(steps).fwd == After(before).fwd
    ensures After(before).tr.cursor < After(steps).tr.cursor <= |After(steps).published|
    ensures |After(before).published| <= After(before).tr.cursor + 512 ==>
      After(steps).tr.lagged == After(before).tr.lagged
  {
    StepOn(before, TranscriptReceive);
    steps := before + [TranscriptReceive];
  }

  /** Until it is stopped, the transcript task can log everything that was published. */
  lemma {:induction false} LogAll(before: seq<Step>) returns (steps: seq<Step>)
    requires IsRun(before) && !After(before).tr.stopped && After(before).tr.cursor <= |After(before).published|
    ensures Continues(before, steps) && Reached(After(steps).tr) == |After(steps).published|
    ensures After(steps).tr.held.None? && After(steps).fwd == After(before).fwd
    ensures |After(before).published| <= After(before).tr.cursor + 512 ==>
      After(steps).tr.lagged == After(before).tr.lagged
    decreases |After(before).published| - After(before).tr.cursor, if After(before).tr.held.Some? then 1 else 0
  {
    if After(before).tr.held.Some? {
      var next := StoreOne(before);
      steps := LogAll(next);
      ContinuesTrans(before, next, steps);
    } else if After(before).tr.cursor < |After(before).published| {
      var next := TakeOne(before);
      steps := LogAll(next);
      ContinuesTrans(before, next, steps);
    } else {
      steps := before;
    }
  }
}
