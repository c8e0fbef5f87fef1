/** What the ring of 512 messages means for its two receivers: a message is missed only when it has
    been overwritten, so a receiver that keeps up misses nothing. */
module RingLag {
  import opened Bytes
  import opened ChunkCodec
  import opened Retention
  import opened Attach

  // ---------------------------------------------------------------- only overwritten messages are missed

  /** Of the messages from `lo` to `hi`, those not in `idx` have been overwritten. */
  ghost predicate OnlyOverwritten(idx: seq<nat>, lo: nat, hi: nat, published: nat) {
    forall i :: lo <= i < hi && i !in idx ==> i + 512 < published
  }

  /** The first message whose absence from the log is not due to truncation. */
  function Oldest(t: Transcript): nat {
    if !t.truncated then 0 else if t.logged == [] then Reached(t) else t.logged[0]
  }

  ghost predicate TranscriptGap(t: Transcript, published: nat) {
    OnlyOverwritten(t.logged, Oldest(t), Reached(t), published)
  }

  ghost predicate ForwarderGap(f: Forwarder, published: nat) {
    match f
    case NotSpawned => true
    case Running(since, cursor, _, forwarded, _) => OnlyOverwritten(forwarded, since, cursor, published)
    case Ended(since, forwarded, _) => OnlyOverwritten(forwarded, since, published, published)
  }

  ghost predicate GapInv(s: System) {
    TranscriptGap(s.tr, |s.published|) && ForwarderGap(s.fwd, |s.published|)
  }

  lemma OverwrittenGrows(idx: seq<nat>, lo: nat, hi: nat, published: nat, more: nat)
    requires OnlyOverwritten(idx, lo, hi, published) && published <= more
    ensures OnlyOverwritten(idx, lo, hi, more)
  {
  }

  lemma OverwrittenSnoc(idx: seq<nat>, lo: nat, i: nat, published: nat)
    requires OnlyOverwritten(idx, lo, i, published)
    ensures OnlyOverwritten(idx + [i], lo, i + 1, published)
  {
    assert forall k :: k in idx ==> k in idx + [i];
    assert (idx + [i])[|idx|] == i;
  }

  lemma OverwrittenSkip(idx: seq<nat>, lo: nat, hi: nat, next: nat, published: nat)
    requires OnlyOverwritten(idx, lo, hi, published) && next + 512 <= published
    ensures OnlyOverwritten(idx, lo, next, published)
  {
  }

  lemma ReceiveGap(t: Transcript, published: seq<Msg>)
    requires TranscriptInv(t, published) && t.held.None?
    requires TranscriptGap(t, |published|)
    ensures TranscriptGap(AfterReceive(t, |published|), |published|)
  {
    var r := Receive(t.cursor, |published|, false);
    if r.Lagged? {
      OverwrittenSkip(t.logged, Oldest(t), t.cursor, r.next, |published|);
    }
  }

  lemma SuffixGap(idx: seq<nat>, end: seq<nat>, lo: nat, hi: nat, published: nat)
    requires StrictlyIncreasing(idx) && IsSuffix(end, idx) && end != []
    requires OnlyOverwritten(idx, lo, hi, published)
    ensures end[0] >= idx[0]
    ensures lo <= end[0] ==> OnlyOverwritten(end, end[0], hi, published)
  {
    var n := |idx| - |end|;
    assert end[0] == idx[n];
    forall i | end[0] <= i && i in idx ensures i in end {
      var k :| 0 <= k < |idx| && idx[k] == i;
      assert k >= n;
      assert end[k - n] == i;
    }
  }

  lemma StoreGap(t: Transcript, published: seq<Msg>)
    requires TranscriptInv(t, published) && t.held.Some? && NonEmpty(published)
    requires TranscriptGap(t, |published|)
    ensures TranscriptGap(AfterStore(t, published), |published|)
  {
    var i := t.held.value;
    var all, next := t.logged + [i], AfterStore(t, published);
    AppendKeepsSuffix(t.log, published[i]);
    OverwrittenSnoc(t.logged, Oldest(t), i, |published|);
    AddIndex(t.logged, 0, i);
    if next.truncated {
      SuffixGap(all, next.logged, Oldest(t), i + 1, |published|);
    } else {
      assert next.logged == all;
    }
  }

  lemma ForwardGap(f: Forwarder, published: seq<Msg>, closed: bool)
    requires ForwarderInv(f, published, closed) && f.Running? && f.held.None?
    requires ForwarderGap(f, |published|)
    ensures ForwarderGap(AfterForward(f, published, closed), |published|)
  {
    var r := Receive(f.cursor, |published|, closed);
    if r.Message? {
      OverwrittenSnoc(f.forwarded, f.since, f.cursor, |published|);
    } else if r.Lagged? {
      OverwrittenSkip(f.forwarded, f.since, f.cursor, r.next, |published|);
    }
  }

  lemma TranscriptStepGap(s: System, step: Step)
    requires Inv(s) && TranscriptGap(s.tr, |s.published|) && Enabled(s, step)
    ensures TranscriptGap(Next(s, step).tr, |Next(s, step).published|)
  {
    match step
    case Publish(_) => OverwrittenGrows(s.tr.logged, Oldest(s.tr), Reached(s.tr), |s.published|, |s.published| + 1);
    case TranscriptReceive => ReceiveGap(s.tr, s.published);
    case TranscriptAppend => StoreGap(s.tr, s.published);
    case TranscriptStop => StopGap(s.tr, |s.published|);
    case _ => assert Next(s, step).tr == s.tr && Next(s, step).published == s.published;
  }

  lemma StopGap(t: Transcript, published: nat)
    requires TranscriptGap(t, published)
    ensures TranscriptGap(t.(stopped := true), published)
  {
  }

  lemma PublishForwarderGap(f: Forwarder, published: nat)
    requires ForwarderGap(f, published) && !f.Ended?
    ensures ForwarderGap(f, published + 1)
  {
    if f.Running? {
      OverwrittenGrows(f.forwarded, f.since, f.cursor, published, published + 1);
    }
  }

  lemma PushForwarderGap(s: System)
    requires ForwarderInv(s.fwd, s.published, s.closed) && Enabled(s, ForwardPush)
    requires ForwarderGap(s.fwd, |s.published|)
    ensures ForwarderGap(Next(s, ForwardPush).fwd, |s.published|)
  {
  }

  lemma SubscribeGap(published: nat)
    ensures ForwarderGap(Running(published, published, None, [], false), published)
  {
  }

  lemma ForwarderStepGap(s: System, step: Step)
    requires Inv(s) && ForwarderGap(s.fwd, |s.published|) && Enabled(s, step)
    ensures ForwarderGap(Next(s, step).fwd, |Next(s, step).published|)
  {
    match step
    case Publish(_) => PublishForwarderGap(s.fwd, |s.published|);
    case Subscribe => SubscribeGap(|s.published|);
    case ForwardReceive => ForwardGap(s.fwd, s.published, s.closed);
    case ForwardPush => PushForwarderGap(s);
    case _ => assert Next(s, step).fwd == s.fwd && Next(s, step).published == s.published;
  }

  lemma {:induction false} RunKeepsGaps(steps: seq<Step>)
    requires IsRun(steps)
    ensures GapInv(After(steps))
  {
    if steps != [] {
      AfterLast(steps);
      RunKeepsInv(steps[..|steps| - 1]);
      RunKeepsGaps(steps[..|steps| - 1]);
      TranscriptStepGap(After(steps[..|steps| - 1]), steps[|steps| - 1]);
      ForwarderStepGap(After(steps[..|steps| - 1]), steps[|steps| - 1]);
    }
  }

  /** In every run, a message that the forwarder should have received since it subscribed and did not
      forward has been overwritten by 512 newer ones. */
  lemma {:induction false} OnlyOverwrittenMissed(steps: seq<Step>, i: nat)
    requires IsRun(steps) && After(steps).fwd.Running?
    requires After(steps).fwd.since <= i < After(steps).fwd.cursor && i !in After(steps).fwd.forwarded
    ensures i + 512 < |After(steps).published|
  {
    RunKeepsGaps(steps);
  }

  /** In every run, a message that is behind the transcript task, is not in the log and is newer than
      its oldest chunk has been overwritten by 512 newer ones. */
  lemma {:induction false} OnlyOverwrittenUnlogged(steps: seq<Step>, i: nat)
    requires IsRun(steps) && i < Reached(After(steps).tr) && i !in After(steps).tr.logged
    requires After(steps).tr.truncated ==> After(steps).tr.logged != [] && i > After(steps).tr.logged[0]
    ensures i + 512 < |After(steps).published|
  {
    RunKeepsGaps(steps);
  }

  // ---------------------------------------------------------------- receivers that keep up

  /** The transcript task is never more than 512 messages behind. */
  ghost predicate TranscriptKeepsUp(steps: seq<Step>) {
    steps == [] ||
    (TranscriptKeepsUp(steps[..|steps| - 1]) && |After(steps).published| <= After(steps).tr.cursor + 512)
  }

  /** Neither is the forwarder. */
  ghost predicate ForwarderKeepsUp(steps: seq<Step>) {
    steps == [] ||
    (ForwarderKeepsUp(steps[..|steps| - 1]) &&
     (After(steps).fwd.Running? ==> |After(steps).published| <= After(steps).fwd.cursor + 512))
  }

  lemma {:induction false} TranscriptNotLagged(steps: seq<Step>)
    requires IsRun(steps) && TranscriptKeepsUp(steps)
    ensures !After(steps).tr.lagged && |After(steps).published| <= After(steps).tr.cursor + 512
  {
    if steps != [] {
      AfterLast(steps);
      TranscriptNotLagged(steps[..|steps| - 1]);
    }
  }

  ghost predicate ForwarderClose(s: System) {
    match s.fwd
    case NotSpawned => true
    case Running(_, cursor, _, _, lagged) => !lagged && |s.published| <= cursor + 512
    case Ended(_, _, lagged) => !lagged
  }

  lemma ForwarderStaysClose(s: System, step: Step)
    requires ForwarderInv(s.fwd, s.published, s.closed) && ForwarderClose(s) && Enabled(s, step)
    requires var t := Next(s, step); t.fwd.Running? ==> |t.published| <= t.fwd.cursor + 512
    ensures ForwarderClose(Next(s, step))
  {
    match step
    case ForwardReceive =>
      assert !Receive(s.fwd.cursor, |s.published|, s.closed).Lagged?;
    case _ =>
  }

  lemma {:induction false} ForwarderNotLagged(steps: seq<Step>)
    requires IsRun(steps) && ForwarderKeepsUp(steps)
    ensures ForwarderClose(After(steps))
  {
    if steps != [] {
      AfterLast(steps);
      ForwarderNotLagged(steps[..|steps| - 1]);
      RunKeepsInv(steps[..|steps| - 1]);
      ForwarderStaysClose(After(steps[..|steps| - 1]), steps[|steps| - 1]);
    }
  }

  /** A log that lost nothing is the stream so far. */
  lemma CompleteLog(t: Transcript, published: seq<Msg>)
    requires TranscriptInv(t, published) && !t.lagged && !t.truncated
    ensures |t.log| == Reached(t) <= |published| && t.log == published[..Reached(t)]
  {
  }

  lemma PrefixSize(published: seq<Msg>, k: nat)
    requires k <= |published|
    ensures FileSize(published[..k]) <= FileSize(published)
  {
    TakeDrop(published, k);
    SizeConcat(published[..k], published[k..]);
  }

  /** All that was published fits a file of 100 MiB, with 32 bytes for every chunk. */
  ghost predicate StreamFits(published: seq<Msg>) {
    |Flatten(published)| + 32 * |published| <= 104_857_600
  }

  lemma StoreWithoutTruncation(t: Transcript, published: seq<Msg>)
    requires TranscriptInv(t, published) && t.held.Some? && !t.lagged && !t.truncated && StreamFits(published)
    ensures !AfterStore(t, published).truncated
  {
    var i := t.held.value;
    CompleteLog(t, published);
    TakeSnoc(published, i);
    PrefixSize(published, i + 1);
    FileSizeInBytes(published);
    assert t.log + [published[i]] == published[..i + 1];
  }

  lemma StreamFitsBefore(s: System, step: Step)
    requires Enabled(s, step) && StreamFits(Next(s, step).published)
    ensures StreamFits(s.published)
  {
    if step.Publish? {
      FlattenSnoc(s.published, step.msg);
    }
  }

  lemma {:induction false} NotTruncated(steps: seq<Step>)
    requires IsRun(steps) && TranscriptKeepsUp(steps) && StreamFits(After(steps).published)
    ensures !After(steps).tr.truncated
  {
    if steps != [] {
      var before, last := steps[..|steps| - 1], steps[|steps| - 1];
      AfterLast(steps);
      StreamFitsBefore(After(before), last);
      NotTruncated(before);
      TranscriptNotLagged(before);
      RunKeepsInv(before);
      if last.TranscriptAppend? {
        StoreWithoutTruncation(After(before).tr, After(before).published);
      }
    }
  }

  /** While everything fits and the task keeps up, the log is the stream up to what is in flight. */
  lemma TranscriptIsStream(steps: seq<Step>)
    requires IsRun(steps) && TranscriptKeepsUp(steps) && StreamFits(After(steps).published)
    ensures var s := After(steps);
      && |s.tr.log| <= |s.published| <= |s.tr.log| + 513
      && s.tr.log == s.published[..|s.tr.log|]
      && Reached(s.tr) == |s.tr.log| && !s.tr.lagged && !s.tr.truncated
  {
    RunKeepsInv(steps);
    TranscriptNotLagged(steps);
    NotTruncated(steps);
    CompleteLog(After(steps).tr, After(steps).published);
  }

  /** What an attach loses when nobody falls behind the ring, the transcript is within its cap and the
      history request covers it: exactly the messages that were not in the log when the history was
      taken and had been published before the subscription. */
  lemma LossWithoutLag(before: seq<Step>, n: nat, between: seq<Step>, after: seq<Step>)
    requires IsRun(AttachRun(before, n, between, after))
    requires TranscriptKeepsUp(before) && ForwarderKeepsUp(AttachRun(before, n, between, after))
    requires StreamFits(After(before).published) && |Flatten(After(before).published)| <= n
    ensures var s := After(AttachRun(before, n, between, after));
      var stored, seen := |After(before).tr.log|, |After(before + [TakeSnapshot(n)] + between).published|;
      && Shows(s, stored, seen, Position(s))
      && (CaughtUp(s) ==> (Outputs(s.socket) == Flatten(s.published) <==> stored == seen))
  {
    CoveredBefore(before, n, between, after);
    ForwarderNotLagged(AttachRun(before, n, between, after));
    LossIsExact(before, n, between, after);
    if CaughtUp(After(AttachRun(before, n, between, after))) {
      WholeStreamIff(before, n, between, after);
    }
  }

  lemma CoveredBefore(before: seq<Step>, n: nat, between: seq<Step>, after: seq<Step>)
    requires IsRun(AttachRun(before, n, between, after)) && TranscriptKeepsUp(before)
    requires StreamFits(After(before).published) && |Flatten(After(before).published)| <= n
    ensures Covered(After(before).tr, n) && Reached(After(before).tr) == |After(before).tr.log|
  {
    Regroup(before, [TakeSnapshot(n)], between, [Subscribe] + after);
    assert AttachRun(before, n, between, after) == before + ([TakeSnapshot(n)] + between + ([Subscribe] + after));
    RunPrefix(before, [TakeSnapshot(n)] + between + ([Subscribe] + after));
    TranscriptIsStream(before);
    FlattenSplit(After(before).published, |After(before).tr.log|);
  }
}
