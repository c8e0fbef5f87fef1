/** Chord keys: the prefix parser of the attach loop, as a class that refines a Mealy machine. */
module Chords {
  import opened Bytes

  const CTRL_BACKSLASH: byte := 0x1c
  const CTRL_B: byte := 0x02

  predicate IsPrefixByte(b: byte) {
    b == CTRL_BACKSLASH || b == CTRL_B
  }

  datatype Action = Detach | Switch | New | Help | LiteralPrefix(b: byte)

  datatype Event = Passthrough(from: nat, to: nat) | Act(action: Action) | Pending

  datatype State = Idle | AwaitChord(prefix: byte)

  // ---------------------------------------------------------------- one byte at a time

  /** What reaches the parser: a byte, or the timeout that drops a stale prefix. */
  datatype Key = Press(b: byte) | Tick

  /** What the user asked for: a byte for the session, or an action. */
  datatype Output = Byte(b: byte) | Do(action: Action)

  datatype Result = Result(state: State, outs: seq<Output>)

  function Chord(prefix: byte, b: byte): Option<Action> {
    if b == 'd' as int || b == 'D' as int then Some(Detach)
    else if b == 's' as int || b == 'S' as int then Some(Switch)
    else if b == 'n' as int || b == 'N' as int then Some(New)
    else if b == '?' as int || b == 'h' as int || b == 'H' as int then Some(Help)
    else if b == prefix then Some(LiteralPrefix(prefix))
    else None
  }

  function Step(s: State, k: Key): Result {
    match k
    case Tick => Result(Idle, [])
    case Press(b) =>
      match s
      case Idle => if IsPrefixByte(b) then Result(AwaitChord(b), []) else Result(Idle, [Byte(b)])
      case AwaitChord(prefix) =>
        var action := Chord(prefix, b);
        Result(Idle, if action.Some? then [Do(action.value)] else [])
  }

  /** The Mealy machine that the parser refines. */
  function Run(s: State, keys: seq<Key>): Result {
    if keys == [] then Result(s, [])
    else
      var before := Run(s, keys[..|keys| - 1]);
      var last := Step(before.state, keys[|keys| - 1]);
      Result(last.state, before.outs + last.outs)
  }

  function Presses(bytes: seq<byte>): (keys: seq<Key>)
    ensures |keys| == |bytes|
    ensures forall i :: 0 <= i < |keys| ==> keys[i] == Press(bytes[i])
  {
    seq(|bytes|, i requires 0 <= i < |bytes| => Press(bytes[i]))
  }

  lemma RunSnoc(s: State, keys: seq<Key>, k: Key)
    ensures Run(s, keys + [k]) ==
      var before := Run(s, keys);
      Result(Step(before.state, k).state, before.outs + Step(before.state, k).outs)
  {
    assert (keys + [k])[..|keys|] == keys;
  }

  lemma RunOne(s: State, k: Key)
    ensures Run(s, [k]) == Step(s, k)
  {
    RunSnoc(s, [], k);
    assert [] + [k] == [k];
  }

  /** The documented chords, after either prefix; an unbound key is dropped together with the prefix. */
  lemma DocumentedChords(prefix: byte, key: byte)
    requires prefix == 0x1c || prefix == 0x02  // Ctrl-\ and Ctrl-B
    ensures var r := Run(Idle, [Press(prefix), Press(key)]);
      && r.state == Idle
      && (key in {0x64, 0x44} <==> r.outs == [Do(Detach)])        // d D
      && (key in {0x73, 0x53} <==> r.outs == [Do(Switch)])        // s S
      && (key in {0x6e, 0x4e} <==> r.outs == [Do(New)])           // n N
      && (key in {0x3f, 0x68, 0x48} <==> r.outs == [Do(Help)])    // ? h H
      && (key == prefix <==> r.outs == [Do(LiteralPrefix(prefix))])
      && (key !in {0x64, 0x44, 0x73, 0x53, 0x6e, 0x4e, 0x3f, 0x68, 0x48, prefix} <==> r.outs == [])
  {
    assert [Press(prefix)] + [Press(key)] == [Press(prefix), Press(key)];
    RunConcat(Idle, [Press(prefix)], [Press(key)]);
    RunOne(Idle, Press(prefix));
    RunOne(AwaitChord(prefix), Press(key));
    var outs := Step(AwaitChord(prefix), Press(key)).outs;
    assert [] + outs == outs;
  }

  /** A single key in the idle state: the two prefixes are held, any other byte is delivered. */
  lemma FirstKey(b: byte)
    ensures Run(Idle, [Press(b)]) ==
      if b == 0x1c || b == 0x02 then Result(AwaitChord(b), []) else Result(Idle, [Byte(b)])
  {
    RunOne(Idle, Press(b));
  }

  /** Where the input is split does not matter. */
  lemma {:induction false} RunConcat(s: State, a: seq<Key>, b: seq<Key>)
    ensures Run(s, a + b) ==
      Result(Run(Run(s, a).state, b).state, Run(s, a).outs + Run(Run(s, a).state, b).outs)
    decreases |b|
  {
    if b == [] {
      assert a + b == a;
    } else {
      var init, last := b[..|b| - 1], b[|b| - 1];
      var mid := Run(s, a).state;
      RunConcat(s, a, init);
      InitConcat(a, b);
      ConcatAssoc(Run(s, a).outs, Run(mid, init).outs, Step(Run(mid, init).state, last).outs);
    }
  }

  /** The machine after the first `i` bytes of a chunk. */
  function RunTo(s: State, chunk: seq<byte>, i: nat): Result
    requires i <= |chunk|
  {
    if i == 0 then Result(s, [])
    else
      var before := RunTo(s, chunk, i - 1);
      var last := Step(before.state, Press(chunk[i - 1]));
      Result(last.state, before.outs + last.outs)
  }

  lemma {:induction false} RunToIsRun(s: State, chunk: seq<byte>, i: nat)
    requires i <= |chunk|
    ensures RunTo(s, chunk, i) == Run(s, Presses(chunk[..i]))
  {
    if i > 0 {
      RunToIsRun(s, chunk, i - 1);
      assert Presses(chunk[..i]) == Presses(chunk[..i - 1]) + [Press(chunk[i - 1])];
      RunSnoc(s, Presses(chunk[..i - 1]), Press(chunk[i - 1]));
    }
  }

  // ---------------------------------------------------------------- the parser

  /** Bytes `from` to `to` of the chunk, verbatim. */
  function Span(chunk: seq<byte>, from: nat, to: nat): (outs: seq<Output>)
    requires from <= to <= |chunk|
    ensures |outs| == to - from
    ensures forall i :: from <= i < to ==> outs[i - from] == Byte(chunk[i])
  {
    if from == to then [] else Span(chunk, from, to - 1) + [Byte(chunk[to - 1])]
  }

  function Expansion(chunk: seq<byte>, e: Event): seq<Output> {
    match e
    case Passthrough(from, to) => if from <= to <= |chunk| then Span(chunk, from, to) else []
    case Act(action) => [Do(action)]
    case Pending => []
  }

  /** What a list of events means for the chunk it was made from. */
  function Expand(chunk: seq<byte>, events: seq<Event>): seq<Output> {
    if events == [] then []
    else Expand(chunk, events[..|events| - 1]) + Expansion(chunk, events[|events| - 1])
  }

  lemma ExpandSnoc(chunk: seq<byte>, events: seq<Event>, e: Event)
    ensures Expand(chunk, events + [e]) == Expand(chunk, events) + Expansion(chunk, e)
  {
    assert (events + [e])[..|events|] == events;
  }

  /** Byte `i` of the chunk goes to the session as it is. */
  predicate Delivered(s: State, chunk: seq<byte>, i: nat)
    requires i < |chunk|
  {
    RunTo(s, chunk, i).state.Idle? && !IsPrefixByte(chunk[i])
  }

  /** The range holds delivered bytes only and cannot be extended on either side. */
  ghost predicate MaximalRun(s: State, chunk: seq<byte>, from: nat, to: nat) {
    && from < to <= |chunk|
    && (forall i :: from <= i < to ==> Delivered(s, chunk, i))
    && (from > 0 ==> !Delivered(s, chunk, from - 1))
    && (to < |chunk| ==> !Delivered(s, chunk, to))
  }

  ghost predicate MaximalRuns(s: State, chunk: seq<byte>, events: seq<Event>) {
    forall k :: 0 <= k < |events| && events[k].Passthrough? ==>
      MaximalRun(s, chunk, events[k].from, events[k].to)
  }

  /** Ranges come in order, and at least one byte lies between two of them. */
  ghost predicate InOrder(events: seq<Event>) {
    forall j, k :: 0 <= j < k < |events| && events[j].Passthrough? && events[k].Passthrough?
      ==> events[j].to < events[k].from
  }

  ghost predicate AllBefore(events: seq<Event>, end: nat) {
    forall k :: 0 <= k < |events| && events[k].Passthrough? ==> events[k].to < end
  }

  /** The ranges among the events are maximal runs, in order, and end before `end`. */
  ghost predicate Shape(s: State, chunk: seq<byte>, events: seq<Event>, end: nat) {
    MaximalRuns(s, chunk, events) && InOrder(events) && AllBefore(events, end)
  }

  lemma ShapeWithRun(s: State, chunk: seq<byte>, events: seq<Event>, from: nat, to: nat)
    requires Shape(s, chunk, events, from) && MaximalRun(s, chunk, from, to)
    ensures Shape(s, chunk, events + [Passthrough(from, to)], to + 1)
  {
  }

  lemma ShapeWithOther(s: State, chunk: seq<byte>, events: seq<Event>, e: Event, end: nat)
    requires Shape(s, chunk, events, end) && !e.Passthrough?
    ensures Shape(s, chunk, events + [e], end)
  {
  }

  lemma ShapeLater(s: State, chunk: seq<byte>, events: seq<Event>, end: nat, later: nat)
    requires Shape(s, chunk, events, end) && end <= later
    ensures Shape(s, chunk, events, later)
  {
  }

  /** Bytes of the run that has not been flushed. */
  function Open(chunk: seq<byte>, runStart: Option<nat>, i: nat): seq<Output>
    requires runStart.Some? ==> runStart.value <= i
    requires i <= |chunk|
  {
    if runStart.Some? then Span(chunk, runStart.value, i) else []
  }

  /** The open run, if any, is a maximal run so far. */
  ghost predicate RunSoFar(s: State, chunk: seq<byte>, runStart: Option<nat>, i: nat)
    requires i <= |chunk|
  {
    match runStart
    case None => i > 0 ==> !Delivered(s, chunk, i - 1)
    case Some(start) =>
      && start < i
      && (forall j :: start <= j < i ==> Delivered(s, chunk, j))
      && (start > 0 ==> !Delivered(s, chunk, start - 1))
  }

  /** The state of the loop before byte `i`. */
  ghost predicate Parsed(s: State, chunk: seq<byte>, i: nat, events: seq<Event>, runStart: Option<nat>) {
    && i <= |chunk|
    && RunSoFar(s, chunk, runStart, i)
    && RunTo(s, chunk, i).outs == Expand(chunk, events) + Open(chunk, runStart, i)
    && Shape(s, chunk, events, if runStart.Some? then runStart.value else i)
  }

  function Pendings(events: seq<Event>): nat {
    if events == [] then 0
    else Pendings(events[..|events| - 1]) + if events[|events| - 1].Pending? then 1 else 0
  }

  /** How many of the first `i` bytes of a chunk were held as a prefix. */
  function HeldPrefixes(s: State, chunk: seq<byte>, i: nat): nat
    requires i <= |chunk|
  {
    if i == 0 then 0
    else HeldPrefixes(s, chunk, i - 1) +
         if RunTo(s, chunk, i - 1).state.Idle? && (chunk[i - 1] == 0x1c || chunk[i - 1] == 0x02) then 1 else 0
  }

  lemma PendingsSnoc(events: seq<Event>, e: Event)
    ensures Pendings(events + [e]) == Pendings(events) + if e.Pending? then 1 else 0
  {
    assert (events + [e])[..|events|] == events;
  }

  /** `flush_run`. */
  method FlushRun(ghost s: State, chunk: seq<byte>, events: seq<Event>, runStart: Option<nat>, end: nat)
    returns (events': seq<Event>)
    requires Parsed(s, chunk, end, events, runStart)
    requires end < |chunk| ==> !Delivered(s, chunk, end)
    ensures RunTo(s, chunk, end).outs == Expand(chunk, events')
    ensures Shape(s, chunk, events', end + 1)
    ensures events' == if runStart.Some? then events + [Passthrough(runStart.value, end)] else events
  {
    events' := events;
    if runStart.Some? {
      var start := runStart.value;
      if end > start {
        ExpandSnoc(chunk, events, Passthrough(start, end));
        ShapeWithRun(s, chunk, events, start, end);
        events' := events + [Passthrough(start, end)];
      }
    } else {
      ShapeLater(s, chunk, events, end, end + 1);
      assert Expand(chunk, events) + [] == Expand(chunk, events);
    }
  }

  /** Adding an event that is not a range, at a byte that is not delivered. */
  lemma PushOther(s: State, chunk: seq<byte>, i: nat, events: seq<Event>, e: Event)
    requires i < |chunk| && !Delivered(s, chunk, i) && !e.Passthrough?
    requires Shape(s, chunk, events, i + 1)
    requires RunTo(s, chunk, i).outs == Expand(chunk, events)
    requires Step(RunTo(s, chunk, i).state, Press(chunk[i])).outs == Expansion(chunk, e)
    ensures Parsed(s, chunk, i + 1, events + [e], None)
  {
    ExpandSnoc(chunk, events, e);
    ShapeWithOther(s, chunk, events, e, i + 1);
    assert Expand(chunk, events + [e]) + [] == Expand(chunk, events + [e]);
  }

  lemma DeliverOne(s: State, chunk: seq<byte>, i: nat)
    requires i < |chunk| && Delivered(s, chunk, i)
    ensures RunTo(s, chunk, i + 1).outs == RunTo(s, chunk, i).outs + [Byte(chunk[i])]
  {
  }

  lemma OpenOne(chunk: seq<byte>, i: nat)
    requires i < |chunk|
    ensures Open(chunk, None, i) == [] && Open(chunk, Some(i), i + 1) == [Byte(chunk[i])]
  {
  }

  lemma RunStarts(s: State, chunk: seq<byte>, i: nat)
    requires i < |chunk| && Delivered(s, chunk, i) && RunSoFar(s, chunk, None, i)
    ensures RunSoFar(s, chunk, Some(i), i + 1)
  {
  }

  lemma StartRun(s: State, chunk: seq<byte>, i: nat, events: seq<Event>)
    requires i < |chunk| && Delivered(s, chunk, i)
    requires Parsed(s, chunk, i, events, None)
    ensures Parsed(s, chunk, i + 1, events, Some(i))
  {
    DeliverOne(s, chunk, i);
    OpenOne(chunk, i);
    assert Expand(chunk, events) + [] == Expand(chunk, events);
    RunStarts(s, chunk, i);
  }

  lemma ExtendRun(s: State, chunk: seq<byte>, i: nat, events: seq<Event>, start: nat)
    requires i < |chunk| && Delivered(s, chunk, i)
    requires Parsed(s, chunk, i, events, Some(start))
    ensures Parsed(s, chunk, i + 1, events, Some(start))
  {
    ConcatAssoc(Expand(chunk, events), Span(chunk, start, i), [Byte(chunk[i])]);
  }

  method FeedPrefix(ghost s: State, chunk: seq<byte>, i: nat, events: seq<Event>, runStart: Option<nat>)
    returns (events': seq<Event>)
    requires i < |chunk| && RunTo(s, chunk, i).state == Idle && IsPrefixByte(chunk[i])
    requires Parsed(s, chunk, i, events, runStart)
    ensures Parsed(s, chunk, i + 1, events', None)
    ensures events' == (if runStart.Some? then events + [Passthrough(runStart.value, i)] else events) + [Pending]
  {
    events' := FlushRun(s, chunk, events, runStart, i);
    PushOther(s, chunk, i, events', Pending);
    events' := events' + [Pending];
  }

  /** A byte that is not a prefix starts a run or makes it longer. */
  method FeedText(ghost s: State, chunk: seq<byte>, i: nat, ghost events: seq<Event>, runStart: Option<nat>)
    returns (runStart': Option<nat>)
    requires i < |chunk| && Delivered(s, chunk, i)
    requires Parsed(s, chunk, i, events, runStart)
    ensures Parsed(s, chunk, i + 1, events, runStart')
  {
    if runStart.None? {
      StartRun(s, chunk, i, events);
      runStart' := Some(i);
    } else {
      ExtendRun(s, chunk, i, events, runStart.value);
      runStart' := runStart;
    }
  }

  lemma ChordPressed(s: State, chunk: seq<byte>, i: nat, prefix: byte)
    requires i < |chunk| && RunTo(s, chunk, i).state == AwaitChord(prefix)
    ensures RunTo(s, chunk, i + 1).state == Idle && !Delivered(s, chunk, i)
    ensures var action := Chord(prefix, chunk[i]);
      Step(RunTo(s, chunk, i).state, Press(chunk[i])).outs == if action.Some? then [Do(action.value)] else []
  {
  }

  lemma NothingPressed(s: State, chunk: seq<byte>, i: nat, events: seq<Event>)
    requires i < |chunk| && !Delivered(s, chunk, i) && Parsed(s, chunk, i, events, None)
    requires Step(RunTo(s, chunk, i).state, Press(chunk[i])).outs == []
    ensures Parsed(s, chunk, i + 1, events, None)
  {
    ShapeLater(s, chunk, events, i, i + 1);
    assert RunTo(s, chunk, i).outs + [] == RunTo(s, chunk, i).outs;
  }

  lemma ActionPressed(s: State, chunk: seq<byte>, i: nat, events: seq<Event>, action: Action)
    requires i < |chunk| && !Delivered(s, chunk, i) && Parsed(s, chunk, i, events, None)
    requires Step(RunTo(s, chunk, i).state, Press(chunk[i])).outs == [Do(action)]
    ensures Parsed(s, chunk, i + 1, events + [Act(action)], None)
  {
    ShapeLater(s, chunk, events, i, i + 1);
    assert Expand(chunk, events) + [] == Expand(chunk, events);
    PushOther(s, chunk, i, events, Act(action));
  }

  method FeedChord(ghost s: State, chunk: seq<byte>, i: nat, events: seq<Event>, prefix: byte)
    returns (events': seq<Event>)
    requires i < |chunk| && RunTo(s, chunk, i).state == AwaitChord(prefix)
    requires Parsed(s, chunk, i, events, None)
    ensures RunTo(s, chunk, i + 1).state == Idle
    ensures Parsed(s, chunk, i + 1, events', None)
    ensures var action := Chord(prefix, chunk[i]);
      events' == if action.Some? then events + [Act(action.value)] else events
  {
    ChordPressed(s, chunk, i, prefix);
    var action := Chord(prefix, chunk[i]);
    events' := events;
    if action.Some? {
      ActionPressed(s, chunk, i, events, action.value);
      events' := events + [Act(action.value)];
    } else {
      NothingPressed(s, chunk, i, events);
    }
  }

  /** The state of the loop before byte `i`, the parser's own state included. */
  ghost predicate LoopInv(s: State, chunk: seq<byte>, i: nat, events: seq<Event>, runStart: Option<nat>, state: State) {
    && i <= |chunk|
    && state == RunTo(s, chunk, i).state && (state.AwaitChord? ==> runStart.None?)
    && Parsed(s, chunk, i, events, runStart)
    && Pendings(events) == HeldPrefixes(s, chunk, i)
  }

  lemma HeldNext(s: State, chunk: seq<byte>, i: nat)
    requires i < |chunk|
    ensures HeldPrefixes(s, chunk, i + 1) == HeldPrefixes(s, chunk, i) +
      if RunTo(s, chunk, i).state.Idle? && IsPrefixByte(chunk[i]) then 1 else 0
  {
  }

  lemma FlushedPendings(events: seq<Event>, runStart: Option<nat>, end: nat)
    ensures runStart.Some? ==> Pendings(events + [Passthrough(runStart.value, end)]) == Pendings(events)
  {
    if runStart.Some? {
      PendingsSnoc(events, Passthrough(runStart.value, end));
    }
  }

  lemma PrefixKeepsLoop(s: State, chunk: seq<byte>, i: nat, events: seq<Event>, runStart: Option<nat>, events': seq<Event>)
    requires i < |chunk| && LoopInv(s, chunk, i, events, runStart, Idle) && IsPrefixByte(chunk[i])
    requires Parsed(s, chunk, i + 1, events', None)
    requires events' == (if runStart.Some? then events + [Passthrough(runStart.value, i)] else events) + [Pending]
    ensures LoopInv(s, chunk, i + 1, events', None, AwaitChord(chunk[i]))
  {
    HeldNext(s, chunk, i);
    FlushedPendings(events, runStart, i);
    PendingsSnoc(if runStart.Some? then events + [Passthrough(runStart.value, i)] else events, Pending);
  }

  lemma OtherKeepsLoop(s: State, chunk: seq<byte>, i: nat, events: seq<Event>, runStart: Option<nat>, state: State,
                       events': seq<Event>, runStart': Option<nat>)
    requires i < |chunk| && LoopInv(s, chunk, i, events, runStart, state)
    requires state.Idle? ==> !IsPrefixByte(chunk[i])
    requires Parsed(s, chunk, i + 1, events', runStart') && Pendings(events') == Pendings(events)
    ensures LoopInv(s, chunk, i + 1, events', runStart', Idle)
  {
    HeldNext(s, chunk, i);
  }

  /** One byte of a chunk. */
  method FeedByte(ghost s: State, chunk: seq<byte>, i: nat, events: seq<Event>, runStart: Option<nat>, state: State)
    returns (events': seq<Event>, runStart': Option<nat>, state': State)
    requires i < |chunk| && LoopInv(s, chunk, i, events, runStart, state)
    ensures LoopInv(s, chunk, i + 1, events', runStart', state')
  {
    match state {
      case Idle =>
        if IsPrefixByte(chunk[i]) {
          events' := FeedPrefix(s, chunk, i, events, runStart);
          PrefixKeepsLoop(s, chunk, i, events, runStart, events');
          runStart', state' := None, AwaitChord(chunk[i]);
        } else {
          runStart' := FeedText(s, chunk, i, events, runStart);
          OtherKeepsLoop(s, chunk, i, events, runStart, state, events, runStart');
          events', state' := events, Idle;
        }
      case AwaitChord(prefix) =>
        events' := FeedChord(s, chunk, i, events, prefix);
        ActionIsNotPending(events, Chord(prefix, chunk[i]));
        OtherKeepsLoop(s, chunk, i, events, runStart, state, events', None);
        runStart', state' := None, Idle;
    }
  }

  lemma ActionIsNotPending(events: seq<Event>, action: Option<Action>)
    ensures action.Some? ==> Pendings(events + [Act(action.value)]) == Pendings(events)
  {
    if action.Some? {
      PendingsSnoc(events, Act(action.value));
    }
  }

  class ChordParser {
    var state: State

    constructor ()
      ensures state == Idle
    {
      state := Idle;
    }

    method Feed(chunk: seq<byte>) returns (events: seq<Event>)
      modifies this
      ensures Result(state, Expand(chunk, events)) == Run(old(state), Presses(chunk))
      ensures MaximalRuns(old(state), chunk, events)
      ensures InOrder(events)
      ensures Pendings(events) == HeldPrefixes(old(state), chunk, |chunk|)
    {
      events := [];
      var runStart: Option<nat> := None;
      for i := 0 to |chunk|
        invariant LoopInv(old(state), chunk, i, events, runStart, state)
      {
        events, runStart, state := FeedByte(old(state), chunk, i, events, runStart, state);
      }
      FlushedPendings(events, runStart, |chunk|);
      events := FlushRun(old(state), chunk, events, runStart, |chunk|);
      RunToIsRun(old(state), chunk, |chunk|);
      TakeAll(chunk);
    }

    /** True while a prefix is held. */
    predicate IsPending()
      reads this
    {
      state.AwaitChord?
    }

    method CancelPending()
      modifies this
      ensures state == Idle
    {
      state := Idle;
    }
  }

  /** Feeding any number of chunks is feeding them in one piece. */
  method FeedAll(parser: ChordParser, chunks: seq<seq<byte>>) returns (outs: seq<Output>)
    modifies parser
    ensures Result(parser.state, outs) == Run(old(parser.state), Presses(Flatten(chunks)))
  {
    outs := [];
    ghost var s0 := parser.state;
    for n := 0 to |chunks|
      invariant Result(parser.state, outs) == Run(s0, Presses(Flatten(chunks[..n])))
    {
      TakeSnoc(chunks, n);
      FlattenSnoc(chunks[..n], chunks[n]);
      PressesConcat(Flatten(chunks[..n]), chunks[n]);
      RunConcat(s0, Presses(Flatten(chunks[..n])), Presses(chunks[n]));
      var events := parser.Feed(chunks[n]);
      outs := outs + Expand(chunks[n], events);
    }
    TakeAll(chunks);
  }

  lemma PressesConcat(a: seq<byte>, b: seq<byte>)
    ensures Presses(a + b) == Presses(a) + Presses(b)
  {
  }

  // ---------------------------------------------------------------- what is sent

  /** The bytes that go to the session. */
  function Sent(outs: seq<Output>): seq<byte> {
    if outs == [] then []
    else Sent(outs[..|outs| - 1]) + SentBy(outs[|outs| - 1])
  }

  function SentBy(o: Output): seq<byte> {
    match o
    case Byte(b) => [b]
    case Do(LiteralPrefix(b)) => [b]
    case _ => []
  }

  lemma {:induction false} SentConcat(a: seq<Output>, b: seq<Output>)
    ensures Sent(a + b) == Sent(a) + Sent(b)
    decreases |b|
  {
    if b == [] {
      assert a + b == a;
    } else {
      InitConcat(a, b);
      SentConcat(a, b[..|b| - 1]);
    }
  }

  function Doubled(b: byte): seq<byte> {
    if b == 0x1c || b == 0x02 then [b, b] else [b]
  }

  /** Every prefix byte typed twice. */
  function Escape(bytes: seq<byte>): seq<byte> {
    if bytes == [] then []
    else Escape(bytes[..|bytes| - 1]) + Doubled(bytes[|bytes| - 1])
  }

  ghost predicate OnlyLiterals(outs: seq<Output>) {
    forall o :: o in outs && o.Do? ==> o.action.LiteralPrefix?
  }

  /** The escape is transparent: any bytes, with their prefix bytes doubled, reach the session as
      they are; nothing else happens, and no prefix is left pending. */
  lemma {:induction false} EscapeIsTransparent(bytes: seq<byte>)
    ensures Run(Idle, Presses(Escape(bytes))).state == Idle
    ensures Sent(Run(Idle, Presses(Escape(bytes))).outs) == bytes
    ensures OnlyLiterals(Run(Idle, Presses(Escape(bytes))).outs)
  {
    if bytes != [] {
      var init, b := bytes[..|bytes| - 1], bytes[|bytes| - 1];
      EscapeIsTransparent(init);
      EscapeOne(b);
      EscapeSnoc(Escape(init), Doubled(b));
      TakeSnoc(bytes, |bytes| - 1);
      TakeAll(bytes);
    }
  }

  lemma EscapeSnoc(a: seq<byte>, tail: seq<byte>)
    requires Run(Idle, Presses(a)).state == Idle
    ensures Run(Idle, Presses(a + tail)) ==
      Result(Run(Idle, Presses(tail)).state, Run(Idle, Presses(a)).outs + Run(Idle, Presses(tail)).outs)
    ensures Sent(Run(Idle, Presses(a + tail)).outs)
         == Sent(Run(Idle, Presses(a)).outs) + Sent(Run(Idle, Presses(tail)).outs)
  {
    PressesConcat(a, tail);
    RunConcat(Idle, Presses(a), Presses(tail));
    SentConcat(Run(Idle, Presses(a)).outs, Run(Idle, Presses(tail)).outs);
  }

  lemma EscapeOne(b: byte)
    ensures var r := Run(Idle, Presses(Doubled(b)));
      r.state == Idle && Sent(r.outs) == [b] && OnlyLiterals(r.outs)
  {
    if IsPrefixByte(b) {
      RunTwo(b);
      SentOne(Do(LiteralPrefix(b)));
    } else {
      assert Presses([b]) == [Press(b)];
      RunOne(Idle, Press(b));
      SentOne(Byte(b));
    }
  }

  lemma RunTwo(b: byte)
    requires IsPrefixByte(b)
    ensures Run(Idle, Presses([b, b])) == Result(Idle, [Do(LiteralPrefix(b))])
  {
    assert Presses([b, b]) == [Press(b)] + [Press(b)];
    RunConcat(Idle, [Press(b)], [Press(b)]);
    RunOne(Idle, Press(b));
    RunOne(AwaitChord(b), Press(b));
  }

  lemma SentOne(o: Output)
    ensures Sent([o]) == SentBy(o)
  {
    assert Sent([o]) == Sent([]) + SentBy(o);
  }
}
