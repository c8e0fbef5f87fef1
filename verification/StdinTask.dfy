/** The interactive stdin task of an attached client: chunks, timeouts and end of input go in,
    `SessionWrite` payloads and one outcome come out. */
module StdinTask {
  import opened Bytes
  import opened Chords

  datatype Input = Chunk(bytes: seq<byte>) | Timeout | Closed

  /** The merged stream of key presses and timeouts up to the end of input. */
  function Keys(inputs: seq<Input>): seq<Key> {
    if inputs == [] || inputs[0].Closed? then [] else KeysOf(inputs[0]) + Keys(inputs[1..])
  }

  function KeysOf(input: Input): seq<Key> {
    match input
    case Chunk(bytes) => Presses(bytes)
    case Timeout => [Tick]
    case Closed => []
  }

  /** The actions that end the task. */
  predicate IsExit(o: Output) {
    o.Do? && (o.action.Detach? || o.action.Switch? || o.action.New?)
  }

  function UpToExit(outs: seq<Output>): seq<Output> {
    if outs == [] || IsExit(outs[0]) then [] else [outs[0]] + UpToExit(outs[1..])
  }

  function FirstExit(outs: seq<Output>): (action: Option<Action>) {
    if outs == [] then None
    else if IsExit(outs[0]) then Some(outs[0].action)
    else FirstExit(outs[1..])
  }

  function Helps(outs: seq<Output>): nat {
    if outs == [] then 0
    else Helps(outs[..|outs| - 1]) + if outs[|outs| - 1] == Do(Help) then 1 else 0
  }

  lemma {:induction false} CutConcat(a: seq<Output>, b: seq<Output>)
    ensures FirstExit(a + b) == if FirstExit(a).Some? then FirstExit(a) else FirstExit(b)
    ensures UpToExit(a + b) == if FirstExit(a).Some? then UpToExit(a) else a + UpToExit(b)
  {
    if a == [] {
      assert a + b == b;
    } else {
      assert (a + b)[1..] == a[1..] + b;
      CutConcat(a[1..], b);
      if FirstExit(a).None? {
        ConsConcat(a, UpToExit(b));
      }
    }
  }

  lemma NothingCut(a: seq<Output>)
    requires FirstExit(a).None?
    ensures UpToExit(a) == a
  {
    CutConcat(a, []);
    assert a + [] == a;
  }

  lemma {:induction false} HelpsConcat(a: seq<Output>, b: seq<Output>)
    ensures Helps(a + b) == Helps(a) + Helps(b)
    decreases |b|
  {
    if b == [] {
      assert a + b == a;
    } else {
      InitConcat(a, b);
      HelpsConcat(a, b[..|b| - 1]);
    }
  }

  /** What the task did about the outputs before the first exit: one non-empty write for each range
      and literal, one help screen for each request. */
  ghost predicate Handled(outs: seq<Output>, writes: seq<seq<byte>>, helps: nat) {
    && Flatten(writes) == Sent(outs)
    && (forall w :: w in writes ==> w != [])
    && helps == Helps(outs)
  }

  lemma HandledConcat(a: seq<Output>, wa: seq<seq<byte>>, ha: nat, b: seq<Output>, wb: seq<seq<byte>>, hb: nat)
    requires Handled(a, wa, ha) && Handled(b, wb, hb)
    ensures Handled(a + b, wa + wb, ha + hb)
  {
    FlattenConcat(wa, wb);
    SentConcat(a, b);
    HelpsConcat(a, b);
  }

  lemma HandledOne(o: Output)
    requires !IsExit(o)
    ensures Handled([o], if SentBy(o) == [] then [] else [SentBy(o)], if o == Do(Help) then 1 else 0)
    ensures FirstExit([o]).None?
  {
    SentOne(o);
    var w := SentBy(o);
    assert Flatten([w]) == w + Flatten<byte>([]);
    HelpsConcat([], [o]);
    assert Helps([o]) == Helps([]) + if o == Do(Help) then 1 else 0;
  }

  /** Outputs that are these bytes. */
  ghost predicate Verbatim(outs: seq<Output>, bytes: seq<byte>) {
    |outs| == |bytes| && forall i :: 0 <= i < |outs| ==> outs[i] == Byte(bytes[i])
  }

  lemma {:induction false} VerbatimIsSent(outs: seq<Output>, bytes: seq<byte>)
    requires Verbatim(outs, bytes)
    ensures Sent(outs) == bytes
  {
    if outs != [] {
      var n := |outs| - 1;
      VerbatimIsSent(outs[..n], bytes[..n]);
      TakeSnoc(bytes, n);
      TakeAll(bytes);
    }
  }

  lemma {:induction false} VerbatimIsQuiet(outs: seq<Output>, bytes: seq<byte>)
    requires Verbatim(outs, bytes)
    ensures Helps(outs) == 0 && FirstExit(outs).None?
  {
    if outs != [] {
      var n := |outs| - 1;
      VerbatimIsQuiet(outs[..n], bytes[..n]);
      QuietSnoc(outs[..n], bytes[n]);
      TakeSnoc(outs, n);
      TakeAll(outs);
    }
  }

  lemma ByteIsQuiet(b: byte)
    ensures Helps([Byte(b)]) == 0 && FirstExit([Byte(b)]).None?
  {
    HandledOne(Byte(b));
  }

  lemma QuietSnoc(outs: seq<Output>, b: byte)
    requires Helps(outs) == 0 && FirstExit(outs).None?
    ensures Helps(outs + [Byte(b)]) == 0 && FirstExit(outs + [Byte(b)]).None?
  {
    ByteIsQuiet(b);
    HelpsConcat(outs, [Byte(b)]);
    CutConcat(outs, [Byte(b)]);
  }

  lemma SpanIsVerbatim(chunk: seq<byte>, from: nat, to: nat)
    requires from <= to <= |chunk|
    ensures Verbatim(Span(chunk, from, to), chunk[from..to])
  {
    var outs, bytes := Span(chunk, from, to), chunk[from..to];
    forall i | 0 <= i < |outs| ensures outs[i] == Byte(bytes[i]) {
      assert outs[(from + i) - from] == Byte(chunk[from + i]);
    }
  }

  lemma HandledRange(chunk: seq<byte>, from: nat, to: nat)
    requires from < to <= |chunk|
    ensures Handled(Span(chunk, from, to), [chunk[from..to]], 0)
    ensures FirstExit(Span(chunk, from, to)).None?
  {
    SpanIsVerbatim(chunk, from, to);
    VerbatimIsSent(Span(chunk, from, to), chunk[from..to]);
    VerbatimIsQuiet(Span(chunk, from, to), chunk[from..to]);
    assert Flatten([chunk[from..to]]) == chunk[from..to] + Flatten<byte>([]);
  }

  lemma {:induction false} ExpandConcat(chunk: seq<byte>, a: seq<Event>, b: seq<Event>)
    ensures Expand(chunk, a + b) == Expand(chunk, a) + Expand(chunk, b)
    decreases |b|
  {
    if b == [] {
      assert a + b == a;
    } else {
      var init, e := b[..|b| - 1], b[|b| - 1];
      ExpandConcat(chunk, a, init);
      InitConcat(a, b);
      ConcatAssoc(Expand(chunk, a), Expand(chunk, init), Expansion(chunk, e));
    }
  }

  ghost predicate InBounds(chunk: seq<byte>, events: seq<Event>) {
    forall k :: 0 <= k < |events| && events[k].Passthrough? ==> events[k].from < events[k].to <= |chunk|
  }

  /** One event that does not end the task: the write it causes, if any, and whether it shows help. */
  method HandleEvent(chunk: seq<byte>, e: Event) returns (writes: seq<seq<byte>>, helps: nat)
    requires e.Passthrough? ==> e.from < e.to <= |chunk|
    requires e.Act? ==> !IsExit(Do(e.action))
    ensures Handled(Expansion(chunk, e), writes, helps)
    ensures FirstExit(Expansion(chunk, e)).None?
  {
    writes, helps := [], 0;
    match e {
      case Passthrough(from, to) =>
        HandledRange(chunk, from, to);
        writes := [chunk[from..to]];
      case Act(action) =>
        HandledOne(Do(action));
        match action {
          case Help => helps := 1;
          case LiteralPrefix(b) => writes := [[b]];
          case _ =>
        }
      case Pending =>
    }
  }

  method HandleEvents(chunk: seq<byte>, events: seq<Event>)
    returns (writes: seq<seq<byte>>, helps: nat, exit: Option<Action>)
    requires InBounds(chunk, events)
    ensures Handled(UpToExit(Expand(chunk, events)), writes, helps)
    ensures exit == FirstExit(Expand(chunk, events))
  {
    writes, helps, exit := [], 0, None;
    for k := 0 to |events|
      invariant Handled(Expand(chunk, events[..k]), writes, helps)
      invariant FirstExit(Expand(chunk, events[..k])).None?
      invariant exit.None?
    {
      var e := events[k];
      TakeSnoc(events, k);
      ExpandSnoc(chunk, events[..k], e);
      if e.Act? && IsExit(Do(e.action)) {
        TakeDrop(events, k + 1);
        ExpandConcat(chunk, events[..k + 1], events[k + 1..]);
        ExitHere(Expand(chunk, events[..k]), e.action, Expand(chunk, events[k + 1..]));
        return writes, helps, Some(e.action);
      }
      var w, h := HandleEvent(chunk, e);
      HandledConcat(Expand(chunk, events[..k]), writes, helps, Expansion(chunk, e), w, h);
      CutConcat(Expand(chunk, events[..k]), Expansion(chunk, e));
      writes, helps := writes + w, helps + h;
    }
    TakeAll(events);
    NothingCut(Expand(chunk, events));
  }

  lemma ExitHere(before: seq<Output>, action: Action, after: seq<Output>)
    requires FirstExit(before).None? && IsExit(Do(action))
    ensures UpToExit(before + [Do(action)] + after) == before
    ensures FirstExit(before + [Do(action)] + after) == Some(action)
  {
    ConcatAssoc(before, [Do(action)], after);
    CutConcat(before, [Do(action)] + after);
    assert before + [] == before;
  }

  /** The keys so far have been handled and did not end the task. */
  ghost predicate Caught(keys: seq<Key>, state: State, writes: seq<seq<byte>>, helps: nat) {
    var r := Run(Idle, keys);
    state == r.state && FirstExit(r.outs).None? && Handled(r.outs, writes, helps)
  }

  /** What the task must have done when it ends. */
  ghost predicate Finished(keys: seq<Key>, writes: seq<seq<byte>>, helps: nat, exit: Option<Action>) {
    var outs := Run(Idle, keys).outs;
    exit == FirstExit(outs) && Handled(UpToExit(outs), writes, helps)
  }

  /** Handling the keys of one more input. */
  lemma OneInput(keys: seq<Key>, state: State, writes: seq<seq<byte>>, helps: nat,
                 more: seq<Key>, next: Result, w: seq<seq<byte>>, h: nat)
    requires Caught(keys, state, writes, helps)
    requires next == Run(state, more) && Handled(UpToExit(next.outs), w, h)
    ensures Finished(keys + more, writes + w, helps + h, FirstExit(next.outs))
    ensures FirstExit(next.outs).None? ==> Caught(keys + more, next.state, writes + w, helps + h)
  {
    var before := Run(Idle, keys).outs;
    RunConcat(Idle, keys, more);
    CutConcat(before, next.outs);
    HandledConcat(before, writes, helps, UpToExit(next.outs), w, h);
    if FirstExit(next.outs).None? {
      NothingCut(next.outs);
    }
  }

  lemma ExitIsFinal(keys: seq<Key>, later: seq<Key>, writes: seq<seq<byte>>, helps: nat, exit: Option<Action>)
    requires Finished(keys, writes, helps, exit) && exit.Some?
    ensures Finished(keys + later, writes, helps, exit)
  {
    RunConcat(Idle, keys, later);
    CutConcat(Run(Idle, keys).outs, Run(Run(Idle, keys).state, later).outs);
  }

  ghost predicate StillOpen(inputs: seq<Input>) {
    forall k :: 0 <= k < |inputs| ==> !inputs[k].Closed?
  }

  lemma {:induction false} KeysConcat(a: seq<Input>, b: seq<Input>)
    requires StillOpen(a)
    ensures Keys(a + b) == Keys(a) + Keys(b)
  {
    if a == [] {
      assert a + b == b;
    } else {
      assert (a + b)[1..] == a[1..] + b;
      KeysConcat(a[1..], b);
      ConcatAssoc(KeysOf(a[0]), Keys(a[1..]), Keys(b));
    }
  }

  lemma NextInput(inputs: seq<Input>, n: nat)
    requires n < |inputs| && StillOpen(inputs[..n])
    ensures inputs[n].Closed? ==> Keys(inputs) == Keys(inputs[..n])
    ensures !inputs[n].Closed? ==> Keys(inputs[..n + 1]) == Keys(inputs[..n]) + KeysOf(inputs[n])
    ensures !inputs[n].Closed? ==> Keys(inputs) == Keys(inputs[..n + 1]) + Keys(inputs[n + 1..])
    ensures !inputs[n].Closed? ==> StillOpen(inputs[..n + 1])
  {
    TakeSnoc(inputs, n);
    if inputs[n].Closed? {
      TakeDrop(inputs, n);
      KeysConcat(inputs[..n], inputs[n..]);
    } else {
      KeysConcat(inputs[..n], [inputs[n]]);
      assert Keys([inputs[n]]) == KeysOf(inputs[n]) + Keys([]);
      TakeDrop(inputs, n + 1);
      KeysConcat(inputs[..n + 1], inputs[n + 1..]);
    }
  }

  /** One turn of the task: a chunk is parsed and its events handled, a timeout drops a held prefix. */
  method TakeInput(parser: ChordParser, input: Input, ghost keys: seq<Key>, writes: seq<seq<byte>>, helps: nat)
    returns (writes': seq<seq<byte>>, helps': nat, exit: Option<Action>)
    requires !input.Closed? && Caught(keys, parser.state, writes, helps)
    modifies parser
    ensures Finished(keys + KeysOf(input), writes', helps', exit)
    ensures exit.None? ==> Caught(keys + KeysOf(input), parser.state, writes', helps')
  {
    ghost var state := parser.state;
    if input.Timeout? {
      if parser.IsPending() {
        parser.CancelPending();
      }
      RunOne(state, Tick);
      OneInput(keys, state, writes, helps, [Tick], Result(Idle, []), [], 0);
      assert writes + [] == writes;
      return writes, helps, None;
    }
    var events := parser.Feed(input.bytes);
    var w, h;
    w, h, exit := HandleEvents(input.bytes, events);
    OneInput(keys, state, writes, helps, Presses(input.bytes), Run(state, Presses(input.bytes)), w, h);
    writes', helps' := writes + w, helps + h;
  }

  /** The task as a whole. Up to the first Detach, Switch or New of the merged stream, the session is
      sent exactly the bytes that the Mealy machine delivers, and nothing after it. */
  method Drive(inputs: seq<Input>) returns (writes: seq<seq<byte>>, helps: nat, exit: Option<Action>)
    ensures Finished(Keys(inputs), writes, helps, exit)
  {
    var parser := new ChordParser();
    writes, helps, exit := [], 0, None;
    var n := 0;
    while n < |inputs| && !inputs[n].Closed? && exit.None?
      invariant n <= |inputs| && fresh(parser) && StillOpen(inputs[..n])
      invariant Finished(Keys(inputs[..n]), writes, helps, exit)
      invariant exit.None? ==> Caught(Keys(inputs[..n]), parser.state, writes, helps)
      invariant exit.Some? ==> Finished(Keys(inputs), writes, helps, exit)
    {
      NextInput(inputs, n);
      writes, helps, exit := TakeInput(parser, inputs[n], Keys(inputs[..n]), writes, helps);
      n := n + 1;
      if exit.Some? {
        ExitIsFinal(Keys(inputs[..n]), Keys(inputs[n..]), writes, helps, exit);
      }
    }
    if n < |inputs| {
      NextInput(inputs, n);
    } else {
      TakeAll(inputs);
    }
  }

  // ---------------------------------------------------------------- the timeout

  /** A held prefix was the last key pressed, and the machine was idle before it. */
  lemma HeldPrefix(keys: seq<Key>)
    requires Run(Idle, keys).state.AwaitChord?
    ensures keys != [] && keys[|keys| - 1] == Press(Run(Idle, keys).state.prefix)
    ensures Run(Idle, keys[..|keys| - 1]) == Result(Idle, Run(Idle, keys).outs)
  {
    var init, last := keys[..|keys| - 1], keys[|keys| - 1];
    StepIntoAwait(Run(Idle, init).state, last);
    NothingAdded(Run(Idle, init).outs);
  }

  lemma StepIntoAwait(s: State, k: Key)
    ensures Step(s, k).state.AwaitChord? ==> s.Idle? && k == Press(Step(s, k).state.prefix)
    ensures Step(s, k).state.AwaitChord? ==> Step(s, k).outs == []
  {
  }

  lemma NothingAdded(outs: seq<Output>)
    ensures outs + [] == outs
  {
  }

  /** A timeout discards exactly the held prefix: the rest of the input is treated as if that key had
      never been pressed, and when nothing is held, as if there had been no timeout. */
  lemma TimeoutDropsPrefix(before: seq<Key>, after: seq<Key>)
    ensures var r := Run(Idle, before);
      Run(Idle, before + [Tick] + after) ==
        if r.state.Idle? then Run(Idle, before + after)
        else Run(Idle, before[..|before| - 1] + after)
  {
    var r := Run(Idle, before);
    RunConcat(Idle, before + [Tick], after);
    RunSnoc(Idle, before, Tick);
    NothingAdded(r.outs);
    if r.state.Idle? {
      RunConcat(Idle, before, after);
    } else {
      HeldPrefix(before);
      RunConcat(Idle, before[..|before| - 1], after);
    }
  }

  // ---------------------------------------------------------------- escaped input

  function Chunks(chunks: seq<seq<byte>>): seq<Input> {
    if chunks == [] then [] else [Chunk(chunks[0])] + Chunks(chunks[1..])
  }

  lemma {:induction false} KeysOfChunks(chunks: seq<seq<byte>>)
    ensures Keys(Chunks(chunks)) == Presses(Flatten(chunks))
  {
    if chunks != [] {
      KeysOfChunks(chunks[1..]);
      PressesConcat(chunks[0], Flatten(chunks[1..]));
    }
  }

  lemma {:induction false} LiteralsAreQuiet(outs: seq<Output>)
    requires OnlyLiterals(outs)
    ensures FirstExit(outs).None? && Helps(outs) == 0
  {
    if outs != [] {
      var init, last := outs[..|outs| - 1], outs[|outs| - 1];
      LiteralsAreQuiet(init);
      CutConcat(init, [last]);
      assert init + [last] == outs;
    }
  }

  /** However the terminal splits a text whose prefix bytes have been doubled, the task sends the text
      itself, and nothing else happens. */
  lemma EscapedInputArrives(chunks: seq<seq<byte>>, text: seq<byte>, writes: seq<seq<byte>>, helps: nat, exit: Option<Action>)
    requires Flatten(chunks) == Escape(text)
    requires Finished(Keys(Chunks(chunks)), writes, helps, exit)
    ensures Flatten(writes) == text && helps == 0 && exit.None?
  {
    KeysOfChunks(chunks);
    EscapeIsTransparent(text);
    var outs := Run(Idle, Presses(Escape(text))).outs;
    LiteralsAreQuiet(outs);
    NothingCut(outs);
  }

  // ---------------------------------------------------------------- a chord in the input

  /** The outputs of an escaped text, a chord and whatever follows. */
  lemma ChordOutputs(text: seq<byte>, prefix: byte, key: byte, later: seq<byte>)
    requires prefix == 0x1c || prefix == 0x02
    ensures Run(Idle, Presses(Escape(text) + [prefix, key] + later)).outs ==
      Run(Idle, Presses(Escape(text))).outs + Run(Idle, [Press(prefix), Press(key)]).outs + Run(Idle, Presses(later)).outs
  {
    var a, chord := Presses(Escape(text)), [Press(prefix), Press(key)];
    PressesConcat(Escape(text), [prefix, key]);
    PressesConcat(Escape(text) + [prefix, key], later);
    assert Presses([prefix, key]) == chord;
    EscapeIsTransparent(text);
    DocumentedChords(prefix, key);
    RunConcat(Idle, a, chord);
    RunConcat(Idle, a + chord, Presses(later));
  }

  ghost predicate Typed(chunks: seq<seq<byte>>, text: seq<byte>, prefix: byte, key: byte, later: seq<byte>) {
    (prefix == 0x1c || prefix == 0x02) && Flatten(chunks) == Escape(text) + [prefix, key] + later
  }

  /** The chords that end the task: the text before the chord has been sent, nothing behind it is. */
  lemma ChordEndsTask(chunks: seq<seq<byte>>, text: seq<byte>, prefix: byte, key: byte, later: seq<byte>,
                      writes: seq<seq<byte>>, helps: nat, exit: Option<Action>)
    requires Typed(chunks, text, prefix, key, later)
    requires key in {0x64, 0x44, 0x73, 0x53, 0x6e, 0x4e}
    requires Finished(Keys(Chunks(chunks)), writes, helps, exit)
    ensures Flatten(writes) == text && helps == 0
    ensures exit == Some(if key in {0x64, 0x44} then Detach else if key in {0x73, 0x53} then Switch else New)
  {
    var sent, chord := Run(Idle, Presses(Escape(text))).outs, Run(Idle, [Press(prefix), Press(key)]).outs;
    KeysOfChunks(chunks);
    ChordOutputs(text, prefix, key, later);
    EscapeIsTransparent(text);
    LiteralsAreQuiet(sent);
    DocumentedChords(prefix, key);
    ExitHere(sent, chord[0].action, Run(Idle, Presses(later)).outs);
    assert chord == [chord[0]];
  }

  /** The other keys: help shows one screen and sends nothing, the prefix itself is sent, and an unbound
      key does nothing. In each case the text behind the chord is sent. */
  lemma ChordGoesOn(chunks: seq<seq<byte>>, text: seq<byte>, prefix: byte, key: byte, more: seq<byte>,
                    writes: seq<seq<byte>>, helps: nat, exit: Option<Action>)
    requires Typed(chunks, text, prefix, key, Escape(more))
    requires key !in {0x64, 0x44, 0x73, 0x53, 0x6e, 0x4e}
    requires Finished(Keys(Chunks(chunks)), writes, helps, exit)
    ensures Flatten(writes) == text + (if key == prefix then [prefix] else []) + more
    ensures helps == if key in {0x3f, 0x68, 0x48} then 1 else 0
    ensures exit.None?
  {
    var sent, chord := Run(Idle, Presses(Escape(text))).outs, Run(Idle, [Press(prefix), Press(key)]).outs;
    var rest := Run(Idle, Presses(Escape(more))).outs;
    KeysOfChunks(chunks);
    ChordOutputs(text, prefix, key, Escape(more));
    EscapeIsTransparent(text);
    EscapeIsTransparent(more);
    LiteralsAreQuiet(sent);
    LiteralsAreQuiet(rest);
    ChordAlone(prefix, key);
    QuietJoin(sent, chord);
    QuietJoin(sent + chord, rest);
    NothingCut(sent + chord + rest);
  }

  lemma QuietJoin(a: seq<Output>, b: seq<Output>)
    requires FirstExit(a).None? && FirstExit(b).None?
    ensures FirstExit(a + b).None? && Sent(a + b) == Sent(a) + Sent(b) && Helps(a + b) == Helps(a) + Helps(b)
  {
    CutConcat(a, b);
    SentConcat(a, b);
    HelpsConcat(a, b);
  }

  lemma ChordAlone(prefix: byte, key: byte)
    requires prefix == 0x1c || prefix == 0x02
    requires key !in {0x64, 0x44, 0x73, 0x53, 0x6e, 0x4e}
    ensures var outs := Run(Idle, [Press(prefix), Press(key)]).outs;
      && FirstExit(outs).None? && Sent(outs) == (if key == prefix then [prefix] else [])
      && Helps(outs) == if key in {0x3f, 0x68, 0x48} then 1 else 0
  {
    DocumentedChords(prefix, key);
    OneOutput(Help);
    OneOutput(LiteralPrefix(prefix));
  }

  lemma OneOutput(action: Action)
    requires action.Help? || action.LiteralPrefix?
    ensures FirstExit([Do(action)]).None?
    ensures Sent([Do(action)]) == if action.Help? then [] else [action.b]
    ensures Helps([Do(action)]) == if action.Help? then 1 else 0
  {
    SentOne(Do(action));
    assert [Do(action)][..0] == [];
  }

  /** A prefix that is held when the timeout strikes is dropped, and the text behind it is sent. */
  lemma TimeoutInInput(text: seq<byte>, prefix: byte, more: seq<byte>,
                       writes: seq<seq<byte>>, helps: nat, exit: Option<Action>)
    requires prefix == 0x1c || prefix == 0x02
    requires Finished(Keys([Chunk(Escape(text) + [prefix]), Timeout, Chunk(Escape(more))]), writes, helps, exit)
    ensures Flatten(writes) == text + more && helps == 0 && exit.None?
  {
    var a, b := Presses(Escape(text)), Presses(Escape(more));
    KeysAroundTimeout(text, prefix, more);
    EscapeIsTransparent(text);
    EscapeIsTransparent(more);
    HeldThenDropped(a, prefix, b);
    LiteralsAreQuiet(Run(Idle, a).outs);
    LiteralsAreQuiet(Run(Idle, b).outs);
    QuietJoin(Run(Idle, a).outs, Run(Idle, b).outs);
    NothingCut(Run(Idle, a).outs + Run(Idle, b).outs);
  }

  lemma KeysCons(input: Input, rest: seq<Input>)
    requires !input.Closed?
    ensures Keys([input] + rest) == KeysOf(input) + Keys(rest)
  {
    assert ([input] + rest)[1..] == rest;
  }

  lemma KeysAroundTimeout(text: seq<byte>, prefix: byte, more: seq<byte>)
    ensures Keys([Chunk(Escape(text) + [prefix]), Timeout, Chunk(Escape(more))]) ==
      Presses(Escape(text)) + [Press(prefix)] + [Tick] + Presses(Escape(more))
  {
    var first, last := Chunk(Escape(text) + [prefix]), Chunk(Escape(more));
    KeysCons(last, []);
    KeysCons(Timeout, [last]);
    KeysCons(first, [Timeout, last]);
    assert [last] + [] == [last] && [Timeout] + [last] == [Timeout, last];
    assert [first] + [Timeout, last] == [first, Timeout, last];
    PressesConcat(Escape(text), [prefix]);
    assert Presses([prefix]) == [Press(prefix)];
    ConcatAssoc(Presses(Escape(text)) + [Press(prefix)], [Tick], Presses(Escape(more)));
    assert Presses(Escape(more)) + [] == Presses(Escape(more));
  }

  lemma HeldThenDropped(a: seq<Key>, prefix: byte, b: seq<Key>)
    requires Run(Idle, a).state == Idle && (prefix == 0x1c || prefix == 0x02)
    ensures Run(Idle, a + [Press(prefix)] + [Tick] + b).outs == Run(Idle, a).outs + Run(Idle, b).outs
  {
    RunSnoc(Idle, a, Press(prefix));
    TimeoutDropsPrefix(a + [Press(prefix)], b);
    assert (a + [Press(prefix)])[..|a|] == a;
    RunConcat(Idle, a, b);
  }

  /** Nothing that comes after the end of input is sent. */
  lemma ClosedEndsInput(text: seq<byte>, later: Input, writes: seq<seq<byte>>, helps: nat, exit: Option<Action>)
    requires Finished(Keys([Chunk(Escape(text)), Closed, later]), writes, helps, exit)
    ensures Flatten(writes) == text && helps == 0 && exit.None?
  {
    var inputs := [Chunk(Escape(text)), Closed, later];
    assert inputs[1..][0] == Closed;
    assert Keys(inputs) == Presses(Escape(text)) + [];
    assert Presses(Escape(text)) + [] == Presses(Escape(text));
    EscapeIsTransparent(text);
    var outs := Run(Idle, Presses(Escape(text))).outs;
    LiteralsAreQuiet(outs);
    NothingCut(outs);
  }
}
