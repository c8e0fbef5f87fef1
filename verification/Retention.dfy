/** The size policy of the transcript: what `append` keeps when the file outgrows its cap, and what
    that means over whole runs. A log is the list of its payloads, oldest first. */
module Retention {
  import opened Bytes
  import opened ChunkCodec

  const MAX_TRANSCRIPT_SIZE: nat := 100 * 1024 * 1024

  /** The largest read of the PTY loop, and so the largest payload it publishes. */
  const PTY_READ: nat := 8192

  /** The largest payload bound under which the file never stays over the cap (see `CapIff`). */
  const CAP_PAYLOAD_LIMIT: nat := 2_995_932

  /** `s` starts the shortest non-empty run of newest chunks that holds half of the plaintext. */
  ghost predicate IsKeepPoint(log: seq<seq<byte>>, s: nat) {
    && s < |log|
    && PlainSize(log[s..]) >= PlainSize(log) / 2
    && forall t :: s < t < |log| ==> PlainSize(log[t..]) < PlainSize(log) / 2
  }

  function KeepFrom(log: seq<seq<byte>>, i: nat): (s: nat)
    requires i < |log|
    requires forall t :: i < t < |log| ==> PlainSize(log[t..]) < PlainSize(log) / 2
    ensures IsKeepPoint(log, s)
  {
    assert log[0..] == log;
    if PlainSize(log[i..]) >= PlainSize(log) / 2 then i else KeepFrom(log, i - 1)
  }

  /** Where `truncate` starts to keep. */
  function KeepPoint(log: seq<seq<byte>>): (s: nat)
    requires log != []
    ensures IsKeepPoint(log, s)
  {
    KeepFrom(log, |log| - 1)
  }

  lemma KeepPointUnique(log: seq<seq<byte>>, s: nat)
    requires IsKeepPoint(log, s)
    ensures s == KeepPoint(log)
  {
  }

  function Kept(log: seq<seq<byte>>): seq<seq<byte>> {
    if log == [] then [] else log[KeepPoint(log)..]
  }

  predicate Truncates(log: seq<seq<byte>>, data: seq<byte>) {
    data != [] && FileSize(log + [data]) > MAX_TRANSCRIPT_SIZE
  }

  /** The log after one `append`. */
  function AfterAppend(log: seq<seq<byte>>, data: seq<byte>): seq<seq<byte>> {
    if data == [] then log
    else if Truncates(log, data) then Kept(log + [data])
    else log + [data]
  }

  /** `kept` is what a truncation leaves of `all`. */
  ghost predicate NewestHalf(all: seq<seq<byte>>, kept: seq<seq<byte>>) {
    exists s: nat :: IsKeepPoint(all, s) && kept == all[s..]
  }

  lemma NewestHalfUnique(all: seq<seq<byte>>, kept: seq<seq<byte>>)
    ensures NewestHalf(all, kept) <==> all != [] && kept == Kept(all)
  {
    if all != [] {
      assert IsKeepPoint(all, KeepPoint(all));
    }
  }

  /** In plain words: a non-empty run of the newest chunks with at least half of the bytes, that would
      have less than half without its first chunk. */
  lemma NewestHalfMeaning(all: seq<seq<byte>>, kept: seq<seq<byte>>)
    requires NewestHalf(all, kept)
    ensures kept != [] && IsSuffix(kept, all)
    ensures |Flatten(kept)| >= |Flatten(all)| / 2
    ensures |kept| > 1 ==> |Flatten(kept[1..])| < |Flatten(all)| / 2
  {
    var s: nat :| IsKeepPoint(all, s) && kept == all[s..];
    if |kept| > 1 {
      assert kept[1..] == all[s + 1..];
      assert PlainSize(all[s + 1..]) < PlainSize(all) / 2;
    }
  }

  lemma FileSizeInBytes(log: seq<seq<byte>>)
    ensures FileSize(log) == |Flatten(log)| + 32 * |log|
  {
  }

  /** One append, by the size of the file it would leave: 32 bytes for every chunk and at most 100 MiB. */
  lemma AppendByCases(log: seq<seq<byte>>, data: seq<byte>)
    requires data != []
    ensures var all := log + [data];
      if |Flatten(all)| + 32 * |all| <= 104_857_600 then AfterAppend(log, data) == all
      else NewestHalf(all, AfterAppend(log, data))
  {
    FileSizeInBytes(log + [data]);
    if Truncates(log, data) {
      NewestHalfUnique(log + [data], AfterAppend(log, data));
    }
  }

  // ---------------------------------------------------------------- sizes

  lemma {:induction false} SizeConcat(a: seq<seq<byte>>, b: seq<seq<byte>>)
    ensures PlainSize(a + b) == PlainSize(a) + PlainSize(b)
    ensures FileSize(a + b) == FileSize(a) + FileSize(b)
  {
    FlattenConcat(a, b);
  }

  lemma SizeOne(p: seq<byte>)
    ensures PlainSize([p]) == |p| && FileSize([p]) == |p| + CHUNK_OVERHEAD
  {
    assert Flatten([p]) == p + Flatten<byte>([]);
  }

  lemma SizeSnoc(log: seq<seq<byte>>, p: seq<byte>)
    ensures PlainSize(log + [p]) == PlainSize(log) + |p|
    ensures FileSize(log + [p]) == FileSize(log) + |p| + CHUNK_OVERHEAD
  {
    SizeConcat(log, [p]);
    SizeOne(p);
  }

  lemma SizeSplit(log: seq<seq<byte>>, s: nat)
    requires s < |log|
    ensures PlainSize(log) == PlainSize(log[..s]) + |log[s]| + PlainSize(log[s + 1..])
    ensures PlainSize(log[s..]) == |log[s]| + PlainSize(log[s + 1..])
  {
    FlattenSplit(log, s);
    assert log[s..][1..] == log[s + 1..];
  }

  /** Every payload is non-empty and at most `bound` bytes. */
  ghost predicate Bounded(log: seq<seq<byte>>, bound: nat) {
    forall p :: p in log ==> 0 < |p| <= bound
  }

  lemma {:induction false} CountWithinPlain(log: seq<seq<byte>>, bound: nat)
    requires Bounded(log, bound)
    ensures |log| <= PlainSize(log)
    ensures log != [] ==> PlainSize(log) > 0
  {
    if log != [] {
      CountWithinPlain(log[1..], bound);
    }
  }

  // ---------------------------------------------------------------- the cap

  /** The arithmetic of the cap. Before the append the log was `dropped` bytes in `s` chunks, then a
      chunk of `first` bytes, then `rest` bytes in `n` chunks; `last` is the new payload. */
  lemma CapArithmetic(dropped: nat, s: nat, first: nat, rest: nat, n: nat, last: nat)
    requires s <= dropped && n <= rest
    requires first <= CAP_PAYLOAD_LIMIT && last <= CAP_PAYLOAD_LIMIT
    requires dropped + first + rest + CHUNK_OVERHEAD * (s + 1 + n) <= MAX_TRANSCRIPT_SIZE
    requires s == 0 ==> dropped == 0
    requires rest + last < (dropped + first + rest + last) / 2
    ensures first + rest + last + CHUNK_OVERHEAD * (n + 2) <= MAX_TRANSCRIPT_SIZE
  {
  }

  /** One append keeps the file within the cap, whatever was in it. */
  lemma AppendKeepsCap(log: seq<seq<byte>>, data: seq<byte>, bound: nat)
    requires bound <= CAP_PAYLOAD_LIMIT
    requires Bounded(log, bound) && |data| <= bound
    requires FileSize(log) <= MAX_TRANSCRIPT_SIZE
    ensures FileSize(AfterAppend(log, data)) <= MAX_TRANSCRIPT_SIZE
  {
    if Truncates(log, data) {
      var s := KeepPoint(log + [data]);
      if s < |log| {
        KeptWithinCap(log, data, s, bound);
      } else {
        assert (log + [data])[s..] == [data];
        SizeOne(data);
      }
    }
  }

  lemma KeptWithinCap(log: seq<seq<byte>>, data: seq<byte>, s: nat, bound: nat)
    requires bound <= CAP_PAYLOAD_LIMIT
    requires Bounded(log, bound) && |data| <= bound
    requires FileSize(log) <= MAX_TRANSCRIPT_SIZE
    requires s < |log|
    requires PlainSize((log + [data])[s + 1..]) < PlainSize(log + [data]) / 2
    ensures FileSize((log + [data])[s..]) <= MAX_TRANSCRIPT_SIZE
  {
    var before, after := log[..s], log[s + 1..];
    KeptSizes(log, data, s);
    CountWithinPlain(before, bound);
    CountWithinPlain(after, bound);
    assert log[s] in log;
    CapArithmetic(PlainSize(before), s, |log[s]|, PlainSize(after), |after|, |data|);
  }

  lemma KeptSizes(log: seq<seq<byte>>, data: seq<byte>, s: nat)
    requires s < |log|
    ensures PlainSize(log) == PlainSize(log[..s]) + |log[s]| + PlainSize(log[s + 1..])
    ensures PlainSize(log + [data]) == PlainSize(log) + |data|
    ensures PlainSize((log + [data])[s + 1..]) == PlainSize(log[s + 1..]) + |data|
    ensures PlainSize((log + [data])[s..]) == |log[s]| + PlainSize(log[s + 1..]) + |data|
  {
    SizeSnoc(log, data);
    SizeSplit(log, s);
    SizeSplit(log + [data], s);
    assert (log + [data])[s + 1..] == log[s + 1..] + [data];
    SizeSnoc(log[s + 1..], data);
  }

  function Zeros(n: nat): (z: seq<byte>)
    ensures |z| == n
  {
    seq(n, _ => 0)
  }

  function Singles(n: nat): (ones: seq<seq<byte>>)
    ensures |ones| == n
    ensures forall p :: p in ones ==> p == [0]
  {
    seq(n, _ => [0])
  }

  lemma {:induction false} SinglesSize(n: nat)
    ensures PlainSize(Singles(n)) == n
  {
    if n > 0 {
      assert Singles(n)[1..] == Singles(n - 1);
      SinglesSize(n - 1);
    }
  }

  /** A log that fills the cap to the byte, whose largest payload is one over the limit... */
  function TightLog(): seq<seq<byte>> {
    [Zeros(2_995_913), Zeros(2_995_933)] + Singles(2_995_930)
  }

  /** ...and the append after which the file is one byte over the cap. */
  function TightPayload(): seq<byte> {
    Zeros(2_995_914)
  }

  lemma TightSizes(tail: seq<byte>)
    ensures PlainSize(TightLog() + [tail]) == 8_987_776 + |tail|
    ensures PlainSize((TightLog() + [tail])[1..]) == 5_991_863 + |tail|
    ensures PlainSize((TightLog() + [tail])[2..]) == 2_995_930 + |tail|
  {
    var a, b, ones := Zeros(2_995_913), Zeros(2_995_933), Singles(2_995_930);
    SinglesSize(2_995_930);
    SizeSnoc(ones, tail);
    TightParts(a, b, ones, tail);
    SizeCons(b, ones + [tail]);
    SizeCons(a, [b] + (ones + [tail]));
  }

  lemma TightParts(a: seq<byte>, b: seq<byte>, ones: seq<seq<byte>>, tail: seq<byte>)
    ensures [a, b] + ones + [tail] == [a] + ([b] + (ones + [tail]))
    ensures ([a, b] + ones + [tail])[1..] == [b] + (ones + [tail])
    ensures ([a, b] + ones + [tail])[2..] == ones + [tail]
  {
  }

  lemma SizeCons(p: seq<byte>, log: seq<seq<byte>>)
    ensures PlainSize([p] + log) == |p| + PlainSize(log)
  {
    SizeConcat([p], log);
    SizeOne(p);
  }

  lemma TightKeepPoint(all: seq<seq<byte>>)
    requires |all| > 2
    requires PlainSize(all[2..]) < PlainSize(all) / 2 <= PlainSize(all[1..])
    ensures KeepPoint(all) == 1
  {
    forall t | 1 < t < |all| ensures PlainSize(all[t..]) < PlainSize(all) / 2 {
      assert all[2..] == all[2..t] + all[t..];
      SizeConcat(all[2..t], all[t..]);
    }
    KeepPointUnique(all, 1);
  }

  lemma TightLogBounded()
    ensures Bounded(TightLog(), CAP_PAYLOAD_LIMIT + 1)
  {
  }

  lemma TightLogFits()
    ensures FileSize(TightLog()) == MAX_TRANSCRIPT_SIZE
  {
    TightSizes([]);
    SizeSnoc(TightLog(), []);
  }

  lemma TightCounterexample()
    ensures FileSize(AfterAppend(TightLog(), TightPayload())) == MAX_TRANSCRIPT_SIZE + 1
  {
    var log, p := TightLog(), TightPayload();
    TightLogFits();
    SizeSnoc(log, p);
    assert Truncates(log, p);
    TightSizes(p);
    TightKeepPoint(log + [p]);
    assert |(log + [p])[1..]| == 2_995_932;
  }

  // ---------------------------------------------------------------- runs

  datatype Op = Append(data: seq<byte>) | Reopen

  /** The log after a series of appends and daemon restarts. */
  function Run(log: seq<seq<byte>>, ops: seq<Op>): seq<seq<byte>>
    decreases ops
  {
    if ops == [] then log
    else Run(if ops[0].Append? then AfterAppend(log, ops[0].data) else log, ops[1..])
  }

  lemma {:induction false} RunSnoc(log: seq<seq<byte>>, ops: seq<Op>, op: Op)
    ensures Run(log, ops + [op]) ==
      if op.Append? then AfterAppend(Run(log, ops), op.data) else Run(log, ops)
    decreases ops
  {
    if ops == [] {
      assert ops + [op] == [op];
      assert [op][1..] == [];
    } else {
      assert (ops + [op])[1..] == ops[1..] + [op];
      RunSnoc(if ops[0].Append? then AfterAppend(log, ops[0].data) else log, ops[1..], op);
    }
  }

  /** The payloads of a run that `append` stores, oldest first. */
  function Payloads(ops: seq<Op>): seq<seq<byte>> {
    if ops == [] then []
    else (if ops[0].Append? && ops[0].data != [] then [ops[0].data] else []) + Payloads(ops[1..])
  }

  function Truncations(log: seq<seq<byte>>, ops: seq<Op>): nat
    decreases ops
  {
    if ops == [] then 0
    else if ops[0].Reopen? then Truncations(log, ops[1..])
    else
      var later := Truncations(AfterAppend(log, ops[0].data), ops[1..]);
      if Truncates(log, ops[0].data) then 1 + later else later
  }

  /** The appends of a run that find the file full: with their chunk it would have more than 100 MiB. */
  ghost function FullAppends(ops: seq<Op>): set<nat> {
    set i: nat | i < |ops| && FindsFull(ops, i)
  }

  ghost predicate FindsFull(ops: seq<Op>, i: nat)
    requires i < |ops|
  {
    && ops[i].Append? && ops[i].data != []
    && var all := Run([], ops[..i]) + [ops[i].data];
       |Flatten(all)| + 32 * |all| > 104_857_600
  }

  lemma {:induction false} TruncationsSnoc(log: seq<seq<byte>>, ops: seq<Op>, op: Op)
    ensures Truncations(log, ops + [op]) ==
      Truncations(log, ops) + if op.Append? && Truncates(Run(log, ops), op.data) then 1 else 0
    decreases ops
  {
    if ops == [] {
      assert ops + [op] == [op] && [op][1..] == [];
    } else {
      assert (ops + [op])[1..] == ops[1..] + [op];
      TruncationsSnoc(if ops[0].Append? then AfterAppend(log, ops[0].data) else log, ops[1..], op);
    }
  }

  lemma FullAppendsSnoc(ops: seq<Op>, op: Op)
    ensures FullAppends(ops + [op]) ==
      FullAppends(ops) + if FindsFull(ops + [op], |ops|) then {|ops|} else {}
  {
    var all := ops + [op];
    forall i: nat | i < |ops| ensures FindsFull(all, i) <==> FindsFull(ops, i) {
      assert all[..i] == ops[..i];
    }
  }

  /** The truncations of a run are its appends to a full file. */
  lemma {:induction false} TruncationsCounted(ops: seq<Op>)
    ensures Truncations([], ops) == |FullAppends(ops)|
  {
    if ops != [] {
      var n := |ops| - 1;
      TruncationsCounted(ops[..n]);
      TakeSnoc(ops, n);
      TakeAll(ops);
      TruncationsSnoc([], ops[..n], ops[n]);
      FullAppendsSnoc(ops[..n], ops[n]);
      assert n !in FullAppends(ops[..n]);
    } else {
      assert FullAppends(ops) == {};
    }
  }

  ghost predicate BoundedOps(ops: seq<Op>, bound: nat) {
    forall op :: op in ops && op.Append? ==> |op.data| <= bound
  }

  lemma AppendKeepsBound(log: seq<seq<byte>>, data: seq<byte>, bound: nat)
    requires Bounded(log, bound) && |data| <= bound
    ensures Bounded(AfterAppend(log, data), bound)
  {
  }

  lemma {:induction false} RunKeepsCap(log: seq<seq<byte>>, ops: seq<Op>, bound: nat)
    requires bound <= CAP_PAYLOAD_LIMIT
    requires Bounded(log, bound) && BoundedOps(ops, bound)
    requires FileSize(log) <= MAX_TRANSCRIPT_SIZE
    ensures FileSize(Run(log, ops)) <= MAX_TRANSCRIPT_SIZE
    decreases ops
  {
    if ops != [] {
      if ops[0].Append? {
        AppendKeepsCap(log, ops[0].data, bound);
        AppendKeepsBound(log, ops[0].data, bound);
        RunKeepsCap(AfterAppend(log, ops[0].data), ops[1..], bound);
      } else {
        RunKeepsCap(log, ops[1..], bound);
      }
    }
  }

  function Appends(payloads: seq<seq<byte>>): (ops: seq<Op>)
    ensures |ops| == |payloads|
    ensures forall i :: 0 <= i < |ops| ==> ops[i] == Append(payloads[i])
  {
    seq(|payloads|, i requires 0 <= i < |payloads| => Append(payloads[i]))
  }

  /** While the total stays within the cap, appending stores every payload. */
  lemma {:induction false} AppendsFillUp(log: seq<seq<byte>>, more: seq<seq<byte>>, last: seq<byte>)
    requires Bounded(more, |Flatten(more)|)
    requires FileSize(log + more) <= MAX_TRANSCRIPT_SIZE
    ensures Run(log, Appends(more + [last])) == AfterAppend(log + more, last)
    decreases more
  {
    var ops := Appends(more + [last]);
    if more == [] {
      assert log + more == log;
      assert ops[1..] == [];
      assert Run(log, ops) == Run(AfterAppend(log, last), []);
    } else {
      var p, rest := more[0], more[1..];
      assert log + more == (log + [p]) + rest;
      SizeConcat(log + [p], rest);
      assert ops[1..] == Appends(rest + [last]);
      assert forall q :: q in rest ==> q in more;
      BoundedByPlain(rest);
      assert AfterAppend(log, p) == log + [p];
      AppendsFillUp(log + [p], rest, last);
    }
  }

  lemma {:induction false} BoundedByPlain(log: seq<seq<byte>>)
    requires forall p :: p in log ==> p != []
    ensures Bounded(log, |Flatten(log)|)
  {
    forall p | p in log ensures |p| <= |Flatten(log)| {
      var i :| 0 <= i < |log| && log[i] == p;
      SizeSplit(log, i);
    }
  }

  ghost predicate CapHolds(bound: nat) {
    forall ops :: BoundedOps(ops, bound) ==> FileSize(Run([], ops)) <= MAX_TRANSCRIPT_SIZE
  }

  /** The exact payload bound of the size cap: with payloads of at most `bound` bytes the file is
      within the cap after every run if and only if `bound` is at most 2,995,932. */
  lemma CapIff(bound: nat)
    ensures CapHolds(bound) <==> bound <= CAP_PAYLOAD_LIMIT
  {
    if bound <= CAP_PAYLOAD_LIMIT {
      forall ops | BoundedOps(ops, bound) ensures FileSize(Run([], ops)) <= MAX_TRANSCRIPT_SIZE {
        RunKeepsCap([], ops, bound);
      }
    } else {
      TightLogBounded();
      TightLogFits();
      TightCounterexample();
      var log, p := TightLog(), TightPayload();
      BoundedByPlain(log);
      assert [] + log == log;
      AppendsFillUp([], log, p);
      var ops := Appends(log + [p]);
      assert BoundedOps(ops, bound) by {
        forall op | op in ops && op.Append? ensures |op.data| <= bound {
          assert op.data in log + [p];
        }
      }
    }
  }

  // ---------------------------------------------------------------- what a run keeps

  lemma SuffixTrans<T>(a: seq<T>, b: seq<T>, c: seq<T>)
    requires IsSuffix(a, b) && IsSuffix(b, c)
    ensures IsSuffix(a, c)
  {
  }

  lemma SuffixConcat<T>(a: seq<T>, b: seq<T>, tail: seq<T>)
    requires IsSuffix(a, b)
    ensures IsSuffix(a + tail, b + tail)
  {
  }

  lemma AppendKeepsSuffix(log: seq<seq<byte>>, data: seq<byte>)
    requires data != []
    ensures IsSuffix(AfterAppend(log, data), log + [data])
    ensures AfterAppend(log, data) != []
  {
  }

  /** Only whole chunks are lost, oldest first, and the newest payload never is. */
  lemma {:induction false} RunKeepsSuffix(log: seq<seq<byte>>, ops: seq<Op>)
    ensures IsSuffix(Run(log, ops), log + Payloads(ops))
    ensures log + Payloads(ops) != [] ==> Run(log, ops) != []
    decreases ops
  {
    if ops == [] {
      assert log + Payloads(ops) == log;
    } else if ops[0].Reopen? || ops[0].data == [] {
      assert Payloads(ops) == Payloads(ops[1..]);
      RunKeepsSuffix(log, ops[1..]);
    } else {
      var next := AfterAppend(log, ops[0].data);
      AppendKeepsSuffix(log, ops[0].data);
      RunKeepsSuffix(next, ops[1..]);
      SuffixConcat(next, log + [ops[0].data], Payloads(ops[1..]));
      ConcatAssoc(log, [ops[0].data], Payloads(ops[1..]));
      assert Payloads(ops) == [ops[0].data] + Payloads(ops[1..]);
      SuffixTrans(Run(log, ops), next + Payloads(ops[1..]), log + Payloads(ops));
    }
  }

  lemma NewestKept(end: seq<seq<byte>>, log: seq<seq<byte>>, more: seq<seq<byte>>)
    requires end != [] && more != [] && IsSuffix(end, log + more)
    ensures IsSuffix(more[|more| - 1], Flatten(end))
  {
    assert end[|end| - 1] == more[|more| - 1];
    FlattenLast(end);
    ConcatSuffix(Flatten(end[..|end| - 1]), end[|end| - 1]);
  }

  lemma SuffixOfParts(end: seq<seq<byte>>, log: seq<seq<byte>>, more: seq<seq<byte>>)
    requires IsSuffix(end, log + more)
    ensures IsSuffix(Flatten(end), Flatten(log) + Flatten(more))
  {
    FlattenConcat(log, more);
    FlattenSuffix(end, log + more);
  }

  /** The readable plaintext is a suffix of everything ever appended, and ends with the newest
      payload whole. */
  lemma PlaintextIsSuffix(log: seq<seq<byte>>, ops: seq<Op>)
    ensures IsSuffix(Flatten(Run(log, ops)), Flatten(log) + Flatten(Payloads(ops)))
    ensures Payloads(ops) != [] ==>
      IsSuffix(Payloads(ops)[|Payloads(ops)| - 1], Flatten(Run(log, ops)))
  {
    var end, more := Run(log, ops), Payloads(ops);
    RunKeepsSuffix(log, ops);
    SuffixOfParts(end, log, more);
    if more != [] {
      assert log + more != [];
      NewestKept(end, log, more);
    }
  }

  predicate EndsInNewline(s: seq<byte>) {
    s != [] && s[|s| - 1] == NEWLINE
  }

  /** When every payload ends in a newline, the part that was dropped does too: the log always
      starts on a record boundary. */
  lemma RunStartsOnRecord(ops: seq<Op>)
    requires forall p :: p in Payloads(ops) ==> EndsInNewline(p)
    ensures exists dropped: seq<byte> ::
      Flatten(Payloads(ops)) == dropped + Flatten(Run([], ops)) && (dropped == [] || EndsInNewline(dropped))
  {
    var all, end := Payloads(ops), Run([], ops);
    assert IsSuffix(end, all) by {
      RunKeepsSuffix([], ops);
      assert [] + all == all;
    }
    FlattenSplit(all, |all| - |end|);
    RecordsEndInNewline(all[..|all| - |end|]);
  }

  lemma RecordsEndInNewline(records: seq<seq<byte>>)
    requires forall p :: p in records ==> EndsInNewline(p)
    ensures Flatten(records) == [] || EndsInNewline(Flatten(records))
  {
    if records != [] {
      assert EndsInNewline(records[|records| - 1]);
      FlattenLast(records);
    }
  }

  // ---------------------------------------------------------------- amortised cost

  /** File bytes that every truncation of a log with payloads of at most `bound` bytes removes. */
  lemma TruncationRemoves(log: seq<seq<byte>>, data: seq<byte>, bound: nat)
    requires bound <= CAP_PAYLOAD_LIMIT / 2
    requires Bounded(log, bound) && |data| <= bound
    requires Truncates(log, data)
    ensures FileSize(AfterAppend(log, data)) + (104_857_600 / 66 - bound) <= FileSize(log + [data])
  {
    var all := log + [data];
    assert Bounded(all, bound);
    var s := KeepPoint(all);
    HalfDropped(all, s, bound);
    CountWithinPlain(all, bound);
    RemovedArithmetic(PlainSize(all), |all|, PlainSize(all[s..]), |all[s..]|, bound);
  }

  lemma RemovedArithmetic(plain: nat, n: nat, kept: nat, k: nat, bound: nat)
    requires bound <= CAP_PAYLOAD_LIMIT / 2
    requires k <= n <= plain
    requires plain + CHUNK_OVERHEAD * n > MAX_TRANSCRIPT_SIZE
    requires kept <= bound + plain / 2
    ensures kept + CHUNK_OVERHEAD * k + (104_857_600 / 66 - bound) <= plain + CHUNK_OVERHEAD * n
  {
  }

  lemma HalfDropped(all: seq<seq<byte>>, s: nat, bound: nat)
    requires Bounded(all, bound) && IsKeepPoint(all, s)
    ensures PlainSize(all[s..]) <= bound + PlainSize(all) / 2
  {
    SizeSplit(all, s);
    assert all[s] in all;
    if s + 1 < |all| {
      assert PlainSize(all[s + 1..]) < PlainSize(all) / 2;
    } else {
      assert all[s + 1..] == [];
    }
  }

  /** Bytes that the appends of a run add to the file. */
  function AppendedBytes(ops: seq<Op>): nat {
    FileSize(Payloads(ops))
  }

  /** Bytes that the truncations of a run remove from the file. */
  function RemovedBytes(log: seq<seq<byte>>, ops: seq<Op>): int
    decreases ops
  {
    if ops == [] then 0
    else if ops[0].Reopen? then RemovedBytes(log, ops[1..])
    else
      var next := AfterAppend(log, ops[0].data);
      var later := RemovedBytes(next, ops[1..]);
      if Truncates(log, ops[0].data) then FileSize(log + [ops[0].data]) - FileSize(next) + later
      else later
  }

  lemma AppendedCons(ops: seq<Op>)
    requires ops != []
    ensures AppendedBytes(ops) == AppendedBytes(ops[1..]) +
      if ops[0].Append? && ops[0].data != [] then FileSize([ops[0].data]) else 0
  {
    if ops[0].Append? && ops[0].data != [] {
      SizeConcat([ops[0].data], Payloads(ops[1..]));
    } else {
      assert Payloads(ops) == Payloads(ops[1..]);
    }
  }

  /** Conservation: every byte that entered the file is still there or was removed by a truncation. */
  lemma {:induction false} BytesConserved(log: seq<seq<byte>>, ops: seq<Op>)
    ensures FileSize(log) + AppendedBytes(ops) == FileSize(Run(log, ops)) + RemovedBytes(log, ops)
    decreases ops
  {
    if ops != [] {
      AppendedCons(ops);
      if ops[0].Append? {
        BytesConserved(AfterAppend(log, ops[0].data), ops[1..]);
        SizeConcat(log, [ops[0].data]);
      } else {
        BytesConserved(log, ops[1..]);
      }
    }
  }

  /** `n` times `unit`, by addition. */
  function Times(n: nat, unit: nat): nat {
    if n == 0 then 0 else unit + Times(n - 1, unit)
  }

  lemma {:induction false} TimesIsProduct(n: nat, unit: nat)
    ensures Times(n, unit) == n * unit
  {
    if n > 0 {
      TimesIsProduct(n - 1, unit);
    }
  }

  lemma {:induction false} TruncationsRemove(log: seq<seq<byte>>, ops: seq<Op>, bound: nat)
    requires bound <= CAP_PAYLOAD_LIMIT / 2
    requires Bounded(log, bound) && BoundedOps(ops, bound)
    ensures Times(Truncations(log, ops), 104_857_600 / 66 - bound) <= RemovedBytes(log, ops)
    decreases ops
  {
    if ops != [] {
      if ops[0].Append? {
        AppendKeepsBound(log, ops[0].data, bound);
        TruncationsRemove(AfterAppend(log, ops[0].data), ops[1..], bound);
        if Truncates(log, ops[0].data) {
          TruncationRemoves(log, ops[0].data, bound);
        }
      } else {
        TruncationsRemove(log, ops[1..], bound);
      }
    }
  }

  /** The amortised cost: every truncation is paid for by MAX/66 - bound bytes appended before it. */
  lemma Amortised(log: seq<seq<byte>>, ops: seq<Op>, bound: nat)
    requires bound <= CAP_PAYLOAD_LIMIT / 2
    requires Bounded(log, bound) && BoundedOps(ops, bound)
    ensures Times(Truncations(log, ops), 104_857_600 / 66 - bound) + FileSize(Run(log, ops))
         <= FileSize(log) + AppendedBytes(ops)
  {
    BytesConserved(log, ops);
    TruncationsRemove(log, ops, bound);
  }

  /** A session transcript is rewritten at most once per 1,580,559 bytes appended. */
  lemma PtyTruncationsAreRare(ops: seq<Op>)
    requires BoundedOps(ops, PTY_READ)
    ensures Truncations([], ops) <= AppendedBytes(ops) / 1_580_559
  {
    Amortised([], ops, PTY_READ);
    TimesIsProduct(Truncations([], ops), 1_580_559);
  }
}
