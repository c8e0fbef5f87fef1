/** The append-only encrypted log of a session (`TranscriptWriter`). The file on disk is a field;
    key files, permissions and I/O errors are not modelled. */
module Transcript {
  import opened Bytes
  import opened Aead
  import opened LengthPrefixed
  import opened ChunkCodec
  import opened Retention
  import opened Pager
  import Search
  import Utf8

  type u64 = x: int | 0 <= x < U64

  datatype KeyFile = Intact | Missing | Corrupt

  datatype Slice = Bytes(data: seq<byte>) | Panic

  /** `String::from_utf8_lossy`: the result is text, and text is left alone. */
  type Decoder = f: seq<byte> -> seq<byte> |
    forall b :: Utf8.Valid(f(b)) && (Utf8.Valid(b) ==> f(b) == b)
    witness b => if Utf8.Valid(b) then b else []

  class TranscriptWriter {
    const cipher: Cipher
    var file: seq<byte>
    var bytesWritten: nat

    ghost predicate Valid()
      reads this
    {
      bytesWritten == |file|
    }

    /** The payloads that can be read back. */
    ghost function Log(): seq<seq<byte>>
      reads this
    {
      DecodeFile(cipher, file)
    }

    ghost function Plaintext(): seq<byte>
      reads this
    {
      Flatten(Log())
    }

    /** The file holds its log and nothing else: no torn tail, no damaged chunk. */
    ghost predicate Clean()
      reads this
    {
      Holds(cipher, file, Log())
    }

    /** `new_with_paths`: a corrupt key file resets the data file. */
    constructor (cipher: Cipher, existing: seq<byte>, key: KeyFile)
      ensures Valid()
      ensures this.cipher == cipher
      ensures file == if key.Corrupt? then [] else existing
    {
      this.cipher := cipher;
      file := if key.Corrupt? then [] else existing;
      bytesWritten := if key.Corrupt? then 0 else |existing|;
    }

    /** One encrypted chunk, then a rewrite when the file has outgrown its cap. The random nonce is
        a parameter. */
    method Append(data: seq<byte>, nonce: Nonce)
      requires Valid()
      modifies this
      ensures Valid()
      ensures data == [] ==> file == old(file)
      // On any file, even one with a torn tail:
      ensures data != [] ==> Appended(cipher, old(file), data, nonce, file)
      // On a clean file:
      ensures old(Clean()) && Fits(data) ==> Clean() && Log() == AfterAppend(old(Log()), data)
      ensures old(Clean()) && Fits(data) && data != [] ==>
        var all := old(Log()) + [data];
        if |Flatten(all)| + 32 * |all| <= 104_857_600 then Log() == all else NewestHalf(all, Log())
    {
      if data == [] {
        return;
      }
      var sealed := Seal(cipher, nonce, data);
      var chunkLen := (NONCE_SIZE + |sealed|) % U32;
      file := file + BigEndian(chunkLen);
      file := file + nonce;
      file := file + sealed;
      bytesWritten := bytesWritten + LEN_PREFIX + NONCE_SIZE + |sealed|;
      assert file == old(file) + EncodeChunk(cipher, nonce, data);
      if bytesWritten > MAX_TRANSCRIPT_SIZE {
        Truncate();
      }
      assert Appended(cipher, old(file), data, nonce, file);
      if old(Clean()) && Fits(data) {
        CleanAppend(cipher, old(file), data, nonce, file);
        AppendByCases(DecodeFile(cipher, old(file)), data);
      }
    }

    method Truncate()
      requires Valid()
      modifies this
      ensures Valid()
      ensures old(Log()) == [] ==> file == old(file)
      ensures old(Log()) != [] ==> Clean() && NewestHalf(old(Log()), Log())
    {
      var chunks := DecodeChunks(cipher, file);
      if chunks == [] {
        return;
      }
      var startIdx := FindKeepPoint(chunks);
      DecodedFit(cipher, file);
      var tmp := Reseal(cipher, chunks[startIdx..]);
      bytesWritten := |tmp|;
      file := tmp;  // atomic rename
      FileRoundTrip(cipher, tmp, chunks[startIdx..]);
      assert IsKeepPoint(chunks, startIdx);
    }

    method ReadAllPlaintext() returns (all: seq<byte>)
      ensures all == Plaintext()
    {
      var chunks := DecodeChunks(cipher, file);
      all := [];
      for i := 0 to |chunks|
        invariant all == Flatten(chunks[..i])
      {
        TakeSnoc(chunks, i);
        FlattenSnoc(chunks[..i], chunks[i]);
        all := all + chunks[i];
      }
      TakeAll(chunks);
    }

    method ReadLast(n: u64) returns (result: seq<byte>)
      ensures IsSuffix(result, Plaintext()) && |result| == Min(n, |Plaintext()|)
    {
      var chunks := DecodeChunks(cipher, file);
      result := GatherLast(chunks, n);
    }

    /** A range of plaintext. The 64-bit sum of offset and length wraps; slicing backwards panics. */
    method ReadRange(offset: u64, length: u64) returns (r: Slice)
      ensures r.Panic? <==> offset < |Plaintext()| && offset + length >= 0x1_0000_0000_0000_0000
      ensures r.Bytes? ==>
        r.data == Plaintext()[Min(offset, |Plaintext()|)..Min(offset + length, |Plaintext()|)]
    {
      var all := ReadAllPlaintext();
      var total := |all|;
      if offset >= total {
        return Bytes([]);
      }
      var end := Min((offset + length) % U64, total);
      if end < offset {
        return Panic;
      }
      r := Bytes(all[offset..end]);
    }

    /** A page of at most `maxBytes` ending before `before`, trimmed to start behind a newline. */
    method ReadTailBefore(before: Option<nat>, maxBytes: u64) returns (data: seq<byte>, start: nat, total: nat)
      ensures IsPage(Plaintext(), before, maxBytes, data, start, total)
      ensures Page(data, start, total) == TailPage(Plaintext(), before, maxBytes)
    {
      var all := ReadAllPlaintext();
      data, start, total := CutPage(all, before, maxBytes);
    }

    /** Literal, case-sensitive search of the decoded plaintext. */
    method SearchText(decode: Decoder, pattern: seq<byte>, limit: nat) returns (r: Option<Search.Results>)
      requires Utf8.Valid(pattern)
      ensures Search.Answers(decode(Plaintext()), pattern, limit, r)
      ensures Utf8.Valid(Plaintext()) ==> Search.Answers(Plaintext(), pattern, limit, r)
    {
      var all := ReadAllPlaintext();
      r := Search.SearchLiteral(decode(all), pattern, limit);
    }
  }

  /** What an append of non-empty data leaves on disk. */
  ghost predicate Appended(cipher: Cipher, before: seq<byte>, data: seq<byte>, nonce: Nonce, after: seq<byte>) {
    var written := before + EncodeChunk(cipher, nonce, data);
    if |written| <= 104_857_600 || DecodeFile(cipher, written) == [] then after == written
    else Holds(cipher, after, DecodeFile(cipher, after))
         && NewestHalf(DecodeFile(cipher, written), DecodeFile(cipher, after))
  }

  lemma CleanAppend(cipher: Cipher, before: seq<byte>, data: seq<byte>, nonce: Nonce, after: seq<byte>)
    requires data != [] && Fits(data)
    requires Holds(cipher, before, DecodeFile(cipher, before))
    requires Appended(cipher, before, data, nonce, after)
    ensures DecodeFile(cipher, after) == AfterAppend(DecodeFile(cipher, before), data)
    ensures Holds(cipher, after, DecodeFile(cipher, after))
  {
    var written, log := before + EncodeChunk(cipher, nonce, data), DecodeFile(cipher, before) + [data];
    HoldsSnoc(cipher, before, DecodeFile(cipher, before), nonce, data);
    FileRoundTrip(cipher, written, log);
    HeldSize(cipher, written, log);
    if Truncates(DecodeFile(cipher, before), data) {
      NewestHalfUnique(log, DecodeFile(cipher, after));
    }
  }

  /** Chunks up to the first that is cut short or too small; those that fail to open are skipped. */
  method DecodeChunks(cipher: Cipher, file: seq<byte>) returns (chunks: seq<seq<byte>>)
    ensures chunks == DecodeFile(cipher, file)
  {
    chunks := [];
    var unread := file;
    while true
      invariant DecodeFile(cipher, file) == chunks + DecodeFile(cipher, unread)
      decreases |unread|
    {
      DecodeStep(cipher, unread);
      assert chunks + [] == chunks;
      if |unread| < LEN_PREFIX {
        break;
      }
      var chunkLen := FromBigEndian(unread[..LEN_PREFIX]);
      if chunkLen < NONCE_SIZE + TAG_SIZE {
        break;
      }
      if |unread| - LEN_PREFIX < chunkLen {
        break;
      }
      var body := unread[LEN_PREFIX..LEN_PREFIX + chunkLen];
      var rest := unread[LEN_PREFIX + chunkLen..];
      var plain := OpenBody(cipher, body);
      if plain.Some? {
        ConcatAssoc(chunks, [plain.value], DecodeFile(cipher, rest));
        chunks := chunks + [plain.value];
      }
      unread := rest;
    }
  }

  method FindKeepPoint(chunks: seq<seq<byte>>) returns (startIdx: nat)
    requires chunks != []
    ensures startIdx == KeepPoint(chunks)
  {
    var totalPlain := 0;
    for i := 0 to |chunks|
      invariant totalPlain == PlainSize(chunks[..i])
    {
      TakeSnoc(chunks, i);
      SizeSnoc(chunks[..i], chunks[i]);
      totalPlain := totalPlain + |chunks[i]|;
    }
    TakeAll(chunks);
    var keep := totalPlain / 2;
    var keptPlain := 0;
    startIdx := |chunks|;
    while startIdx > 0 && (startIdx == |chunks| || keptPlain < keep)
      invariant startIdx <= |chunks|
      invariant keptPlain == PlainSize(chunks[startIdx..])
      invariant forall t :: startIdx < t < |chunks| ==> PlainSize(chunks[t..]) < keep
    {
      SizeSplit(chunks, startIdx - 1);
      startIdx := startIdx - 1;
      keptPlain := keptPlain + |chunks[startIdx]|;
    }
    KeepPointUnique(chunks, startIdx);
  }

  /** The kept chunks, sealed again under new nonces into a fresh file. */
  method Reseal(cipher: Cipher, kept: seq<seq<byte>>) returns (tmp: seq<byte>)
    requires AllFit(kept)
    ensures Holds(cipher, tmp, kept)
  {
    tmp := [];
    ghost var nonces: seq<Nonce> := [];
    for i := 0 to |kept|
      invariant |nonces| == i
      invariant tmp == EncodeFile(cipher, nonces, kept[..i])
    {
      var nonce: Nonce := *;  // random
      var sealed := Seal(cipher, nonce, kept[i]);
      EncodeSnoc(cipher, nonces, kept[..i], nonce, kept[i]);
      TakeSnoc(kept, i);
      tmp := tmp + (BigEndian((NONCE_SIZE + |sealed|) % U32) + (nonce + sealed));
      nonces := nonces + [nonce];
    }
    TakeAll(kept);
  }

  /** The last `n` bytes of the chunks, gathered chunk by chunk from the end. */
  method GatherLast(chunks: seq<seq<byte>>, n: nat) returns (result: seq<byte>)
    ensures result == LastN(Flatten(chunks), n)
  {
    result := [];
    var i := |chunks|;
    while i > 0
      invariant 0 <= i <= |chunks|
      invariant result == Flatten(chunks[i..])
    {
      i := i - 1;
      assert chunks[i..][1..] == chunks[i + 1..];
      result := chunks[i] + result;
      if |result| >= n {
        break;
      }
    }
    FlattenSplit(chunks, i);
    assert i == 0 ==> chunks[..i] == [];
    if |result| > n {
      result := result[|result| - n..];
    }
  }

  method CutPage(all: seq<byte>, before: Option<nat>, maxBytes: nat)
    returns (data: seq<byte>, start: nat, total: nat)
    ensures IsPage(all, before, maxBytes, data, start, total)
    ensures Page(data, start, total) == TailPage(all, before, maxBytes)
  {
    TailPageIsPage(all, before, maxBytes);
    total := |all|;
    var end := Min(if before.Some? then before.value else total, total);
    start := if end >= maxBytes then end - maxBytes else 0;
    if start > 0 && start < end {
      var nl := IndexOf(all[start..end], NEWLINE);
      start := if nl < end - start then start + nl + 1 else end;
    }
    assert start == PageStart(all, end, maxBytes);
    if start >= end {
      return [], end, total;
    }
    data := all[start..end];
  }

  /** Two adjacent ranges read together what the combined range reads. */
  method ReadAdjacent(w: TranscriptWriter, offset: u64, first: u64, second: u64) returns (same: bool)
    requires offset + first + second < U64
    ensures same
  {
    var a := w.ReadRange(offset, first);
    var b := w.ReadRange(offset + first, second);
    var c := w.ReadRange(offset, first + second);
    same := a.Bytes? && b.Bytes? && c.Bytes? && c.data == a.data + b.data;
  }

  /** A whole life of a log: appends and daemon restarts, on the real file. */
  method Live(cipher: Cipher, ops: seq<Op>) returns (w: TranscriptWriter)
    requires forall p :: p in Payloads(ops) ==> Fits(p)
    ensures fresh(w) && w.Valid() && w.Clean()
    ensures w.Log() == Run([], ops)
    ensures w.bytesWritten == |w.file| == FileSize(Run([], ops))
    ensures BoundedOps(ops, CAP_PAYLOAD_LIMIT) ==> w.bytesWritten <= MAX_TRANSCRIPT_SIZE
  {
    w := new TranscriptWriter(cipher, [], Missing);
    EmptyFile(cipher);
    for i := 0 to |ops|
      invariant fresh(w) && w.Valid() && w.Clean() && w.cipher == cipher
      invariant w.Log() == Run([], ops[..i])
    {
      TakeSnoc(ops, i);
      RunSnoc([], ops[..i], ops[i]);
      if ops[i].Append? {
        PayloadOf(ops, i);
        var nonce: Nonce := *;  // random
        w.Append(ops[i].data, nonce);
      } else {
        w := new TranscriptWriter(cipher, w.file, Intact);
      }
    }
    TakeAll(ops);
    HeldSize(cipher, w.file, w.Log());
    if BoundedOps(ops, CAP_PAYLOAD_LIMIT) {
      RunKeepsCap([], ops, CAP_PAYLOAD_LIMIT);
    }
  }

  lemma EmptyFile(cipher: Cipher)
    ensures DecodeFile(cipher, []) == [] && Holds(cipher, [], [])
  {
    var none: seq<Nonce> := [];
    assert [] == EncodeFile(cipher, none, []);
  }

  lemma {:induction false} PayloadOf(ops: seq<Op>, i: nat)
    requires i < |ops| && ops[i].Append?
    ensures ops[i].data == [] || ops[i].data in Payloads(ops)
  {
    if i > 0 {
      PayloadOf(ops[1..], i - 1);
    }
  }

  // ---------------------------------------------------------------- an activity log and its reader

  /** A log to which only records are appended consists of records, however often it was truncated. */
  lemma RunKeepsRecords(ops: seq<Op>)
    requires AllRecords(Payloads(ops))
    ensures AllRecords(Run([], ops))
  {
    RunKeepsSuffix([], ops);
    assert [] + Payloads(ops) == Payloads(ops);
    SuffixKeepsRecords(Run([], ops), Payloads(ops));
  }

  lemma SuffixKeepsRecords(end: seq<seq<byte>>, records: seq<seq<byte>>)
    requires AllRecords(records) && IsSuffix(end, records)
    ensures AllRecords(end)
  {
  }

  /** A client that reads the log from its tail, feeding each page's start back until a page comes back
      empty. On a log of records it reaches the start, and has then read the whole log, exactly when
      the pages have room for the records. */
  method PageFromTail(w: TranscriptWriter, maxBytes: u64) returns (pages: seq<seq<byte>>, stop: nat)
    ensures Walk(pages, stop) == PageBack(w.Plaintext(), |w.Plaintext()|, maxBytes)
    ensures AllRecords(w.Log()) ==> (stop == 0 <==> Pageable(w.Log(), maxBytes))
    ensures AllRecords(w.Log()) && stop == 0 ==> Flatten(Reverse(pages)) == w.Plaintext()
  {
    ghost var all := w.Plaintext();
    pages := [];
    var data, start, total := w.ReadTailBefore(None, maxBytes);
    stop := total;
    while data != []
      invariant stop <= |all| && Page(data, start, |all|) == TailPage(all, Some(stop), maxBytes)
      invariant RestOfWalk(all, pages, stop, maxBytes) == PageBack(all, |all|, maxBytes)
      decreases stop
    {
      NextPage(all, pages, stop, maxBytes);
      pages, stop := pages + [data], start;
      data, start, total := w.ReadTailBefore(Some(stop), maxBytes);
    }
    assert pages + [] == pages;
    if AllRecords(w.Log()) {
      WholeLogPaged(w.Log(), maxBytes);
    }
  }

  ghost function RestOfWalk(all: seq<byte>, pages: seq<seq<byte>>, stop: nat, max: nat): Walk
    requires stop <= |all|
  {
    Walk(pages + PageBack(all, stop, max).pages, PageBack(all, stop, max).stop)
  }

  lemma NextPage(all: seq<byte>, pages: seq<seq<byte>>, stop: nat, max: nat)
    requires stop <= |all| && TailPage(all, Some(stop), max).data != []
    ensures var page := TailPage(all, Some(stop), max);
      page.start < stop && RestOfWalk(all, pages + [page.data], page.start, max) == RestOfWalk(all, pages, stop, max)
  {
    var page := TailPage(all, Some(stop), max);
    ConcatAssoc(pages, [page.data], PageBack(all, page.start, max).pages);
  }

  // ---------------------------------------------------------------- a range that overflows

  lemma TwoBytesStored()
    ensures AfterAppend([], [65, 66]) == [[65, 66]] && Flatten([[65, 66]]) == [65, 66]
  {
    SizeOne([65, 66]);
    assert [] + [[65, 66]] == [[65, 66]];
    FlattenSnoc([], [65, 66]);
  }

  /** Two bytes of text, read from the second on with the largest length: the read panics. */
  method OverflowExample(cipher: Cipher, nonce: Nonce) returns (r: Slice)
    ensures r == Panic
  {
    var w := new TranscriptWriter(cipher, [], Intact);
    EmptyFile(cipher);
    w.Append([65, 66], nonce);
    TwoBytesStored();
    assert w.Plaintext() == [65, 66];
    r := w.ReadRange(1, U64 - 1);
  }
}
