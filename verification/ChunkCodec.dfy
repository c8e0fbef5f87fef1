/** The transcript file: one length-prefixed record per chunk, each a nonce and a sealed payload. */
module ChunkCodec {
  import opened Bytes
  import opened Aead
  import opened LengthPrefixed

  const LEN_PREFIX: nat := 4
  const CHUNK_OVERHEAD: nat := LEN_PREFIX + NONCE_SIZE + TAG_SIZE
  const MIN_BODY: nat := NONCE_SIZE + TAG_SIZE

  function ChunkBody(cipher: Cipher, nonce: Nonce, payload: seq<byte>): (body: seq<byte>)
    ensures |body| == |payload| + MIN_BODY
  {
    nonce + Seal(cipher, nonce, payload)
  }

  /** What one successful `append` writes. */
  function EncodeChunk(cipher: Cipher, nonce: Nonce, payload: seq<byte>): (chunk: seq<byte>)
    ensures |chunk| == |payload| + CHUNK_OVERHEAD
  {
    Record(ChunkBody(cipher, nonce, payload))
  }

  function OpenBody(cipher: Cipher, body: seq<byte>): (plain: Option<seq<byte>>)
    requires |body| >= MIN_BODY
  {
    Open(cipher, body[..NONCE_SIZE], body[NONCE_SIZE..])
  }

  /** The payloads of the bodies that authenticate; the others are skipped. */
  function OpenBodies(cipher: Cipher, bodies: seq<seq<byte>>): seq<seq<byte>> {
    if bodies == [] then []
    else
      var rest := OpenBodies(cipher, bodies[1..]);
      if |bodies[0]| >= MIN_BODY && OpenBody(cipher, bodies[0]).Some?
      then [OpenBody(cipher, bodies[0]).value] + rest
      else rest
  }

  /** `read_all_chunks`: every payload that can be recovered from a file, in file order. */
  function DecodeFile(cipher: Cipher, file: seq<byte>): seq<seq<byte>> {
    OpenBodies(cipher, ReadAll(file, MIN_BODY, U32 - 1).bodies)
  }

  function ChunkBodies(cipher: Cipher, nonces: seq<Nonce>, chunks: seq<seq<byte>>): (bodies: seq<seq<byte>>)
    requires |nonces| == |chunks|
    ensures |bodies| == |chunks|
    ensures forall i :: 0 <= i < |chunks| ==> bodies[i] == ChunkBody(cipher, nonces[i], chunks[i])
  {
    seq(|chunks|, i requires 0 <= i < |chunks| => ChunkBody(cipher, nonces[i], chunks[i]))
  }

  /** The file that a series of appends leaves behind. */
  function EncodeFile(cipher: Cipher, nonces: seq<Nonce>, chunks: seq<seq<byte>>): seq<byte>
    requires |nonces| == |chunks|
  {
    Records(ChunkBodies(cipher, nonces, chunks))
  }

  /** A payload whose chunk length the 32-bit prefix can hold. */
  predicate Fits(payload: seq<byte>) {
    |payload| + MIN_BODY < U32
  }

  predicate AllFit(chunks: seq<seq<byte>>) {
    forall i :: 0 <= i < |chunks| ==> Fits(chunks[i])
  }

  /** The file holds exactly `chunks`, each in a chunk of its own, and nothing else. */
  ghost predicate Holds(cipher: Cipher, file: seq<byte>, chunks: seq<seq<byte>>) {
    AllFit(chunks) &&
    exists nonces: seq<Nonce> :: |nonces| == |chunks| && file == EncodeFile(cipher, nonces, chunks)
  }

  function PlainSize(chunks: seq<seq<byte>>): nat {
    |Flatten(chunks)|
  }

  function FileSize(chunks: seq<seq<byte>>): nat {
    PlainSize(chunks) + CHUNK_OVERHEAD * |chunks|
  }

  lemma OpenSealed(cipher: Cipher, nonce: Nonce, payload: seq<byte>)
    ensures OpenBody(cipher, ChunkBody(cipher, nonce, payload)) == Some(payload)
  {
    var body := ChunkBody(cipher, nonce, payload);
    assert body[..NONCE_SIZE] == nonce;
    assert body[NONCE_SIZE..] == Seal(cipher, nonce, payload);
  }

  /** `bodies` are the bodies of `chunks`, except that those marked in `bad` were damaged so that
      they no longer authenticate; their length prefixes are intact. */
  ghost predicate Damaged(cipher: Cipher, bodies: seq<seq<byte>>, nonces: seq<Nonce>,
                          chunks: seq<seq<byte>>, bad: seq<bool>)
  {
    && |bodies| == |nonces| == |chunks| == |bad|
    && forall i :: 0 <= i < |chunks| ==>
         && |bodies[i]| == |chunks[i]| + MIN_BODY
         && (if bad[i] then OpenBody(cipher, bodies[i]).None?
             else bodies[i] == ChunkBody(cipher, nonces[i], chunks[i]))
  }

  function Survivors(chunks: seq<seq<byte>>, bad: seq<bool>): seq<seq<byte>>
    requires |chunks| == |bad|
  {
    if chunks == [] then []
    else (if bad[0] then [] else [chunks[0]]) + Survivors(chunks[1..], bad[1..])
  }

  lemma {:induction false} OpenDamaged(cipher: Cipher, bodies: seq<seq<byte>>, nonces: seq<Nonce>,
                                       chunks: seq<seq<byte>>, bad: seq<bool>)
    requires Damaged(cipher, bodies, nonces, chunks, bad)
    ensures OpenBodies(cipher, bodies) == Survivors(chunks, bad)
  {
    if bodies != [] {
      OpenSealed(cipher, nonces[0], chunks[0]);
      OpenDamaged(cipher, bodies[1..], nonces[1..], chunks[1..], bad[1..]);
    }
  }

  /** Chunks whose bodies fail authentication are skipped; all the others are read, in order. */
  lemma CorruptBodies(cipher: Cipher, bodies: seq<seq<byte>>, nonces: seq<Nonce>,
                      chunks: seq<seq<byte>>, bad: seq<bool>)
    requires AllFit(chunks)
    requires Damaged(cipher, bodies, nonces, chunks, bad)
    ensures DecodeFile(cipher, Records(bodies)) == Survivors(chunks, bad)
  {
    assert Acceptable(bodies, MIN_BODY, U32 - 1) by {
      assert forall i :: 0 <= i < |chunks| ==> Fits(chunks[i]);
    }
    ReadRecords(bodies, MIN_BODY, U32 - 1);
    OpenDamaged(cipher, bodies, nonces, chunks, bad);
  }

  lemma {:induction false} NothingDamaged(chunks: seq<seq<byte>>)
    ensures Survivors(chunks, seq(|chunks|, _ => false)) == chunks
  {
    if chunks != [] {
      assert seq(|chunks|, _ => false)[1..] == seq(|chunks| - 1, _ => false);
      NothingDamaged(chunks[1..]);
    }
  }

  lemma OpenEncoded(cipher: Cipher, nonces: seq<Nonce>, chunks: seq<seq<byte>>)
    requires |nonces| == |chunks|
    ensures OpenBodies(cipher, ChunkBodies(cipher, nonces, chunks)) == chunks
  {
    OpenDamaged(cipher, ChunkBodies(cipher, nonces, chunks), nonces, chunks, seq(|chunks|, _ => false));
    NothingDamaged(chunks);
  }

  /** Whatever follows the chunks of a clean file, if it does not start with a complete chunk of at
      least 28 bytes, hides nothing before it and adds nothing. */
  lemma GarbageTail(cipher: Cipher, file: seq<byte>, chunks: seq<seq<byte>>, tail: seq<byte>)
    requires Holds(cipher, file, chunks)
    requires |tail| < 4 || WordAt(tail, 0) < 28 || |tail| < 4 + WordAt(tail, 0)
    ensures DecodeFile(cipher, file + tail) == chunks
  {
    var nonces: seq<Nonce> :| |nonces| == |chunks| && file == EncodeFile(cipher, nonces, chunks);
    BodiesAcceptable(cipher, nonces, chunks);
    StopsAt(ChunkBodies(cipher, nonces, chunks), tail, MIN_BODY, U32 - 1);
    OpenEncoded(cipher, nonces, chunks);
  }

  lemma BodyParts(nonce: Nonce, sealed: seq<byte>, chunk: seq<byte>)
    requires |chunk| >= 4 && chunk[4..] == nonce + sealed
    ensures |chunk| == 4 + 12 + |sealed| && chunk[4..16] == nonce && chunk[16..] == sealed
  {
    assert chunk[4..16] == chunk[4..][..12] && chunk[16..] == chunk[4..][12..];
  }

  /** The bytes of a chunk: its length in four bytes, most significant first, the nonce, the sealed
      payload with its tag. */
  lemma ChunkBytes(cipher: Cipher, nonce: Nonce, payload: seq<byte>)
    requires Fits(payload)
    ensures var chunk := EncodeChunk(cipher, nonce, payload);
      && |chunk| == 4 + 12 + |payload| + 16 && WordAt(chunk, 0) == 12 + |payload| + 16
      && chunk[4..16] == nonce && chunk[16..] == cipher.encrypt(nonce, payload)
  {
    var body := ChunkBody(cipher, nonce, payload);
    WordAtWritten([], |body|, body);
    assert [] + BigEndian(|body|) + body == Record(body);
    assert Record(body)[4..] == body;
    BodyParts(nonce, Seal(cipher, nonce, payload), Record(body));
  }

  /** Reading returns what was written. */
  lemma FileRoundTrip(cipher: Cipher, file: seq<byte>, chunks: seq<seq<byte>>)
    requires Holds(cipher, file, chunks)
    ensures DecodeFile(cipher, file) == chunks
  {
    var nonces: seq<Nonce> :| |nonces| == |chunks| && file == EncodeFile(cipher, nonces, chunks);
    var bodies := ChunkBodies(cipher, nonces, chunks);
    CorruptBodies(cipher, bodies, nonces, chunks, seq(|chunks|, _ => false));
    NothingDamaged(chunks);
  }

  lemma {:induction false} EncodedSize(cipher: Cipher, nonces: seq<Nonce>, chunks: seq<seq<byte>>)
    requires |nonces| == |chunks|
    ensures |EncodeFile(cipher, nonces, chunks)| == FileSize(chunks)
  {
    if chunks != [] {
      assert ChunkBodies(cipher, nonces, chunks)[1..] == ChunkBodies(cipher, nonces[1..], chunks[1..]);
      EncodedSize(cipher, nonces[1..], chunks[1..]);
    }
  }

  lemma HeldSize(cipher: Cipher, file: seq<byte>, chunks: seq<seq<byte>>)
    requires Holds(cipher, file, chunks)
    ensures |file| == FileSize(chunks)
  {
    var nonces: seq<Nonce> :| |nonces| == |chunks| && file == EncodeFile(cipher, nonces, chunks);
    EncodedSize(cipher, nonces, chunks);
  }

  lemma BodiesAcceptable(cipher: Cipher, nonces: seq<Nonce>, chunks: seq<seq<byte>>)
    requires |nonces| == |chunks| && AllFit(chunks)
    ensures Acceptable(ChunkBodies(cipher, nonces, chunks), MIN_BODY, U32 - 1)
  {
    assert forall i :: 0 <= i < |chunks| ==> Fits(chunks[i]);
  }

  /** Cutting the file at any byte `k`, as a crash in the middle of a write does, loses exactly the
      chunks that do not lie wholly before the cut. */
  lemma TornFile(cipher: Cipher, file: seq<byte>, chunks: seq<seq<byte>>, k: nat) returns (n: nat)
    requires Holds(cipher, file, chunks)
    requires k <= |file|
    ensures n <= |chunks|
    ensures DecodeFile(cipher, file[..k]) == chunks[..n]
    ensures FileSize(chunks[..n]) <= k
    ensures n < |chunks| ==> k < FileSize(chunks[..n + 1])
  {
    var nonces: seq<Nonce> :| |nonces| == |chunks| && file == EncodeFile(cipher, nonces, chunks);
    var bodies := ChunkBodies(cipher, nonces, chunks);
    BodiesAcceptable(cipher, nonces, chunks);
    CutStream(bodies, k, MIN_BODY, U32 - 1);
    WholeRecordsFit(bodies, k);
    n := WholeRecords(bodies, k);
    BodiesTake(cipher, nonces, chunks, n);
    OpenEncoded(cipher, nonces[..n], chunks[..n]);
    if n < |chunks| {
      BodiesTake(cipher, nonces, chunks, n + 1);
    }
  }

  lemma BodiesTake(cipher: Cipher, nonces: seq<Nonce>, chunks: seq<seq<byte>>, n: nat)
    requires |nonces| == |chunks| && n <= |chunks|
    ensures ChunkBodies(cipher, nonces, chunks)[..n] == ChunkBodies(cipher, nonces[..n], chunks[..n])
    ensures |Records(ChunkBodies(cipher, nonces, chunks)[..n])| == FileSize(chunks[..n])
  {
    EncodedSize(cipher, nonces[..n], chunks[..n]);
  }

  lemma EncodeSnoc(cipher: Cipher, nonces: seq<Nonce>, chunks: seq<seq<byte>>, nonce: Nonce, payload: seq<byte>)
    requires |nonces| == |chunks|
    ensures EncodeFile(cipher, nonces + [nonce], chunks + [payload])
         == EncodeFile(cipher, nonces, chunks) + EncodeChunk(cipher, nonce, payload)
  {
    var last := [ChunkBody(cipher, nonce, payload)];
    assert ChunkBodies(cipher, nonces + [nonce], chunks + [payload])
        == ChunkBodies(cipher, nonces, chunks) + last;
    RecordsConcat(ChunkBodies(cipher, nonces, chunks), last);
    assert Records(last) == Record(last[0]) + Records([]);
  }

  lemma HoldsSnoc(cipher: Cipher, file: seq<byte>, chunks: seq<seq<byte>>, nonce: Nonce, payload: seq<byte>)
    requires Holds(cipher, file, chunks)
    requires Fits(payload)
    ensures Holds(cipher, file + EncodeChunk(cipher, nonce, payload), chunks + [payload])
  {
    var nonces: seq<Nonce> :| |nonces| == |chunks| && file == EncodeFile(cipher, nonces, chunks);
    EncodeSnoc(cipher, nonces, chunks, nonce, payload);
    var nonces' := nonces + [nonce];
    assert |nonces'| == |chunks + [payload]|;
  }

  lemma {:induction false} OpenedFit(cipher: Cipher, bodies: seq<seq<byte>>)
    requires forall b :: b in bodies ==> |b| < U32
    ensures AllFit(OpenBodies(cipher, bodies))
  {
    if bodies != [] {
      assert |bodies[0]| < U32;
      OpenedFit(cipher, bodies[1..]);
    }
  }

  /** Whatever a file contains, the payloads read from it can be written again. */
  lemma DecodedFit(cipher: Cipher, file: seq<byte>)
    ensures AllFit(DecodeFile(cipher, file))
  {
    ReadWithinLimits(file, MIN_BODY, U32 - 1);
    OpenedFit(cipher, ReadAll(file, MIN_BODY, U32 - 1).bodies);
  }

  /** One turn of the reading loop. */
  lemma DecodeStep(cipher: Cipher, stream: seq<byte>)
    ensures match Next(stream, MIN_BODY, U32 - 1)
      case Body(body, rest) =>
        var plain := OpenBody(cipher, body);
        DecodeFile(cipher, stream) == (if plain.Some? then [plain.value] else []) + DecodeFile(cipher, rest)
      case _ => DecodeFile(cipher, stream) == []
  {
    var item := Next(stream, MIN_BODY, U32 - 1);
    if item.Body? {
      var bodies := ReadAll(stream, MIN_BODY, U32 - 1).bodies;
      assert bodies[1..] == ReadAll(item.rest, MIN_BODY, U32 - 1).bodies;
    }
  }

  /** One chunk reads back as the payload exactly when its length fits the prefix; a payload too
      long for it comes back as something else or not at all. */
  lemma ChunkRoundTripIff(cipher: Cipher, nonce: Nonce, payload: seq<byte>)
    ensures DecodeFile(cipher, EncodeChunk(cipher, nonce, payload)) == [payload]
       <==> Fits(payload)
  {
    var body := ChunkBody(cipher, nonce, payload);
    var lo, hi := MIN_BODY, U32 - 1;
    var read := ReadAll(Record(body), lo, hi).bodies;
    if |body| <= hi {
      ReadBackIff(body, lo, hi);
      OpenSealed(cipher, nonce, payload);
      var one: seq<seq<byte>> := [body];
      assert one[1..] == [];
      assert OpenBodies(cipher, one) == [payload] + OpenBodies(cipher, []);
      assert read == one;
    } else if OpenBodies(cipher, read) == [payload] {
      SomeBodyOpensTo(cipher, read, payload);
      ReadWithinLimits(Record(body), lo, hi);
    }
  }

  lemma {:induction false} SomeBodyOpensTo(cipher: Cipher, bodies: seq<seq<byte>>, payload: seq<byte>)
    requires payload in OpenBodies(cipher, bodies)
    ensures exists i :: 0 <= i < |bodies| && |bodies[i]| == |payload| + MIN_BODY
  {
    if |bodies[0]| >= MIN_BODY && OpenBody(cipher, bodies[0]) == Some(payload) {
      assert |bodies[0]| == |payload| + MIN_BODY;
    } else {
      SomeBodyOpensTo(cipher, bodies[1..], payload);
      var i :| 0 <= i < |bodies[1..]| && |bodies[1..][i]| == |payload| + MIN_BODY;
      assert |bodies[i + 1]| == |payload| + MIN_BODY;
    }
  }
}
