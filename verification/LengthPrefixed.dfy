/** Streams of records, each preceded by its length as a big-endian 32-bit word.
    Both the transcript file and the wire protocol are such streams; they differ
    only in the lengths they accept. */
module LengthPrefixed {
  import opened Bytes

  /** A record as written. The length is cut to 32 bits the way `as u32` cuts it. */
  function Record(body: seq<byte>): (r: seq<byte>)
    ensures |r| == 4 + |body|
  {
    BigEndian(|body| % U32) + body
  }

  function Records(bodies: seq<seq<byte>>): seq<byte> {
    if bodies == [] then [] else Record(bodies[0]) + Records(bodies[1..])
  }

  datatype Item =
    | Body(body: seq<byte>, rest: seq<byte>)
    | Eof        // fewer than four bytes left
    | BadLength  // the length is outside the accepted range
    | Torn       // the stream ends inside the body

  /** One `read_exact` of the length, the range test, one `read_exact` of the body. */
  function Next(stream: seq<byte>, lo: nat, hi: nat): (item: Item)
    ensures item.Body? ==> |item.rest| == |stream| - 4 - |item.body|
  {
    if |stream| < 4 then Eof
    else
      var len := FromBigEndian(stream[..4]);
      if len < lo || len > hi then BadLength
      else if |stream| - 4 < len then Torn
      else Body(stream[4..4 + len], stream[4 + len..])
  }

  datatype Reading = Reading(bodies: seq<seq<byte>>, stop: Item)

  /** Every record up to the first that cannot be read, and what stopped the reading. */
  function ReadAll(stream: seq<byte>, lo: nat, hi: nat): Reading
    decreases |stream|
  {
    var item := Next(stream, lo, hi);
    if item.Body? then
      var tail := ReadAll(item.rest, lo, hi);
      Reading([item.body] + tail.bodies, tail.stop)
    else Reading([], item)
  }

  ghost predicate Acceptable(bodies: seq<seq<byte>>, lo: nat, hi: nat) {
    hi < U32 && forall i :: 0 <= i < |bodies| ==> lo <= |bodies[i]| <= hi
  }

  lemma NextWithinLimits(stream: seq<byte>, lo: nat, hi: nat)
    ensures Next(stream, lo, hi).Body? ==> lo <= |Next(stream, lo, hi).body| <= hi
  {
  }

  lemma {:induction false} ReadWithinLimits(stream: seq<byte>, lo: nat, hi: nat)
    ensures forall b :: b in ReadAll(stream, lo, hi).bodies ==> lo <= |b| <= hi
    decreases |stream|
  {
    var item := Next(stream, lo, hi);
    if item.Body? {
      ReadWithinLimits(item.rest, lo, hi);
    }
  }

  lemma FirstWord(word: seq<byte>, body: seq<byte>, tail: seq<byte>)
    requires |word| == 4
    ensures (word + body + tail)[..4] == word
  {
  }

  lemma LengthOfRecord(body: seq<byte>, tail: seq<byte>)
    requires |body| < U32
    ensures FromBigEndian((Record(body) + tail)[..4]) == |body|
  {
    var len := |body|;
    BigEndianRoundTrip(len);
    var word := BigEndian(len);
    FirstWord(word, body, tail);
    assert Record(body) == word + body;
  }

  lemma PartsOfRecord(body: seq<byte>, tail: seq<byte>)
    ensures (Record(body) + tail)[4..4 + |body|] == body
    ensures (Record(body) + tail)[4 + |body|..] == tail
  {
  }

  lemma NextOfRecord(body: seq<byte>, tail: seq<byte>, lo: nat, hi: nat)
    requires lo <= |body| <= hi < U32
    ensures Next(Record(body) + tail, lo, hi) == Body(body, tail)
  {
    LengthOfRecord(body, tail);
    PartsOfRecord(body, tail);
  }

  lemma ReadAllCons(body: seq<byte>, tail: seq<byte>, lo: nat, hi: nat)
    requires lo <= |body| <= hi < U32
    ensures ReadAll(Record(body) + tail, lo, hi)
         == Reading([body] + ReadAll(tail, lo, hi).bodies, ReadAll(tail, lo, hi).stop)
  {
    NextOfRecord(body, tail, lo, hi);
  }

  /** Written records are read back in order, and reading then goes on with what follows them. */
  lemma {:induction false} ReadBack(bodies: seq<seq<byte>>, tail: seq<byte>, lo: nat, hi: nat)
    requires Acceptable(bodies, lo, hi)
    ensures ReadAll(Records(bodies) + tail, lo, hi)
         == Reading(bodies + ReadAll(tail, lo, hi).bodies, ReadAll(tail, lo, hi).stop)
  {
    if bodies == [] {
      assert Records(bodies) + tail == tail;
    } else {
      var more := Records(bodies[1..]) + tail;
      ConcatAssoc(Record(bodies[0]), Records(bodies[1..]), tail);
      ReadAllCons(bodies[0], more, lo, hi);
      ReadBack(bodies[1..], tail, lo, hi);
      ConsConcat(bodies, ReadAll(tail, lo, hi).bodies);
    }
  }

  /** Reading stops where there is no complete record with a length in the accepted range, and has then
      read everything before that place. */
  lemma StopsAt(bodies: seq<seq<byte>>, tail: seq<byte>, lo: nat, hi: nat)
    requires Acceptable(bodies, lo, hi)
    requires |tail| < 4 || WordAt(tail, 0) < lo || WordAt(tail, 0) > hi || |tail| < 4 + WordAt(tail, 0)
    ensures ReadAll(Records(bodies) + tail, lo, hi).bodies == bodies
  {
    if |tail| >= 4 {
      WordAtReads(tail, 0);
      assert tail[..4] == tail[0..4];
    }
    ReadBack(bodies, tail, lo, hi);
    assert bodies + [] == bodies;
  }

  lemma ReadRecords(bodies: seq<seq<byte>>, lo: nat, hi: nat)
    requires Acceptable(bodies, lo, hi)
    ensures ReadAll(Records(bodies), lo, hi) == Reading(bodies, Eof)
  {
    ReadBack(bodies, [], lo, hi);
    assert Records(bodies) + [] == Records(bodies);
  }

  /** A record comes back exactly when its length is within the accepted range:
      a longer one, whose length is cut to 32 bits, is never mistaken for itself. */
  lemma ReadBackIff(body: seq<byte>, lo: nat, hi: nat)
    requires hi < U32
    ensures ReadAll(Record(body), lo, hi).bodies == [body] <==> lo <= |body| <= hi
  {
    assert Record(body) + [] == Record(body);
    assert Record(body)[..4] == BigEndian(|body| % U32);
    BigEndianRoundTrip(|body| % U32);
    if lo <= |body| <= hi {
      ReadAllCons(body, [], lo, hi);
      assert ReadAll([], lo, hi).bodies == [];
    } else if Next(Record(body), lo, hi).Body? {
      assert |ReadAll(Record(body), lo, hi).bodies[0]| < |body|;
    }
  }

  lemma {:induction false} RecordsConcat(a: seq<seq<byte>>, b: seq<seq<byte>>)
    ensures Records(a + b) == Records(a) + Records(b)
  {
    if a == [] {
      assert a + b == b;
    } else {
      assert (a + b)[1..] == a[1..] + b;
      RecordsConcat(a[1..], b);
    }
  }

  lemma TakeCons(bodies: seq<seq<byte>>, m: nat)
    requires m < |bodies|
    ensures bodies[..m + 1] == [bodies[0]] + bodies[1..][..m]
    ensures |Records(bodies[..m + 1])| == 4 + |bodies[0]| + |Records(bodies[1..][..m])|
  {
    assert bodies[..m + 1][1..] == bodies[1..][..m];
  }

  lemma LengthOfCut(body: seq<byte>, k: nat)
    requires |body| < U32 && 4 <= k <= 4 + |body|
    ensures FromBigEndian(Record(body)[..k][..4]) == |body|
  {
    BigEndianRoundTrip(|body|);
    assert Record(body)[..k][..4] == BigEndian(|body|);
  }

  /** A cut inside the first record leaves nothing to read. */
  lemma CutFirst(body: seq<byte>, k: nat, lo: nat, hi: nat)
    requires lo <= |body| <= hi < U32
    requires k < 4 + |body|
    ensures Next(Record(body)[..k], lo, hi) == if k < 4 then Eof else Torn
  {
    if k >= 4 {
      LengthOfCut(body, k);
    }
  }

  /** How many of the records lie wholly in the first `k` bytes. */
  function WholeRecords(bodies: seq<seq<byte>>, k: nat): (n: nat)
    ensures n <= |bodies|
  {
    if bodies == [] || k < 4 + |bodies[0]| then 0
    else 1 + WholeRecords(bodies[1..], k - 4 - |bodies[0]|)
  }

  lemma {:induction false} WholeRecordsFit(bodies: seq<seq<byte>>, k: nat)
    ensures |Records(bodies[..WholeRecords(bodies, k)])| <= k
    ensures WholeRecords(bodies, k) < |bodies| ==> k < |Records(bodies[..WholeRecords(bodies, k) + 1])|
    decreases |bodies|
  {
    if bodies != [] {
      TakeCons(bodies, 0);
      if k >= 4 + |bodies[0]| {
        var m := WholeRecords(bodies[1..], k - 4 - |bodies[0]|);
        WholeRecordsFit(bodies[1..], k - 4 - |bodies[0]|);
        TakeCons(bodies, m);
        if m + 1 < |bodies| {
          TakeCons(bodies, m + 1);
        }
      }
    }
  }

  lemma CutBytes(bodies: seq<seq<byte>>, j: nat)
    requires bodies != [] && j <= |Records(bodies[1..])|
    ensures Records(bodies)[..4 + |bodies[0]| + j] == Record(bodies[0]) + Records(bodies[1..])[..j]
  {
    TakeConcat(Record(bodies[0]), Records(bodies[1..]), j);
  }

  /** A cut behind the first record leaves that record readable. */
  lemma CutLater(bodies: seq<seq<byte>>, j: nat, lo: nat, hi: nat)
    requires bodies != [] && lo <= |bodies[0]| <= hi < U32
    requires j <= |Records(bodies[1..])|
    ensures ReadAll(Records(bodies)[..4 + |bodies[0]| + j], lo, hi)
         == var later := ReadAll(Records(bodies[1..])[..j], lo, hi);
            Reading([bodies[0]] + later.bodies, later.stop)
  {
    CutBytes(bodies, j);
    ReadAllCons(bodies[0], Records(bodies[1..])[..j], lo, hi);
  }

  /** A stream cut at any byte `k` yields exactly the records that lie wholly before the cut, and
      the reader sees the cut as an end of stream or as a torn body, never as a bad length. */
  lemma {:induction false} CutStream(bodies: seq<seq<byte>>, k: nat, lo: nat, hi: nat)
    requires Acceptable(bodies, lo, hi)
    requires k <= |Records(bodies)|
    ensures ReadAll(Records(bodies)[..k], lo, hi).bodies == bodies[..WholeRecords(bodies, k)]
    ensures ReadAll(Records(bodies)[..k], lo, hi).stop in {Eof, Torn}
    decreases |bodies|
  {
    if bodies == [] {
    } else if k < 4 + |bodies[0]| {
      CutFirst(bodies[0], k, lo, hi);
      TakeHead(Record(bodies[0]), Records(bodies[1..]), k);
    } else {
      var j := k - 4 - |bodies[0]|;
      CutStream(bodies[1..], j, lo, hi);
      CutLater(bodies, j, lo, hi);
      TakeCons(bodies, WholeRecords(bodies[1..], j));
    }
  }
}
