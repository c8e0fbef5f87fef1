/** Bytes, big-endian words and flattened lists: the vocabulary shared by every component. */
module Bytes {

  type byte = x: int | 0 <= x < 256

  const U32: nat := 0x1_0000_0000
  const U64: nat := 0x1_0000_0000_0000_0000

  const NEWLINE: byte := 10

  datatype Option<+T> = None | Some(value: T)

  /** `u32::to_be_bytes`. */
  function BigEndian(v: nat): (b: seq<byte>)
    requires v < U32
    ensures |b| == 4
  {
    [v / 0x100_0000, v / 0x1_0000 % 256, v / 256 % 256, v % 256]
  }

  /** `u32::from_be_bytes`. */
  function FromBigEndian(b: seq<byte>): (v: nat)
    requires |b| == 4
    ensures v < U32
  {
    b[0] as int * 0x100_0000 + b[1] as int * 0x1_0000 + b[2] as int * 256 + b[3] as int
  }

  lemma BigEndianRoundTrip(v: nat)
    requires v < U32
    ensures FromBigEndian(BigEndian(v)) == v
  {
    assert v == 0x100_0000 * (v / 0x100_0000) + v % 0x100_0000;
    assert v / 0x1_0000 == 256 * (v / 0x100_0000) + v / 0x1_0000 % 256;
    assert v / 256 == 256 * (v / 0x1_0000) + v / 256 % 256;
  }

  /** The word at position `i`, most significant byte first. */
  function WordAt(s: seq<byte>, i: nat): nat
    requires i + 4 <= |s|
  {
    s[i] as int * 0x100_0000 + s[i + 1] as int * 0x1_0000 + s[i + 2] as int * 0x100 + s[i + 3] as int
  }

  lemma WordAtReads(s: seq<byte>, i: nat)
    requires i + 4 <= |s|
    ensures FromBigEndian(s[i..i + 4]) == WordAt(s, i)
  {
  }

  lemma WordAtWritten(a: seq<byte>, v: nat, b: seq<byte>)
    requires v < U32
    ensures WordAt(a + BigEndian(v) + b, |a|) == v
  {
    BigEndianRoundTrip(v);
    var s := a + BigEndian(v) + b;
    assert s[|a|..|a| + 4] == BigEndian(v);
    WordAtReads(s, |a|);
  }

  function Min(a: nat, b: nat): nat { if a <= b then a else b }

  lemma HeadTail<T>(s: seq<T>)
    requires s != []
    ensures s == [s[0]] + s[1..]
  {
  }

  lemma ConsConcat<T>(s: seq<T>, t: seq<T>)
    requires s != []
    ensures s + t == [s[0]] + (s[1..] + t)
  {
  }

  lemma ConcatAssoc<T>(a: seq<T>, b: seq<T>, c: seq<T>)
    ensures (a + b) + c == a + (b + c)
  {
  }

  lemma TakeConcat<T>(a: seq<T>, b: seq<T>, k: nat)
    requires k <= |b|
    ensures (a + b)[..|a| + k] == a + b[..k]
  {
  }

  lemma TakeHead<T>(a: seq<T>, b: seq<T>, k: nat)
    requires k <= |a|
    ensures (a + b)[..k] == a[..k]
  {
  }

  lemma TakeSnoc<T>(s: seq<T>, i: nat)
    requires i < |s|
    ensures s[..i + 1] == s[..i] + [s[i]]
  {
  }

  lemma InitConcat<T>(a: seq<T>, b: seq<T>)
    requires b != []
    ensures (a + b)[..|a + b| - 1] == a + b[..|b| - 1]
    ensures (a + b)[|a + b| - 1] == b[|b| - 1]
  {
  }

  lemma TakeDrop<T>(s: seq<T>, i: nat)
    requires i <= |s|
    ensures s == s[..i] + s[i..]
  {
  }

  lemma TakeTake<T>(s: seq<T>, n: nat, i: nat)
    requires i <= n <= |s|
    ensures s[..n][..i] == s[..i]
  {
  }

  lemma DropLast<T>(s: seq<T>, i: nat)
    requires i < |s|
    ensures s[i..] == s[..|s| - 1][i..] + [s[|s| - 1]]
  {
  }

  lemma TakeAll<T>(s: seq<T>)
    ensures s[..|s|] == s && s[0..] == s
  {
  }

  function Flatten<T>(ss: seq<seq<T>>): seq<T> {
    if ss == [] then [] else ss[0] + Flatten(ss[1..])
  }

  lemma {:induction false} FlattenConcat<T>(a: seq<seq<T>>, b: seq<seq<T>>)
    ensures Flatten(a + b) == Flatten(a) + Flatten(b)
  {
    if a == [] {
      assert a + b == b;
    } else {
      assert (a + b)[1..] == a[1..] + b;
      FlattenConcat(a[1..], b);
    }
  }

  lemma FlattenSnoc<T>(a: seq<seq<T>>, x: seq<T>)
    ensures Flatten(a + [x]) == Flatten(a) + x
  {
    FlattenConcat(a, [x]);
    assert Flatten([x]) == x + Flatten<T>([]);
  }

  lemma FlattenSplit<T>(a: seq<seq<T>>, k: nat)
    requires k <= |a|
    ensures Flatten(a) == Flatten(a[..k]) + Flatten(a[k..])
  {
    TakeDrop(a, k);
    FlattenConcat(a[..k], a[k..]);
  }

  lemma FlattenLast<T>(a: seq<seq<T>>)
    requires a != []
    ensures Flatten(a) == Flatten(a[..|a| - 1]) + a[|a| - 1]
  {
    assert a == a[..|a| - 1] + [a[|a| - 1]];
    FlattenSnoc(a[..|a| - 1], a[|a| - 1]);
  }

  function Reverse<T>(s: seq<T>): seq<T> {
    if s == [] then [] else Reverse(s[1..]) + [s[0]]
  }

  /** `t` is the end of `s`. */
  ghost predicate IsSuffix<T>(t: seq<T>, s: seq<T>) {
    |t| <= |s| && t == s[|s| - |t|..]
  }

  lemma FlattenSuffix<T>(t: seq<seq<T>>, s: seq<seq<T>>)
    requires IsSuffix(t, s)
    ensures IsSuffix(Flatten(t), Flatten(s))
  {
    FlattenSplit(s, |s| - |t|);
    ConcatSuffix(Flatten(s[..|s| - |t|]), Flatten(t));
  }

  lemma ConcatSuffix<T>(a: seq<T>, b: seq<T>)
    ensures IsSuffix(b, a + b)
  {
  }

  /** The last `n` elements, or all of them when there are fewer. */
  function LastN<T>(s: seq<T>, n: nat): (r: seq<T>)
    ensures |r| == Min(|s|, n) && IsSuffix(r, s)
  {
    if |s| <= n then s else s[|s| - n..]
  }

  ghost predicate StrictlyIncreasing(s: seq<nat>) {
    forall i, j :: 0 <= i < j < |s| ==> s[i] < s[j]
  }
}
