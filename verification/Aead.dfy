/** ChaCha20-Poly1305 seen from outside (section 2.8 of RFC 8439): sealing adds a 16-byte tag,
    opening inverts sealing, and nothing else opens. The key is part of the cipher value. */
module Aead {
  import opened Bytes

  const NONCE_SIZE: nat := 12
  const TAG_SIZE: nat := 16

  type Nonce = n: seq<byte> | |n| == 12 witness seq(12, _ => 0)

  datatype Functions = Functions(
    encrypt: (Nonce, seq<byte>) -> seq<byte>,
    decrypt: (Nonce, seq<byte>) -> Option<seq<byte>>)

  ghost predicate Lawful(f: Functions) {
    && (forall n: Nonce, p: seq<byte> ::
          |f.encrypt(n, p)| == |p| + TAG_SIZE && f.decrypt(n, f.encrypt(n, p)) == Some(p))
    && (forall n: Nonce, c: seq<byte> ::
          f.decrypt(n, c).Some? ==> f.encrypt(n, f.decrypt(n, c).value) == c)
  }

  /** Any cipher that keeps those laws. */
  type Cipher = f: Functions | Lawful(f) ghost witness (TaggingIsLawful(); Tagging())

  function Seal(cipher: Cipher, n: Nonce, plain: seq<byte>): (sealed: seq<byte>)
    ensures |sealed| == |plain| + TAG_SIZE
    ensures cipher.decrypt(n, sealed) == Some(plain)
  {
    cipher.encrypt(n, plain)
  }

  function Open(cipher: Cipher, n: Nonce, sealed: seq<byte>): (plain: Option<seq<byte>>)
    ensures plain.Some? ==> |sealed| == |plain.value| + TAG_SIZE
    ensures plain.Some? ==> Seal(cipher, n, plain.value) == sealed
  {
    cipher.decrypt(n, sealed)
  }

  /** The laws are not contradictory: appending a constant tag satisfies them. */
  const ZERO_TAG: seq<byte> := seq(16, _ => 0)

  function Tagging(): Functions {
    Functions(
      (n: Nonce, p: seq<byte>) => p + ZERO_TAG,
      (n: Nonce, c: seq<byte>) =>
        if |c| >= 16 && c[|c| - 16..] == ZERO_TAG then Some(c[..|c| - 16]) else None)
  }

  lemma TaggingIsLawful()
    ensures Lawful(Tagging())
  {
    var f := Tagging();
    forall n: Nonce, p: seq<byte>
      ensures |f.encrypt(n, p)| == |p| + TAG_SIZE && f.decrypt(n, f.encrypt(n, p)) == Some(p)
    {
      assert (p + ZERO_TAG)[|p|..] == ZERO_TAG;
      assert (p + ZERO_TAG)[..|p|] == p;
    }
    forall n: Nonce, c: seq<byte> | f.decrypt(n, c).Some?
      ensures f.encrypt(n, f.decrypt(n, c).value) == c
    {
      assert c == c[..|c| - 16] + c[|c| - 16..];
    }
  }
}
