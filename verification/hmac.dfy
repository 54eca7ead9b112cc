/** How HMAC uses its key. A key no longer than the hash's block is padded with zero
    bytes to a full block before use, so keys that differ only by trailing zero bytes
    produce the same signatures. */
module Hmac {
  import Utf8

  /** The block size, in bytes, of the hash behind an HMAC algorithm: 64 for SHA-256,
      128 for SHA-384 and SHA-512. */
  function BlockBytes(algorithm: string): nat {
    if algorithm == "HS256" then 64 else 128
  }

  /** The smallest key the token library's symmetric signature provider accepts, for
      signing and for verifying, in every version: 128 bits. */
  const MinKeyBytes := 16

  function Zeros(n: nat): seq<Utf8.Byte> {
    seq(n, _ => 0)
  }

  /** The key block HMAC works with. A key longer than the block is first replaced by
      its hash; the model keeps such a key as it is. */
  function BlockKey(block: nat, k: seq<Utf8.Byte>): (b: seq<Utf8.Byte>)
    ensures |k| <= block ==> |b| == block
    ensures |k| <= |b| && b[..|k|] == k
  {
    if |k| <= block then k + Zeros(block - |k|) else k
  }

  /** Two keys give the same signatures under `algorithm`. */
  predicate SignAlike(algorithm: string, a: seq<Utf8.Byte>, b: seq<Utf8.Byte>) {
    BlockKey(BlockBytes(algorithm), a) == BlockKey(BlockBytes(algorithm), b)
  }

  /** Two keys share their key block exactly when they are equal, or both fit in the
      block and the longer one is the shorter followed by zero bytes. */
  lemma SameBlockKey(block: nat, a: seq<Utf8.Byte>, b: seq<Utf8.Byte>)
    requires |a| <= |b|
    ensures BlockKey(block, a) == BlockKey(block, b)
            <==> a == b || (|b| <= block && b[..|a|] == a && forall i :: |a| <= i < |b| ==> b[i] == 0)
  {
    var ka, kb := BlockKey(block, a), BlockKey(block, b);
    if ka == kb && a != b {
      assert b[..|a|] == kb[..|a|] == ka[..|a|] == a;
      forall i | |a| <= i < |b|
        ensures b[i] == 0
      {
        assert kb[i] == b[i];
        assert ka[i] == Zeros(block - |a|)[i - |a|];
      }
    }
    if a != b && |b| <= block && b[..|a|] == a && (forall i :: |a| <= i < |b| ==> b[i] == 0) {
      forall i | 0 <= i < block
        ensures ka[i] == kb[i]
      {
        if i < |a| {
          assert ka[i] == a[i] == b[..|a|][i] == kb[i];
        } else if i < |b| {
          assert ka[i] == 0 == kb[i];
        }
      }
    }
  }

  /** Appending zero bytes to a key that still fits in the block leaves its signatures unchanged. */
  lemma ZeroPaddedKeySignsAlike(algorithm: string, k: seq<Utf8.Byte>, n: nat)
    requires |k| + n <= BlockBytes(algorithm)
    ensures SignAlike(algorithm, k + Zeros(n), k)
  {
    var padded := k + Zeros(n);
    assert padded[..|k|] == k;
    SameBlockKey(BlockBytes(algorithm), k, padded);
  }
}
