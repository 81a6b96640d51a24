/**
 * The 32-bit FNV-1a hash used to cache string hashes (src/object.c, `fnv_1a`).
 * `Hash` is the left fold of `Mix` over the bytes; `Fnv1a` is the loop that computes it.
 */
module Fnv {
  import opened Value

  /** FNV offset basis and FNV prime for 32-bit hashes. */
  const OffsetBasis: bv32 := 2166136261
  const Prime: bv32 := 16777619

  /** One round: XOR the byte in, then multiply by the prime modulo 2^32. */
  function Mix(hash: bv32, b: Byte): bv32
  {
    (hash ^ (b as bv32)) * Prime
  }

  /** Folds `Mix` over `s`, starting from `hash`. */
  function Fold(hash: bv32, s: seq<Byte>): bv32
    decreases |s|
  {
    if s == [] then hash else Fold(Mix(hash, s[0]), s[1..])
  }

  /** The FNV-1a hash of a byte sequence. */
  function Hash(s: seq<Byte>): bv32
  {
    Fold(OffsetBasis, s)
  }

  /** Folding over one more byte is one more round on the folded value. */
  lemma {:induction false} FoldSnoc(hash: bv32, s: seq<Byte>, b: Byte)
    ensures Fold(hash, s + [b]) == Mix(Fold(hash, s), b)
    decreases |s|
  {
    if s == [] {
      assert s + [b] == [b];
      assert [b][1..] == [];
    } else {
      assert (s + [b])[1..] == s[1..] + [b];
      FoldSnoc(Mix(hash, s[0]), s[1..], b);
    }
  }

  /** Hashing a concatenation continues from the hash of the prefix. */
  lemma {:induction false} HashAppend(a: seq<Byte>, b: seq<Byte>)
    ensures Hash(a + b) == Fold(Hash(a), b)
  {
    FoldAppend(OffsetBasis, a, b);
  }

  lemma {:induction false} FoldAppend(hash: bv32, a: seq<Byte>, b: seq<Byte>)
    ensures Fold(hash, a + b) == Fold(Fold(hash, a), b)
    decreases |a|
  {
    if a == [] {
      assert a + b == b;
    } else {
      assert (a + b)[1..] == a[1..] + b;
      FoldAppend(Mix(hash, a[0]), a[1..], b);
    }
  }

  /** The empty input hashes to the offset basis, 2166136261. */
  lemma HashOfEmpty()
    ensures Hash([]) == 2166136261
  {
  }

  /** A known FNV-1a test vector: the single byte 'a' hashes to 0xe40c292c. */
  lemma HashOfA()
    ensures Hash([0x61]) == 0xe40c292c
  {
    assert [0x61 as Byte][1..] == [];
  }

  /** `fnv_1a`: XOR each byte in, then multiply, in a loop over the input. */
  method Fnv1a(key: seq<Byte>) returns (hash: bv32)
    ensures hash == Hash(key)
  {
    hash := OffsetBasis;
    var i := 0;
    while i < |key|
      invariant 0 <= i <= |key|
      invariant hash == Hash(key[..i])
    {
      FoldSnoc(OffsetBasis, key[..i], key[i]);
      assert key[..i + 1] == key[..i] + [key[i]];
      hash := Mix(hash, key[i]);
      i := i + 1;
    }
    assert key[..i] == key;
  }
}
