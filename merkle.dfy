/** The Merkle verifier of the `PubkeyTreeMatch` rule: a left fold of the
    proof path with a sorted-pair, domain-separated Keccak combinator. */
module Merkle {
  import opened Base

  /** The one-byte domain-separation prefix hashed before each pair. */
  const NODE_PREFIX: uint8 := 0x01

  /** Rust's `<=` on byte arrays: lexicographic order on the raw bytes. */
  predicate LexLe(a: seq<uint8>, b: seq<uint8>)
  {
    if a == [] then true
    else if b == [] then false
    else a[0] < b[0] || (a[0] == b[0] && LexLe(a[1..], b[1..]))
  }

  lemma {:induction false} LexLeTotal(a: seq<uint8>, b: seq<uint8>)
    ensures LexLe(a, b) || LexLe(b, a)
  {
    if a != [] && b != [] && a[0] == b[0] {
      LexLeTotal(a[1..], b[1..]);
    }
  }

  lemma {:induction false} LexLeAntisymmetric(a: seq<uint8>, b: seq<uint8>)
    requires LexLe(a, b) && LexLe(b, a)
    ensures a == b
  {
    if a != [] && b != [] {
      LexLeAntisymmetric(a[1..], b[1..]);
      assert a == [a[0]] + a[1..] && b == [b[0]] + b[1..];
    }
  }

  /** One step of the fold: hash the prefix byte and the two values, the
      lexicographically smaller-or-equal one first. */
  function Combine(keccak: seq<uint8> -> Hash, computed: Hash, element: Hash): Hash
  {
    if LexLe(computed, element) then keccak([NODE_PREFIX] + computed + element)
    else keccak([NODE_PREFIX] + element + computed)
  }

  /** Whichever way round the two values are given, the step hashes the
      prefix followed by the sorted pair. */
  lemma CombineHashesSortedPair(keccak: seq<uint8> -> Hash, a: Hash, b: Hash, lo: Hash, hi: Hash)
    requires (lo, hi) == (a, b) || (lo, hi) == (b, a)
    requires LexLe(lo, hi)
    ensures Combine(keccak, a, b) == keccak([NODE_PREFIX] + lo + hi)
  {
    if (lo, hi) == (b, a) && LexLe(a, b) {
      LexLeAntisymmetric(a, b);
    }
  }

  /** The combinator does not depend on which side the proof element is on. */
  lemma CombineCommutative(keccak: seq<uint8> -> Hash, a: Hash, b: Hash)
    ensures Combine(keccak, a, b) == Combine(keccak, b, a)
  {
    LexLeTotal(a, b);
    if LexLe(a, b) {
      CombineHashesSortedPair(keccak, b, a, a, b);
    } else {
      CombineHashesSortedPair(keccak, a, b, b, a);
    }
  }

  /** The root computed from `computed` by combining it with each element of
      `proof` in turn. */
  function FoldRoot(keccak: seq<uint8> -> Hash, computed: Hash, proof: seq<Hash>): Hash
    decreases |proof|
  {
    if proof == [] then computed
    else FoldRoot(keccak, Combine(keccak, computed, proof[0]), proof[1..])
  }

  /** An empty proof makes the leaf its own root. */
  lemma FoldRootEmpty(keccak: seq<uint8> -> Hash, leaf: Hash)
    ensures FoldRoot(keccak, leaf, []) == leaf
  {
  }

  /** Extending the proof by one element combines the old root with it. */
  lemma {:induction false} FoldRootSnoc(keccak: seq<uint8> -> Hash, leaf: Hash, proof: seq<Hash>, element: Hash)
    ensures FoldRoot(keccak, leaf, proof + [element]) ==
            Combine(keccak, FoldRoot(keccak, leaf, proof), element)
    decreases |proof|
  {
    if proof != [] {
      assert (proof + [element])[1..] == proof[1..] + [element];
      FoldRootSnoc(keccak, Combine(keccak, leaf, proof[0]), proof[1..], element);
    }
  }

  /** The loop of the `PubkeyTreeMatch` arm: fold the proof into the leaf. */
  method ComputeRoot(keccak: seq<uint8> -> Hash, leaf: Hash, proof: seq<Hash>) returns (computed: Hash)
    ensures computed == FoldRoot(keccak, leaf, proof)
  {
    computed := leaf;
    var i := 0;
    while i < |proof|
      invariant 0 <= i <= |proof|
      invariant FoldRoot(keccak, computed, proof[i..]) == FoldRoot(keccak, leaf, proof)
    {
      assert proof[i..][1..] == proof[i + 1..];
      if LexLe(computed, proof[i]) {
        computed := keccak([NODE_PREFIX] + computed + proof[i]);
      } else {
        computed := keccak([NODE_PREFIX] + proof[i] + computed);
      }
      i := i + 1;
    }
  }
}
