/** The on-chain side of a vault's access list (`crates/interface/src/access.rs`): leaf and node
    hashing and the directionless proof verifier. */
module Access {
  import opened Bytes

  const LEAF_DOMAIN: Bytes := Ascii("roshi:vault-access:leaf:v1")
  const NODE_DOMAIN: Bytes := Ascii("roshi:vault-access:node:v1")
  const EMPTY_ACCESS_MERKLE_ROOT: Bytes32 := Zeros(32)
  const MAX_ACCESS_PROOF_LEN := 32

  function LeafPreimage(owner: Pubkey): Bytes {
    LEAF_DOMAIN + owner
  }

  /** The two children in byte order, so a proof needs no left or right. */
  function NodePreimage(left: Bytes32, right: Bytes32): Bytes {
    if LexLe(left, right) then NODE_DOMAIN + left + right else NODE_DOMAIN + right + left
  }

  function Leaf(h: Hash, owner: Pubkey): Bytes32 {
    h(LeafPreimage(owner))
  }

  function Node(h: Hash, left: Bytes32, right: Bytes32): Bytes32 {
    h(NodePreimage(left, right))
  }

  /** The domains keep leaves and nodes apart, a leaf determines its owner, and a node determines
      its children up to their order. */
  lemma PreimagesAreInjective(o: Pubkey, o': Pubkey, a: Bytes32, b: Bytes32, c: Bytes32, d: Bytes32)
    ensures LeafPreimage(o) != NodePreimage(a, b)
    ensures LeafPreimage(o) == LeafPreimage(o') ==> o == o'
    ensures NodePreimage(a, b) == NodePreimage(c, d) <==> (a == c && b == d) || (a == d && b == c)
  {
    assert LeafPreimage(o)[19] == 'l' as int;
    assert NodePreimage(a, b)[19] == 'n' as int;
    assert LeafPreimage(o)[26..] == o && LeafPreimage(o')[26..] == o';
    NodeHalves(a, b);
    NodeHalves(c, d);
    LexTotal(a, b);
    LexTotal(c, d);
  }

  /** A leaf hashes its domain and the owner, a node its domain and its children in byte order. */
  lemma PreimageLayout(owner: Pubkey, a: Bytes32, b: Bytes32)
    ensures |LeafPreimage(owner)| == 58 && LeafPreimage(owner)[26..] == owner
    ensures LeafPreimage(owner)[..26] == Ascii("roshi:vault-access:leaf:v1")
    ensures NodePreimage(a, b)[..26] == Ascii("roshi:vault-access:node:v1")
    ensures |NodePreimage(a, b)| == 90
    ensures multiset{NodePreimage(a, b)[26..58], NodePreimage(a, b)[58..]} == multiset{a, b}
    ensures LexLe(NodePreimage(a, b)[26..58], NodePreimage(a, b)[58..])
  {
    NodeHalves(a, b);
    LexTotal(a, b);
  }

  lemma NodeHalves(a: Bytes32, b: Bytes32)
    ensures NodePreimage(a, b)[26..58] == if LexLe(a, b) then a else b
    ensures NodePreimage(a, b)[58..] == if LexLe(a, b) then b else a
  {
  }

  /** The hash reached from `node` by taking in the siblings in order. */
  function Fold(h: Hash, node: Bytes32, proof: seq<Bytes32>): Bytes32 {
    if proof == [] then node
    else Node(h, Fold(h, node, proof[..|proof| - 1]), proof[|proof| - 1])
  }

  lemma {:induction false} FoldFirst(h: Hash, node: Bytes32, sibling: Bytes32, rest: seq<Bytes32>)
    ensures Fold(h, node, [sibling] + rest) == Fold(h, Node(h, node, sibling), rest)
  {
    if rest == [] {
      assert [sibling] + rest == [sibling];
    } else {
      var front := rest[..|rest| - 1];
      FoldFirst(h, node, sibling, front);
      assert ([sibling] + rest)[..|rest|] == [sibling] + front;
    }
  }

  predicate Accepts(h: Hash, owner: Pubkey, root: Bytes32, proof: seq<Bytes32>) {
    |proof| <= MAX_ACCESS_PROOF_LEN && Fold(h, Leaf(h, owner), proof) == root
  }

  method VerifyAccessMerkleProof(h: Hash, owner: Pubkey, root: Bytes32, proof: seq<Bytes32>) returns (accepted: bool)
    ensures accepted == Accepts(h, owner, root, proof)
  {
    if |proof| > MAX_ACCESS_PROOF_LEN {
      return false;
    }
    var node := Leaf(h, owner);
    var i := 0;
    while i < |proof|
      invariant 0 <= i <= |proof|
      invariant node == Fold(h, Leaf(h, owner), proof[..i])
    {
      assert proof[..i + 1][..i] == proof[..i];
      node := Node(h, node, proof[i]);
      i := i + 1;
    }
    assert proof[..i] == proof;
    return node == root;
  }

  /** Everything hashed while following a proof. */
  ghost function PathPreimages(h: Hash, owner: Pubkey, proof: seq<Bytes32>): set<Bytes> {
    if proof == [] then {LeafPreimage(owner)}
    else
      var front := proof[..|proof| - 1];
      PathPreimages(h, owner, front) + {NodePreimage(Fold(h, Leaf(h, owner), front), proof[|proof| - 1])}
  }

  lemma {:induction false} PathPrefix(h: Hash, owner: Pubkey, proof: seq<Bytes32>, m: nat)
    requires m <= |proof|
    ensures PathPreimages(h, owner, proof[..m]) <= PathPreimages(h, owner, proof)
  {
    if m == |proof| {
      assert proof[..m] == proof;
    } else {
      PathPrefix(h, owner, proof[..|proof| - 1], m);
      assert proof[..|proof| - 1][..m] == proof[..m];
    }
  }

  /** The hash a proof reaches is the hash of something on its path. */
  lemma FoldIsHashed(h: Hash, owner: Pubkey, proof: seq<Bytes32>)
    ensures exists p :: p in PathPreimages(h, owner, proof) && h(p) == Fold(h, Leaf(h, owner), proof)
  {
    if proof == [] {
      assert LeafPreimage(owner) in PathPreimages(h, owner, proof);
    } else {
      var front := proof[..|proof| - 1];
      assert NodePreimage(Fold(h, Leaf(h, owner), front), proof[|proof| - 1]) in PathPreimages(h, owner, proof);
    }
  }
}
