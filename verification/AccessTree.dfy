/** The client side of a vault's access list (`crates/client/src/access.rs`): a Merkle tree over
    the sorted, deduplicated owners, and what it owes to the on-chain verifier. */
module AccessTree {
  import opened Outcome
  import opened Bytes
  import opened Access

  datatype Entry = Entry(owner: Pubkey, leaf: Bytes32)

  /** Entries are ordered by leaf, then by owner. */
  predicate EntryLe(a: Entry, b: Entry) {
    if a.leaf == b.leaf then LexLe(a.owner, b.owner) else LexLe(a.leaf, b.leaf)
  }

  /** Sorted entries come in the byte order of their leaves, and of their owners where leaves tie. */
  lemma LeavesAscend(entries: seq<Entry>, i: nat, j: nat)
    requires Sorted(entries) && i < j < |entries|
    ensures LexLe(entries[i].leaf, entries[j].leaf)
    ensures entries[i].leaf == entries[j].leaf ==> LexLe(entries[i].owner, entries[j].owner)
  {
    LexTotal(entries[i].leaf, entries[j].leaf);
  }

  lemma EntryTotal(a: Entry, b: Entry)
    ensures EntryLe(a, b) || EntryLe(b, a)
    ensures EntryLe(a, b) && EntryLe(b, a) ==> a == b
  {
    LexTotal(a.leaf, b.leaf);
    LexTotal(a.owner, b.owner);
  }

  lemma EntryTransitive(a: Entry, b: Entry, c: Entry)
    requires EntryLe(a, b) && EntryLe(b, c)
    ensures EntryLe(a, c)
  {
    LexTotal(a.leaf, b.leaf);
    LexTotal(b.leaf, c.leaf);
    if a.leaf == b.leaf == c.leaf {
      LexTransitive(a.owner, b.owner, c.owner);
    } else {
      LexTransitive(a.leaf, b.leaf, c.leaf);
    }
  }

  ghost predicate Sorted(entries: seq<Entry>) {
    forall i, j :: 0 <= i < j < |entries| ==> EntryLe(entries[i], entries[j])
  }

  ghost predicate Distinct(entries: seq<Entry>) {
    forall i, j :: 0 <= i < j < |entries| ==> entries[i] != entries[j]
  }

  ghost function Owners(entries: seq<Entry>): set<Pubkey> {
    set e | e in entries :: e.owner
  }

  ghost predicate Hashed(h: Hash, entries: seq<Entry>) {
    forall i :: 0 <= i < |entries| ==> entries[i].leaf == Leaf(h, entries[i].owner)
  }

  /** The entries of a tree over `owners`: sorted, without repetition, one for each owner. */
  ghost predicate Lists(h: Hash, entries: seq<Entry>, owners: set<Pubkey>) {
    Sorted(entries) && Distinct(entries) && Hashed(h, entries) && Owners(entries) == owners
  }

  lemma EmptyLists(h: Hash, es: seq<Entry>, owners: set<Pubkey>)
    requires Lists(h, es, owners)
    ensures es == [] <==> owners == {}
  {
    if es != [] {
      assert es[0].owner in Owners(es);
    }
  }

  /** The entries depend only on the set of owners. */
  lemma {:induction false} ListsIsUnique(h: Hash, es: seq<Entry>, fs: seq<Entry>, owners: set<Pubkey>)
    requires Lists(h, es, owners) && Lists(h, fs, owners)
    ensures es == fs
    decreases |es|
  {
    EmptyLists(h, es, owners);
    EmptyLists(h, fs, owners);
    if owners == {} {
    } else {
      var e, f := es[|es| - 1], fs[|fs| - 1];
      LastIsLargest(h, es, fs, owners);
      LastIsLargest(h, fs, es, owners);
      EntryTotal(e, f);
      ListsWithoutLast(h, es, owners);
      ListsWithoutLast(h, fs, owners);
      ListsIsUnique(h, es[..|es| - 1], fs[..|fs| - 1], owners - {e.owner});
    }
  }

  lemma LastIsLargest(h: Hash, es: seq<Entry>, fs: seq<Entry>, owners: set<Pubkey>)
    requires Lists(h, es, owners) && Lists(h, fs, owners) && es != [] && fs != []
    ensures EntryLe(fs[|fs| - 1], es[|es| - 1])
  {
    var f := fs[|fs| - 1];
    assert f.owner in Owners(es);
    var i :| 0 <= i < |es| && es[i].owner == f.owner;
    assert es[i] == f;
    EntryTotal(f, f);
  }

  lemma ListsWithoutLast(h: Hash, es: seq<Entry>, owners: set<Pubkey>)
    requires Lists(h, es, owners) && es != []
    ensures Lists(h, es[..|es| - 1], owners - {es[|es| - 1].owner})
  {
    var front, last := es[..|es| - 1], es[|es| - 1];
    forall o | o in owners - {last.owner} ensures o in Owners(front) {
      assert o in Owners(es);
      var i :| 0 <= i < |es| && es[i].owner == o;
      assert es[i] in front;
    }
    forall o | o in Owners(front) ensures o in owners - {last.owner} {
      var i :| 0 <= i < |front| && front[i].owner == o;
      assert es[i] in es && es[i] != last;
    }
  }

  /** One level up: neighbours are hashed together, an odd node is promoted as it is. */
  function NextLayer(h: Hash, layer: seq<Bytes32>): (r: seq<Bytes32>)
    ensures |r| == (|layer| + 1) / 2
  {
    if |layer| <= 1 then layer
    else [Node(h, layer[0], layer[1])] + NextLayer(h, layer[2..])
  }

  /** The layers from `layer` up to its root. */
  function Layers(h: Hash, layer: seq<Bytes32>): seq<seq<Bytes32>>
    decreases |layer|
  {
    if layer == [] then []
    else if |layer| == 1 then [layer]
    else [layer] + Layers(h, NextLayer(h, layer))
  }

  function RootOf(h: Hash, layer: seq<Bytes32>): Bytes32
    decreases |layer|
  {
    if layer == [] then EMPTY_ACCESS_MERKLE_ROOT
    else if |layer| == 1 then layer[0]
    else RootOf(h, NextLayer(h, layer))
  }

  function Sibling(index: nat): nat {
    if index % 2 == 0 then index + 1 else index - 1
  }

  /** The siblings met on the way up from a position; a promoted node meets none. */
  function ProofAt(h: Hash, layer: seq<Bytes32>, index: nat): seq<Bytes32>
    decreases |layer|
  {
    if |layer| <= 1 then []
    else
      (if Sibling(index) < |layer| then [layer[Sibling(index)]] else [])
      + ProofAt(h, NextLayer(h, layer), index / 2)
  }

  /** A node above is its two children hashed, or its only child. */
  lemma {:induction false} NextLayerAt(h: Hash, layer: seq<Bytes32>, i: nat)
    requires i < |NextLayer(h, layer)|
    ensures 2 * i < |layer|
    ensures 2 * i + 1 == |layer| ==> NextLayer(h, layer)[i] == layer[2 * i]
    ensures 2 * i + 1 < |layer| ==> NextLayer(h, layer)[i] == Node(h, layer[2 * i], layer[2 * i + 1])
    ensures 2 * i + 1 < |layer| ==> NodePreimage(layer[2 * i], layer[2 * i + 1]) in LayerPreimages(layer)
  {
    hide Node, NodePreimage;
    if |layer| > 1 && i > 0 {
      NextLayerAt(h, layer[2..], i - 1);
    }
  }

  lemma NodeCommutes(h: Hash, a: Bytes32, b: Bytes32)
    ensures Node(h, a, b) == Node(h, b, a)
  {
    LexTotal(a, b);
  }

  /** A proof leads from its position to the root. */
  lemma {:induction false} ProofReachesRoot(h: Hash, layer: seq<Bytes32>, index: nat)
    requires index < |layer|
    ensures Fold(h, layer[index], ProofAt(h, layer, index)) == RootOf(h, layer)
    decreases |layer|
  {
    hide Node, NodePreimage, NextLayer;
    if |layer| > 1 {
      var next := NextLayer(h, layer);
      var rest := ProofAt(h, next, index / 2);
      ProofReachesRoot(h, next, index / 2);
      NextLayerAt(h, layer, index / 2);
      if Sibling(index) < |layer| {
        var sibling := layer[Sibling(index)];
        FoldFirst(h, layer[index], sibling, rest);
        NodeCommutes(h, layer[index], sibling);
      } else {
        assert ProofAt(h, layer, index) == rest;
      }
    }
  }

  ghost function TwoTo(m: nat): nat {
    if m == 0 then 1 else 2 * TwoTo(m - 1)
  }

  lemma {:induction false} ProofIsShort(h: Hash, layer: seq<Bytes32>, index: nat, m: nat)
    requires index < |layer| <= TwoTo(m)
    ensures |ProofAt(h, layer, index)| <= m
    decreases |layer|
  {
    if |layer| > 1 {
      ProofIsShort(h, NextLayer(h, layer), index / 2, m - 1);
    }
  }

  /** The first position is never promoted past a layer: its proof shows the tree's height. */
  lemma {:induction false} FirstProofIsFull(h: Hash, layer: seq<Bytes32>, m: nat)
    requires layer != [] && |ProofAt(h, layer, 0)| <= m
    ensures |layer| <= TwoTo(m)
    decreases |layer|
  {
    if |layer| > 1 {
      FirstProofIsFull(h, NextLayer(h, layer), m - 1);
    } else {
      TwoToPositive(m);
    }
  }

  lemma {:induction false} TwoToPositive(m: nat)
    ensures 1 <= TwoTo(m)
  {
    if m > 0 {
      TwoToPositive(m - 1);
    }
  }

  /** The pairs hashed to form the layer above. */
  ghost function LayerPreimages(layer: seq<Bytes32>): set<Bytes> {
    if |layer| <= 1 then {}
    else {NodePreimage(layer[0], layer[1])} + LayerPreimages(layer[2..])
  }

  /** The pairs hashed anywhere from `layer` up to its root. */
  ghost function NodePreimages(h: Hash, layer: seq<Bytes32>): set<Bytes>
    decreases |layer|
  {
    if |layer| <= 1 then {}
    else LayerPreimages(layer) + NodePreimages(h, NextLayer(h, layer))
  }

  /** Everything hashed while building the tree over `owners`. */
  ghost function TreePreimages(h: Hash, owners: set<Pubkey>, layer: seq<Bytes32>): set<Bytes> {
    (set o | o in owners :: LeafPreimage(o)) + NodePreimages(h, layer)
  }

  lemma CollidesWithin(h: Hash, ps: set<Bytes>, qs: set<Bytes>, ps': set<Bytes>, qs': set<Bytes>)
    requires Collides(h, ps, qs) && ps <= ps' && qs <= qs'
    ensures Collides(h, ps', qs')
  {
    var p, q :| p in ps && q in qs && p != q && h(p) == h(q);
    assert p in ps' && q in qs';
  }

  lemma CollisionAt(h: Hash, ps: set<Bytes>, qs: set<Bytes>, p: Bytes, q: Bytes)
    requires p in ps && q in qs && p != q && h(p) == h(q)
    ensures Collides(h, ps, qs)
  {
  }

  /** A path that reaches the root of a layer passed through the layer, or collided above it. */
  lemma {:induction false} PathCrossesLayer(h: Hash, layer: seq<Bytes32>, owner: Pubkey, proof: seq<Bytes32>)
    returns (m: nat)
    requires layer != [] && Fold(h, Leaf(h, owner), proof) == RootOf(h, layer)
    ensures m <= |proof|
    ensures Fold(h, Leaf(h, owner), proof[..m]) in layer
            || Collides(h, PathPreimages(h, owner, proof), NodePreimages(h, layer))
    decreases |layer|
  {
    m := |proof|;
    assert proof[..m] == proof;
    if |layer| > 1 {
      var next := NextLayer(h, layer);
      m := PathCrossesLayer(h, next, owner, proof);
      if Fold(h, Leaf(h, owner), proof[..m]) in next {
        var i :| 0 <= i < |next| && next[i] == Fold(h, Leaf(h, owner), proof[..m]);
        NextLayerAt(h, layer, i);
        if 2 * i + 1 < |layer| {
          PathPrefix(h, owner, proof, m);
          m := StepsIntoPair(h, owner, proof, m, layer[2 * i], layer[2 * i + 1],
                             PathPreimages(h, owner, proof), NodePreimages(h, layer));
        }
      } else {
        CollidesWithin(h, PathPreimages(h, owner, proof), NodePreimages(h, next),
                       PathPreimages(h, owner, proof), NodePreimages(h, layer));
      }
    }
  }

  /** A path standing on a hashed pair came from one of the two, or collided. */
  lemma StepsIntoPair(h: Hash, owner: Pubkey, proof: seq<Bytes32>, m: nat, left: Bytes32, right: Bytes32,
                      ps: set<Bytes>, qs: set<Bytes>) returns (n: nat)
    requires m <= |proof| && Fold(h, Leaf(h, owner), proof[..m]) == Node(h, left, right)
    requires PathPreimages(h, owner, proof[..m]) <= ps && NodePreimage(left, right) in qs
    ensures n <= m
    ensures Fold(h, Leaf(h, owner), proof[..n]) in [left, right] || Collides(h, ps, qs)
  {
    if m == 0 {
      n := 0;
      PreimagesAreInjective(owner, owner, left, right, left, right);
      CollisionAt(h, ps, qs, LeafPreimage(owner), NodePreimage(left, right));
    } else {
      n := m - 1;
      assert proof[..m][..n] == proof[..n];
      var below := Fold(h, Leaf(h, owner), proof[..n]);
      if NodePreimage(below, proof[n]) == NodePreimage(left, right) {
        PreimagesAreInjective(owner, owner, below, proof[n], left, right);
      } else {
        CollisionAt(h, ps, qs, NodePreimage(below, proof[n]), NodePreimage(left, right));
      }
    }
  }

  /** The leaves a tree is built on. */
  function LeavesOf(entries: seq<Entry>): (r: seq<Bytes32>)
    ensures |r| == |entries| && forall i :: 0 <= i < |r| ==> r[i] == entries[i].leaf
  {
    seq(|entries|, i requires 0 <= i < |entries| => entries[i].leaf)
  }

  ghost function TreeRoot(h: Hash, entries: seq<Entry>): Bytes32 {
    RootOf(h, LeavesOf(entries))
  }

  /** Soundness. When the verifier accepts an owner against the root of a built tree, the owner is
      in the tree, or something hashed on the proof's path collides with something else hashed
      in the tree; for the empty tree, something on the path hashes to 32 zero bytes. */
  lemma AcceptedMeansListed(h: Hash, entries: seq<Entry>, owners: set<Pubkey>, owner: Pubkey, proof: seq<Bytes32>)
    requires Lists(h, entries, owners) && Accepts(h, owner, TreeRoot(h, entries), proof)
    ensures || owner in owners
            || Collides(h, PathPreimages(h, owner, proof), TreePreimages(h, owners, LeavesOf(entries)))
            || (owners == {} && exists p :: p in PathPreimages(h, owner, proof) && h(p) == EMPTY_ACCESS_MERKLE_ROOT)
  {
    var ps, qs := PathPreimages(h, owner, proof), TreePreimages(h, owners, LeavesOf(entries));
    if entries == [] {
      FoldIsHashed(h, owner, proof);
    } else {
      var m := PathCrossesLayer(h, LeavesOf(entries), owner, proof);
      if Fold(h, Leaf(h, owner), proof[..m]) in LeavesOf(entries) {
        var i :| 0 <= i < |entries| && entries[i].leaf == Fold(h, Leaf(h, owner), proof[..m]);
        var listed := entries[i].owner;
        assert listed in Owners(entries);
        PathPrefix(h, owner, proof, m);
        var front := if m == 0 then [] else proof[..m][..m - 1];
        var p := if m == 0 then LeafPreimage(owner)
            else NodePreimage(Fold(h, Leaf(h, owner), front), proof[..m][m - 1]);
        assert p in PathPreimages(h, owner, proof[..m]);
        if p != LeafPreimage(listed) {
          CollisionAt(h, ps, qs, p, LeafPreimage(listed));
        } else if m == 0 {
          PreimagesAreInjective(owner, listed, owner, owner, owner, owner);
        } else {
          PreimagesAreInjective(listed, listed, Fold(h, Leaf(h, owner), front), proof[..m][m - 1], owner, owner);
        }
      } else {
        CollidesWithin(h, ps, NodePreimages(h, LeavesOf(entries)), ps, qs);
      }
    }
  }

  /** Completeness. Whenever a listed owner's proof is short enough to be handed out, the verifier
      accepts it against the tree's root; in a tree of at most `2^m` owners every proof has at
      most `m` siblings; and every listed owner has one to hand out exactly when the tree has at
      most `2^32` owners. */
  lemma ListedMeansAccepted(h: Hash, entries: seq<Entry>, owners: set<Pubkey>, i: nat, m: nat)
    requires Lists(h, entries, owners) && i < |entries|
    ensures ProofFor(h, entries, entries[i].owner).Some? ==>
              Accepts(h, entries[i].owner, TreeRoot(h, entries), ProofFor(h, entries, entries[i].owner).value)
    ensures |entries| <= TwoTo(m) ==> |ProofAt(h, LeavesOf(entries), i)| <= m
    ensures |entries| <= TwoTo(32) ==> ProofFor(h, entries, entries[i].owner).Some?
    ensures ProofFor(h, entries, entries[0].owner).Some? ==> |entries| <= TwoTo(32)
  {
    hide RootOf, ProofAt, Fold, TwoTo;
    PositionFinds(h, entries, owners, i);
    PositionFinds(h, entries, owners, 0);
    ProofReachesRoot(h, LeavesOf(entries), i);
    if |entries| <= TwoTo(m) {
      ProofIsShort(h, LeavesOf(entries), i, m);
    }
    if |entries| <= TwoTo(32) {
      ProofIsShort(h, LeavesOf(entries), i, 32);
    }
    if |ProofAt(h, LeavesOf(entries), 0)| <= 32 {
      FirstProofIsFull(h, LeavesOf(entries), 32);
    }
  }

  /** The first entry of an owner. */
  function Position(entries: seq<Entry>, owner: Pubkey): (r: nat)
    ensures r <= |entries|
    ensures r < |entries| ==> entries[r].owner == owner
    ensures forall i :: 0 <= i < r ==> entries[i].owner != owner
  {
    if entries == [] || entries[0].owner == owner then 0 else 1 + Position(entries[1..], owner)
  }

  function ProofFor(h: Hash, entries: seq<Entry>, owner: Pubkey): Option<seq<Bytes32>> {
    var index := Position(entries, owner);
    if index == |entries| then None
    else
      var proof := ProofAt(h, LeavesOf(entries), index);
      if |proof| <= MAX_ACCESS_PROOF_LEN then Some(proof) else None
  }

  lemma PositionFinds(h: Hash, entries: seq<Entry>, owners: set<Pubkey>, i: nat)
    requires Lists(h, entries, owners) && i < |entries|
    ensures Position(entries, entries[i].owner) == i
  {
    var p := Position(entries, entries[i].owner);
    assert entries[p].leaf == entries[i].leaf;
  }

  /** Canonicity. The root is a function of the set of owners: order and repetition do not
      matter. And the set is bound by the root: if an owner of one list, with a proof to hand
      out, is missing from another list with the same root, a collision is exhibited. */
  lemma RootBindsOwners(h: Hash, es: seq<Entry>, fs: seq<Entry>, os: set<Pubkey>, ps: set<Pubkey>, owner: Pubkey)
    requires Lists(h, es, os) && Lists(h, fs, ps)
    ensures os == ps ==> TreeRoot(h, es) == TreeRoot(h, fs)
    ensures TreeRoot(h, es) == TreeRoot(h, fs) && ProofFor(h, es, owner).Some? ==>
              var path := PathPreimages(h, owner, ProofFor(h, es, owner).value);
              || owner in ps
              || Collides(h, path, TreePreimages(h, ps, LeavesOf(fs)))
              || (ps == {} && exists p :: p in path && h(p) == EMPTY_ACCESS_MERKLE_ROOT)
  {
    hide ProofAt, Fold, TreePreimages, PathPreimages;
    if os == ps {
      ListsIsUnique(h, es, fs, os);
    }
    if TreeRoot(h, es) == TreeRoot(h, fs) && ProofFor(h, es, owner).Some? {
      ListedMeansAccepted(h, es, os, Position(es, owner), 0);
      AcceptedMeansListed(h, fs, ps, owner, ProofFor(h, es, owner).value);
    }
  }

  /** Put the entries in order; the order is total, so any sort gives this sequence. */
  method Sort(entries: seq<Entry>) returns (sorted: seq<Entry>)
    ensures Sorted(sorted) && multiset(sorted) == multiset(entries)
  {
    hide EntryLe, Sorted;
    sorted := [];
    var i := 0;
    assert Sorted(sorted) by {
      SortedEmpty();
    }
    while i < |entries|
      invariant 0 <= i <= |entries|
      invariant Sorted(sorted) && multiset(sorted) == multiset(entries[..i])
    {
      var e := entries[i];
      var p := |sorted|;
      while p > 0 && !EntryLe(sorted[p - 1], e)
        invariant 0 <= p <= |sorted|
        invariant forall k :: p <= k < |sorted| ==> EntryLe(e, sorted[k])
      {
        EntryTotal(sorted[p - 1], e);
        p := p - 1;
      }
      SortedInsert(sorted, p, e);
      InsertKeepsEntries(sorted, p, e);
      assert entries[..i + 1] == entries[..i] + [e];
      sorted := sorted[..p] + [e] + sorted[p..];
      i := i + 1;
    }
    assert entries[..i] == entries;
  }

  lemma SortedEmpty()
    ensures Sorted([])
  {
  }

  lemma SortedInsert(sorted: seq<Entry>, p: nat, e: Entry)
    requires Sorted(sorted) && p <= |sorted|
    requires p > 0 ==> EntryLe(sorted[p - 1], e)
    requires forall k :: p <= k < |sorted| ==> EntryLe(e, sorted[k])
    ensures Sorted(sorted[..p] + [e] + sorted[p..])
  {
    hide EntryLe;
    forall k | 0 <= k < p ensures EntryLe(sorted[k], e) {
      if k < p - 1 {
        EntryTransitive(sorted[k], sorted[p - 1], e);
      }
    }
  }

  lemma InsertKeepsEntries(sorted: seq<Entry>, p: nat, e: Entry)
    requires p <= |sorted|
    ensures multiset(sorted[..p] + [e] + sorted[p..]) == multiset(sorted) + multiset{e}
  {
    assert sorted == sorted[..p] + sorted[p..];
  }

  /** Drop an entry whose owner is that of the entry kept before it. */
  method Dedup(h: Hash, sorted: seq<Entry>) returns (entries: seq<Entry>)
    requires Sorted(sorted) && Hashed(h, sorted)
    ensures Lists(h, entries, Owners(sorted))
  {
    entries := [];
    var i := 0;
    while i < |sorted|
      invariant 0 <= i <= |sorted|
      invariant i > 0 ==> entries != [] && entries[|entries| - 1] == sorted[i - 1]
      invariant Lists(h, entries, Owners(sorted[..i]))
      invariant forall e :: e in entries ==> e in sorted[..i]
    {
      assert sorted[..i + 1] == sorted[..i] + [sorted[i]];
      assert Owners(sorted[..i + 1]) == Owners(sorted[..i]) + {sorted[i].owner} by {
        OwnersAppend(sorted[..i], sorted[i]);
      }
      if i == 0 || sorted[i].owner != entries[|entries| - 1].owner {
        AppendLarger(h, entries, sorted[..i], sorted[i]);
        entries := entries + [sorted[i]];
      } else {
        assert sorted[i] == sorted[i - 1];
        assert sorted[i - 1] in sorted[..i];
      }
      i := i + 1;
    }
    assert sorted[..i] == sorted;
  }

  lemma OwnersAppend(entries: seq<Entry>, e: Entry)
    ensures Owners(entries + [e]) == Owners(entries) + {e.owner}
  {
    forall o | o in Owners(entries) + {e.owner} ensures o in Owners(entries + [e]) {
      if o == e.owner {
        assert (entries + [e])[|entries|] == e;
      } else {
        var i :| 0 <= i < |entries| && entries[i].owner == o;
        assert (entries + [e])[i] == entries[i];
      }
    }
  }

  lemma AppendLarger(h: Hash, entries: seq<Entry>, before: seq<Entry>, e: Entry)
    requires Lists(h, entries, Owners(before)) && e.leaf == Leaf(h, e.owner)
    requires forall d :: d in entries ==> d in before
    requires forall i :: 0 <= i < |before| ==> EntryLe(before[i], e)
    requires entries != [] ==> e.owner != entries[|entries| - 1].owner
    ensures Lists(h, entries + [e], Owners(before) + {e.owner})
  {
    OwnersAppend(entries, e);
    forall i | 0 <= i < |entries| ensures EntryLe(entries[i], e) && entries[i] != e {
      assert entries[i] in before;
      if entries[i] == e {
        var last := entries[|entries| - 1];
        assert last in before && last in entries;
        EntryTotal(last, e);
      }
    }
  }

  /** One pass over a layer in chunks of two. */
  method HashPairs(h: Hash, layer: seq<Bytes32>) returns (next: seq<Bytes32>)
    ensures next == NextLayer(h, layer)
  {
    hide Node, NextLayer;
    next := [];
    var i := 0;
    assert layer[i..] == layer;
    while i < |layer|
      invariant 0 <= i <= |layer|
      invariant NextLayer(h, layer) == next + NextLayer(h, layer[i..])
    {
      var pair := layer[i..if i + 2 <= |layer| then i + 2 else |layer|];
      if |pair| == 2 {
        PairsStep(h, layer, i);
        assert next + ([Node(h, pair[0], pair[1])] + NextLayer(h, layer[i + 2..]))
            == next + [Node(h, pair[0], pair[1])] + NextLayer(h, layer[i + 2..]);
        next := next + [Node(h, pair[0], pair[1])];
      } else {
        LastStep(h, layer, i);
        next := next + [pair[0]];
      }
      i := i + |pair|;
    }
    LastStep(h, layer, i);
  }

  lemma LastStep(h: Hash, layer: seq<Bytes32>, i: nat)
    requires i <= |layer| <= i + 1
    ensures NextLayer(h, layer[i..]) == layer[i..]
    ensures NextLayer(h, layer[|layer|..]) == []
  {
  }

  lemma PairsStep(h: Hash, layer: seq<Bytes32>, i: nat)
    requires i + 2 <= |layer|
    ensures NextLayer(h, layer[i..]) == [Node(h, layer[i], layer[i + 1])] + NextLayer(h, layer[i + 2..])
  {
    assert layer[i..][2..] == layer[i + 2..];
  }

  /** The layer loop: a new layer on top while the topmost has more than one node. */
  method BuildLayers(h: Hash, leaves: seq<Bytes32>) returns (layers: seq<seq<Bytes32>>)
    ensures layers == Layers(h, leaves)
  {
    hide NextLayer, Layers;
    layers := [];
    TopLayers(h, [], leaves);
    if leaves == [] {
      return;
    }
    layers := [leaves];
    while |layers[|layers| - 1]| > 1
      invariant layers != [] && layers[|layers| - 1] != []
      invariant Layers(h, leaves) == layers[..|layers| - 1] + Layers(h, layers[|layers| - 1])
      decreases |layers[|layers| - 1]|
    {
      var current := layers[|layers| - 1];
      var next := HashPairs(h, current);
      TopLayers(h, layers[..|layers| - 1], current);
      assert (layers + [next])[..|layers|] == layers;
      layers := layers + [next];
    }
    TopLayers(h, layers[..|layers| - 1], layers[|layers| - 1]);
  }

  lemma TopLayers(h: Hash, below: seq<seq<Bytes32>>, top: seq<Bytes32>)
    ensures top == [] ==> Layers(h, top) == []
    ensures |top| == 1 ==> below + Layers(h, top) == below + [top]
    ensures |top| > 1 ==> below + Layers(h, top) == below + [top] + Layers(h, NextLayer(h, top))
  {
    LayersStep(h, top);
    Append(below, top, Layers(h, NextLayer(h, top)));
  }

  lemma LayersStep(h: Hash, top: seq<Bytes32>)
    ensures |top| > 1 ==> Layers(h, top) == [top] + Layers(h, NextLayer(h, top))
  {
  }

  lemma Append(below: seq<seq<Bytes32>>, top: seq<Bytes32>, above: seq<seq<Bytes32>>)
    ensures below + ([top] + above) == below + [top] + above
  {
  }

  /** The proof loop: up the stored layers, collecting the sibling wherever there is one. */
  method WalkUp(ghost h: Hash, ghost leaves: seq<Bytes32>, layers: seq<seq<Bytes32>>, start: nat)
    returns (proof: seq<Bytes32>)
    requires layers == Layers(h, leaves)
    ensures proof == ProofAt(h, leaves, start)
  {
    hide NextLayer;
    ghost var current := leaves;
    var index := start;
    proof := [];
    var i := 0;
    while i < |layers|
      invariant 0 <= i <= |layers|
      invariant layers[i..] == Layers(h, current)
      invariant ProofAt(h, leaves, start) == proof + ProofAt(h, current, index)
    {
      var layer := layers[i];
      assert layer == layers[i..][0] && layers[i..][1..] == layers[i + 1..];
      if |layer| <= 1 {
        break;
      }
      var siblingIndex := if index % 2 == 0 then index + 1 else index - 1;
      if siblingIndex < |layer| {
        proof := proof + [layer[siblingIndex]];
      }
      index := index / 2;
      i := i + 1;
      current := NextLayer(h, current);
    }
    assert |current| <= 1;
  }

  lemma {:induction false} TopLayerIsRoot(h: Hash, layer: seq<Bytes32>)
    ensures var layers := Layers(h, layer);
            RootOf(h, layer) == if layers == [] || layers[|layers| - 1] == [] then EMPTY_ACCESS_MERKLE_ROOT
                                else layers[|layers| - 1][0]
    decreases |layer|
  {
    hide NextLayer;
    if |layer| > 1 {
      TopLayerIsRoot(h, NextLayer(h, layer));
    }
  }

  lemma HashedOwners(h: Hash, owners: seq<Pubkey>, hashed: seq<Entry>, sorted: seq<Entry>)
    requires |hashed| == |owners| && forall i :: 0 <= i < |owners| ==> hashed[i] == Entry(owners[i], Leaf(h, owners[i]))
    requires multiset(sorted) == multiset(hashed)
    ensures Hashed(h, sorted) && Owners(sorted) == set o | o in owners
  {
    forall i | 0 <= i < |sorted| ensures sorted[i] in hashed {
      assert sorted[i] in multiset(sorted);
    }
    forall i | 0 <= i < |owners| ensures owners[i] in Owners(sorted) {
      assert hashed[i] in multiset(hashed);
      assert hashed[i] in sorted;
    }
  }

  /** A client's allowlist tree: built once, then asked for its root and for proofs. */
  class AccessMerkleTree {
    const h: Hash
    var entries: seq<Entry>
    var layers: seq<seq<Bytes32>>

    ghost predicate Valid(owners: set<Pubkey>)
      reads this
    {
      Lists(h, entries, owners) && layers == Layers(h, LeavesOf(entries))
    }

    constructor (hash: Hash, owners: seq<Pubkey>)
      ensures h == hash && Valid(set o | o in owners)
    {
      var hashed := seq(|owners|, i requires 0 <= i < |owners| => Entry(owners[i], Leaf(hash, owners[i])));
      var sorted := Sort(hashed);
      HashedOwners(hash, owners, hashed, sorted);
      var deduped := Dedup(hash, sorted);
      var built := BuildLayers(hash, LeavesOf(deduped));
      h, entries, layers := hash, deduped, built;
    }

    predicate IsEmpty()
      reads this
    {
      entries == []
    }

    predicate Contains(owner: Pubkey)
      reads this
    {
      exists i :: 0 <= i < |entries| && entries[i].owner == owner
    }

    function Root(): Bytes32
      reads this
    {
      if layers == [] || layers[|layers| - 1] == [] then EMPTY_ACCESS_MERKLE_ROOT else layers[|layers| - 1][0]
    }

    /** The accessors answer for the set of owners the tree was built from. */
    lemma Answers(owners: set<Pubkey>, owner: Pubkey)
      requires Valid(owners)
      ensures IsEmpty() <==> owners == {}
      ensures Contains(owner) <==> owner in owners
      ensures Root() == TreeRoot(h, entries)
      ensures owner in owners <==> Position(entries, owner) < |entries|
    {
      EmptyLists(h, entries, owners);
      TopLayerIsRoot(h, LeavesOf(entries));
      if owner in owners {
        assert owner in Owners(entries);
      }
    }

    method Proof(owner: Pubkey, ghost owners: set<Pubkey>) returns (r: Option<seq<Bytes32>>)
      requires Valid(owners)
      ensures r == ProofFor(h, entries, owner)
      ensures owner !in owners ==> r == None
      ensures owner in owners && |owners| <= TwoTo(32) ==> r.Some?
      ensures r.Some? ==> Accepts(h, owner, Root(), r.value)
    {
      hide RootOf, Fold, ProofAt, TwoTo;
      Answers(owners, owner);
      var index := Position(entries, owner);
      if index == |entries| {
        return None;
      }
      ListedMeansAccepted(h, entries, owners, index, 32);
      ListsCount(h, entries, owners);
      var proof := WalkUp(h, LeavesOf(entries), layers, index);
      return if |proof| <= MAX_ACCESS_PROOF_LEN then Some(proof) else None;
    }
  }

  lemma {:induction false} ListsCount(h: Hash, entries: seq<Entry>, owners: set<Pubkey>)
    requires Lists(h, entries, owners)
    ensures |entries| == |owners|
    decreases |entries|
  {
    EmptyLists(h, entries, owners);
    if entries != [] {
      ListsWithoutLast(h, entries, owners);
      ListsCount(h, entries[..|entries| - 1], owners - {entries[|entries| - 1].owner});
      assert entries[|entries| - 1].owner in Owners(entries);
    }
  }
}
