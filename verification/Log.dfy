/** The append-only log of pqsign.mjs and the bundle verifier that a relying party runs
    against one of its signed tree heads. */
module TransparencyLog {
  import opened Hashing
  import opened MerkleTree
  import opened InclusionProof
  import opened ConsistencyProof

  function Leaves<E, T>(leafHash: E -> T, entries: seq<E>): (leaves: seq<T>)
    ensures |leaves| == |entries|
    ensures forall i :: 0 <= i < |entries| ==> leaves[i] == leafHash(entries[i])
  {
    seq(|entries|, i requires 0 <= i < |entries| => leafHash(entries[i]))
  }

  datatype Inclusion<T> = Inclusion(index: int, treeSize: int, proof: seq<Step<T>>, leaf: T)

  class Log<E, T> {
    var entries: seq<E>
    const leafHash: E -> T
    const h: Combine<T>
    const empty: T

    constructor (h: Combine<T>, empty: T, leafHash: E -> T)
      ensures entries == [] && this.h == h && this.empty == empty && this.leafHash == leafHash
    {
      this.h, this.empty, this.leafHash := h, empty, leafHash;
      entries := [];
    }

    method Append(att: E) returns (index: nat)
      modifies this
      ensures entries == old(entries) + [att] && index == |old(entries)|
    {
      entries := entries + [att];
      index := |entries| - 1;
    }

    method TreeHead() returns (head: Head<T>)
      ensures head == Head(|entries|, MerkleTree.TreeHead(h, empty, Leaves(leafHash, entries)))
      ensures head == if entries == [] then Head(0, empty) else Head(|entries|, Mth(h, Leaves(leafHash, entries)))
    {
      var root := MerkleRoot(h, empty, Leaves(leafHash, entries));
      head := Head(|entries|, root);
    }

    method InclusionOf(index: nat) returns (inc: Inclusion<T>)
      requires index < |entries|
      ensures inc == Inclusion(index, |entries|, Steps(h, Leaves(leafHash, entries), index), leafHash(entries[index]))
    {
      var proof := ProveInclusion(h, Leaves(leafHash, entries), index);
      inc := Inclusion(index, |entries|, proof, leafHash(entries[index]));
    }

    method ConsistencyFrom(m: int) returns (proof: Option<seq<T>>)
      ensures proof == if 1 <= m <= |entries| then Some(Proof(h, m, Leaves(leafHash, entries))) else None
    {
      proof := ProveConsistency(h, empty, Leaves(leafHash, entries), m);
    }
  }

  /** The head a log publishes is the one head of its size that is honest for its leaves. */
  lemma PublishedIffHonest<E(!new), T(!new)>(h: Combine<T>, empty: T, leafHash: E -> T, entries: seq<E>, root: T)
    ensures root == MerkleTree.TreeHead(h, empty, Leaves(leafHash, entries))
            <==> IsHonestHead(h, empty, Head(|entries|, root), Leaves(leafHash, entries))
  {
    hide Mth;
    var leaves := Leaves(leafHash, entries);
    assert leaves[..|entries|] == leaves;
  }

  /** What the signature checks said about a bundle. */
  datatype Bundle<E, T> = Bundle(att: E, artifactOk: bool, inclusion: Inclusion<T>, sth: Head<T>, sthOk: bool)

  /** The verdict of verifyBundle: the leaf is recomputed, never taken from the bundle. */
  ghost predicate Verified<E(!new), T(!new)>(h: Combine<T>, leafHash: E -> T, b: Bundle<E, T>) {
    b.artifactOk && b.sthOk
    && leafHash(b.att) == b.inclusion.leaf
    && b.inclusion.treeSize == b.sth.size
    && Accepts(h, leafHash(b.att), b.inclusion.index, b.sth.size, Siblings(b.inclusion.proof), b.sth.root)
  }

  method VerifyBundle<E(!new), T(==,!new)>(h: Combine<T>, leafHash: E -> T, b: Bundle<E, T>) returns (verified: bool)
    ensures verified == Verified(h, leafHash, b)
    ensures verified <==>
              b.artifactOk && b.sthOk && b.inclusion.leaf == leafHash(b.att) && b.inclusion.treeSize == b.sth.size
              && 0 <= b.inclusion.index < b.sth.size <= MAX_TREE_SIZE
              && Walk(h, b.inclusion.index, b.sth.size - 1, leafHash(b.att), Siblings(b.inclusion.proof)) == Some(b.sth.root)
  {
    var expectedLeaf := leafHash(b.att);
    var leafBound := expectedLeaf == b.inclusion.leaf;
    var treeSizeOk := b.inclusion.treeSize == b.sth.size;
    var walk := VerifyInclusion(h, expectedLeaf, b.inclusion.index, b.sth.size, Siblings(b.inclusion.proof), b.sth.root);
    var incOk := leafBound && treeSizeOk && walk;
    verified := b.artifactOk && b.sthOk && incOk;
  }

  /** End to end: against the tree head of a log, a properly signed bundle verifies exactly
      when its attestation has the leaf hash of the entry at the claimed index and carries
      that entry's RFC 6962 audit path. */
  lemma BundleIffLogged<E(!new), T(!new)>(h: Combine<T>, leafHash: E -> T, entries: seq<E>, b: Bundle<E, T>)
    requires Injective(h)
    requires entries != [] && b.sth == Head(|entries|, Mth(h, Leaves(leafHash, entries)))
    ensures Verified(h, leafHash, b)
            <==> b.artifactOk && b.sthOk && |entries| <= MAX_TREE_SIZE
                 && 0 <= b.inclusion.index < |entries| && b.inclusion.treeSize == |entries|
                 && b.inclusion.leaf == leafHash(b.att) == leafHash(entries[b.inclusion.index])
                 && Siblings(b.inclusion.proof) == AuditPath(h, Leaves(leafHash, entries), b.inclusion.index)
  {
    InclusionIffAuditPath(h, Leaves(leafHash, entries), leafHash(b.att), b.inclusion.index, Siblings(b.inclusion.proof));
  }

  /** The log's own inclusion record for an entry always verifies, in any tree the 32-bit
      guard lets through, and also under the older fold over directed siblings. */
  lemma LoggedBundleVerifies<E(!new), T(!new)>(h: Combine<T>, leafHash: E -> T, entries: seq<E>, i: nat)
    requires Injective(h)
    requires i < |entries| <= MAX_TREE_SIZE
    ensures var leaves := Leaves(leafHash, entries);
            var steps := Steps(h, leaves, i);
            Verified(h, leafHash, Bundle(entries[i], true, Inclusion(i, |entries|, steps, leafHash(entries[i])),
                                         Head(|entries|, Mth(h, leaves)), true))
            && Fold(h, leaves[i], steps) == Mth(h, leaves)
  {
    var leaves := Leaves(leafHash, entries);
    var steps := Steps(h, leaves, i);
    PathIsSiblings(h, leaves, i);
    PathIsAuditPath(h, leaves, i);
    FoldAcceptsSteps(h, leaves, i);
    RootIsMth(h, leaves);
    BundleIffLogged(h, leafHash, entries,
      Bundle(entries[i], true, Inclusion(i, |entries|, steps, leafHash(entries[i])), Head(|entries|, Mth(h, leaves)), true));
  }

  /** Two heads of one growing log are always joined by the proof the log hands out, and no
      other old root and no other proof passes. */
  lemma GrowthIsProvable<E(!new), T(!new)>(h: Combine<T>, leafHash: E -> T, before: seq<E>, added: seq<E>, root1: T, proof: seq<T>)
    requires Injective(h)
    requires before != []
    ensures var leaves := Leaves(leafHash, before + added);
            Checks(h, |before|, |before + added|, root1, Mth(h, leaves), proof)
            <==> root1 == Mth(h, Leaves(leafHash, before)) && proof == Proof(h, |before|, leaves)
  {
    var leaves := Leaves(leafHash, before + added);
    assert leaves[..|before|] == Leaves(leafHash, before);
    ConsistencyIffPrefix(h, leaves, |before|, root1, proof);
  }
}
