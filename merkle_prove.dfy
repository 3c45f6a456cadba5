/** Hash-tree backend: authentication-path generation and proof update.

    The tree has depth `maxDepth`; the node at tree level L (the root is
    at level 0, the leaves at level maxDepth) and position c has children
    2c and 2c + 1 at level L + 1.  Height is counted from the leaves: the
    node at height k on the path of leaf `index` is `index >> k`.  A proof
    for `index` is the list of sibling hashes along that path, the
    leaf-level sibling first. */
module MerkleProve {
  import opened Bits
  import opened Blobs

  /** Public parameters of the hash-tree backend. */
  datatype Params = Params(maxDepth: nat, n: nat)
  {
    /** The 2^maxDepth leaves of the tree hold the n values. */
    predicate Valid()
    {
      n <= Pow2(maxDepth)
    }
  }

  /** The hash primitive, left uninterpreted: `hash` is the collision-resistant
      digest applied to leaf values and to concatenated child digests;
      `padding(c)` is the digest of leaf position c when c lies past the end
      of the value vector. */
  datatype Hasher = Hasher(hash: Blob -> Blob, padding: nat -> Blob)

  /** Digest of the subtree rooted at (level, node): a leaf's value hash at
      level maxDepth, otherwise the hash of the two child digests
      concatenated, left first.  This is the tree-hash recursion the
      backend's commit module performs. */
  function CommitRec(p: Params, h: Hasher, values: seq<Blob>, level: nat, node: nat): Blob
    requires level <= p.maxDepth
    decreases p.maxDepth - level
  {
    if level == p.maxDepth then
      if node < |values| then h.hash(values[node]) else h.padding(node)
    else
      h.hash(CommitRec(p, h, values, level + 1, 2 * node)
             + CommitRec(p, h, values, level + 1, 2 * node + 1))
  }

  /** The recursion of `prove`: below an internal node, descend towards
      the leaf chosen by the next bit of the index, then append the digest
      of the child not taken.  The leaf level contributes nothing. */
  function ProveRec(p: Params, h: Hasher, values: seq<Blob>, level: nat, node: nat, index: nat): (r: seq<Blob>)
    requires level <= p.maxDepth
    ensures |r| == p.maxDepth - level
    decreases p.maxDepth - level
  {
    if level < p.maxDepth then
      if Bit(index, p.maxDepth - level - 1) == 0 then
        ProveRec(p, h, values, level + 1, 2 * node, index)
          + [CommitRec(p, h, values, level + 1, 2 * node + 1)]
      else
        ProveRec(p, h, values, level + 1, 2 * node + 1, index)
          + [CommitRec(p, h, values, level + 1, 2 * node)]
    else
      []
  }

  /** The authentication path of leaf `index`, built from the root (0, 0):
      one entry per internal level, so maxDepth entries (none when the tree
      is a single leaf). */
  function Prove(p: Params, h: Hasher, values: seq<Blob>, index: nat): (r: seq<Blob>)
    requires index < Pow2(p.maxDepth)
    ensures |r| == p.maxDepth
  {
    ProveRec(p, h, values, 0, 0, index)
  }

  /** Entry j of the proof of `index` is the digest of the sibling of the
      node `index >> j`, a subtree at tree level maxDepth - j: the
      leaf-level sibling comes first, the root's child last. */
  lemma ProveEntry(p: Params, h: Hasher, values: seq<Blob>, index: nat, j: nat)
    requires index < Pow2(p.maxDepth) && j < p.maxDepth
    ensures Prove(p, h, values, index)[j] == CommitRec(p, h, values, p.maxDepth - j, Sibling(Shr(index, j)))
  {
    ShrBelowPow2(index, p.maxDepth);
    ProveRecSiblings(p, h, values, 0, 0, index);
  }

  /** Entry j of the recursion started at a node on the path of `index`
      is the digest of the sibling of `index >> j`, at tree level
      maxDepth - j. */
  lemma {:induction false} ProveRecSiblings(p: Params, h: Hasher, values: seq<Blob>, level: nat, node: nat, index: nat)
    requires level <= p.maxDepth
    requires node == Shr(index, p.maxDepth - level)
    ensures forall j :: 0 <= j < p.maxDepth - level ==>
              ProveRec(p, h, values, level, node, index)[j]
                == CommitRec(p, h, values, p.maxDepth - j, Sibling(Shr(index, j)))
    decreases p.maxDepth - level
  {
    if level < p.maxDepth {
      var k := p.maxDepth - level - 1;
      ShrChild(index, k);
      var child := Shr(index, k);
      ProveRecSiblings(p, h, values, level + 1, child, index);
      if Bit(index, k) == 0 {
        assert child == 2 * node && Sibling(child) == 2 * node + 1;
      } else {
        assert child == 2 * node + 1 && Sibling(child) == 2 * node;
      }
    }
  }

  /** Starting from the root (0, 0), the recursion reaches level L at the
      node `index >> (maxDepth - L)`: the first maxDepth - L entries of the
      proof are what the recursion produces from there. */
  lemma {:induction false} ProveVisitsPath(p: Params, h: Hasher, values: seq<Blob>, index: nat, level: nat)
    requires index < Pow2(p.maxDepth)
    requires level <= p.maxDepth
    ensures Prove(p, h, values, index)[..p.maxDepth - level]
              == ProveRec(p, h, values, level, Shr(index, p.maxDepth - level), index)
    decreases level
  {
    var d := p.maxDepth;
    if level == 0 {
      ShrBelowPow2(index, d);
    } else {
      var k := d - level;
      var parent := Shr(index, k + 1);
      ProveVisitsPath(p, h, values, index, level - 1);
      ProveRecStep(p, h, values, level - 1, parent, index);
      ShrChild(index, k);
      var whole := Prove(p, h, values, index);
      var above := ProveRec(p, h, values, level - 1, parent, index);
      assert whole[..k + 1] == above;
      assert above[..k] == ProveRec(p, h, values, level, Shr(index, k), index);
      assert whole[..k] == whole[..k + 1][..k];
    }
  }

  /** One step of the recursion: what it produces below (level, node) starts
      with what it produces below the child selected by the index bit. */
  lemma ProveRecStep(p: Params, h: Hasher, values: seq<Blob>, level: nat, node: nat, index: nat)
    requires level < p.maxDepth
    ensures ProveRec(p, h, values, level, node, index)[..p.maxDepth - level - 1]
              == ProveRec(p, h, values, level + 1, 2 * node + Bit(index, p.maxDepth - level - 1), index)
  {
  }

  /** Hash of the subtree at height `height` on the path of `changedIndex`
      after its leaf takes `valueAfter`: start from the new leaf digest and
      fold upwards through the first `height` entries of the
      authentication path of `changedIndex`, placing the running digest
      on the side given by the index bit at each height. */
  function CommitUpdateHelper(h: Hasher, changedIndex: nat, changedIndexProof: seq<Blob>, valueAfter: Blob, height: nat): Blob
    requires height <= |changedIndexProof|
  {
    if height == 0 then
      h.hash(valueAfter)
    else
      var below := CommitUpdateHelper(h, changedIndex, changedIndexProof, valueAfter, height - 1);
      var sibling := changedIndexProof[height - 1];
      if Bit(changedIndex, height - 1) == 0 then h.hash(below + sibling) else h.hash(sibling + below)
  }

  /** A subtree that does not contain leaf c is unaffected by a change of c. */
  lemma {:induction false} CommitRecLocal(p: Params, h: Hasher, values: seq<Blob>, c: nat, w: Blob, level: nat, node: nat)
    requires level <= p.maxDepth
    requires c < |values|
    requires Shr(c, p.maxDepth - level) != node
    ensures CommitRec(p, h, values[c := w], level, node) == CommitRec(p, h, values, level, node)
    decreases p.maxDepth - level
  {
    if level < p.maxDepth {
      ShrChild(c, p.maxDepth - level - 1);
      CommitRecLocal(p, h, values, c, w, level + 1, 2 * node);
      CommitRecLocal(p, h, values, c, w, level + 1, 2 * node + 1);
    }
  }

  /** Folding the new leaf digest up through c's authentication path gives
      the subtree digest at that height with c's value substituted. */
  lemma {:induction false} CommitUpdateHelperIsSubtree(p: Params, h: Hasher, values: seq<Blob>, c: nat, w: Blob, height: nat)
    requires c < |values| && c < Pow2(p.maxDepth)
    requires height <= p.maxDepth
    ensures CommitUpdateHelper(h, c, Prove(p, h, values, c), w, height)
              == CommitRec(p, h, values[c := w], p.maxDepth - height, Shr(c, height))
    decreases height
  {
    if height > 0 {
      var k := height - 1;
      var path := Prove(p, h, values, c);
      CommitUpdateHelperIsSubtree(p, h, values, c, w, k);
      ShrChild(c, k);
      var child := Shr(c, k);
      ProveEntry(p, h, values, c, k);
      CommitRecLocal(p, h, values, c, w, p.maxDepth - k, Sibling(child));
    }
  }

  /** The proof of leaf c is an authentication path: folding the leaf's
      digest up through all maxDepth entries gives the root digest. */
  lemma ProveAuthenticatesLeaf(p: Params, h: Hasher, values: seq<Blob>, c: nat)
    requires p.Valid() && |values| == p.n && c < p.n
    ensures CommitUpdateHelper(h, c, Prove(p, h, values, c), values[c], p.maxDepth)
              == CommitRec(p, h, values, 0, 0)
  {
    CommitUpdateHelperIsSubtree(p, h, values, c, values[c], p.maxDepth);
    ShrBelowPow2(c, p.maxDepth);
    assert values[c := values[c]] == values;
  }

  /** A proof does not depend on the value it attests: changing the value
      at `index` leaves the proof for `index` as it was. */
  lemma ProveIgnoresOwnValue(p: Params, h: Hasher, values: seq<Blob>, index: nat, w: Blob)
    requires p.Valid() && |values| == p.n && index < p.n
    ensures Prove(p, h, values[index := w], index) == Prove(p, h, values, index)
  {
    var before := Prove(p, h, values, index);
    var after := Prove(p, h, values[index := w], index);
    forall j | 0 <= j < p.maxDepth
      ensures after[j] == before[j]
    {
      ProveEntry(p, h, values, index, j);
      ProveEntry(p, h, values[index := w], index, j);
      CommitRecLocal(p, h, values, index, w, p.maxDepth - j, Sibling(Shr(index, j)));
    }
  }

  /** The height `proof_update` rewrites: the bit-length of
      (proofIndex ^ changedIndex) >> 1. */
  function UpdateHeight(proofIndex: nat, changedIndex: nat): nat
  {
    BitLength(Xor(proofIndex, changedIndex) / 2)
  }

  /** Updating the proof of `proofIndex` after the value at `changedIndex`
      changes: when the indices differ, overwrite only the entry at their
      divergence height with the recomputed sibling digest; when they are
      equal, leave the proof alone. */
  method ProofUpdate(h: Hasher, proof: array<Blob>, proofIndex: nat, changedIndex: nat,
                     changedIndexProof: seq<Blob>, valueAfter: Blob)
    requires proofIndex != changedIndex ==>
               UpdateHeight(proofIndex, changedIndex) < proof.Length
               && UpdateHeight(proofIndex, changedIndex) <= |changedIndexProof|
    modifies proof
    ensures proofIndex == changedIndex ==> proof[..] == old(proof[..])
    ensures proofIndex != changedIndex ==>
              var height := UpdateHeight(proofIndex, changedIndex);
              proof[..] == old(proof[..])[height := CommitUpdateHelper(h, changedIndex, changedIndexProof, valueAfter, height)]
  {
    if proofIndex != changedIndex {
      var pathDiff: nat := Xor(proofIndex, changedIndex) / 2;
      var updateHeight: nat := 0;
      while pathDiff != 0
        invariant updateHeight + BitLength(pathDiff) == UpdateHeight(proofIndex, changedIndex)
        decreases pathDiff
      {
        updateHeight := updateHeight + 1;
        pathDiff := pathDiff / 2;
      }
      proof[updateHeight] := CommitUpdateHelper(h, changedIndex, changedIndexProof, valueAfter, updateHeight);
    }
  }

  /** Proof-update correctness: for distinct indices, rewriting the entry at
      the divergence height from the changed index's old authentication path
      turns the old proof of `proofIndex` into exactly the proof recomputed
      from scratch over the new values.  The divergence height is in range,
      and it is the only height whose sibling subtree contains the changed
      leaf. */
  lemma ProofUpdateMatchesProve(p: Params, h: Hasher, values: seq<Blob>, proofIndex: nat, changedIndex: nat, w: Blob)
    requires p.Valid() && |values| == p.n
    requires proofIndex < p.n && changedIndex < p.n && proofIndex != changedIndex
    ensures UpdateHeight(proofIndex, changedIndex) < p.maxDepth
    ensures forall j :: 0 <= j < p.maxDepth ==>
              (Shr(changedIndex, j) == Sibling(Shr(proofIndex, j)) <==> j == UpdateHeight(proofIndex, changedIndex))
    ensures var height := UpdateHeight(proofIndex, changedIndex);
            Prove(p, h, values, proofIndex)[height := CommitUpdateHelper(h, changedIndex, Prove(p, h, values, changedIndex), w, height)]
              == Prove(p, h, values[changedIndex := w], proofIndex)
  {
    var d := p.maxDepth;
    var height := UpdateHeight(proofIndex, changedIndex);
    DivergenceHeight(proofIndex, changedIndex, d);
    var before := Prove(p, h, values, proofIndex);
    var helper := CommitUpdateHelper(h, changedIndex, Prove(p, h, values, changedIndex), w, height);
    var after := Prove(p, h, values[changedIndex := w], proofIndex);
    forall j | 0 <= j < d
      ensures before[height := helper][j] == after[j]
    {
      ProofEntryAfterChange(p, h, values, proofIndex, changedIndex, w, j);
    }
  }

  /** One entry of the proof of `proofIndex` after `changedIndex` takes `w`:
      the recomputed helper at the divergence height, the old entry elsewhere. */
  lemma ProofEntryAfterChange(p: Params, h: Hasher, values: seq<Blob>, proofIndex: nat, changedIndex: nat, w: Blob, j: nat)
    requires p.Valid() && |values| == p.n
    requires proofIndex < p.n && changedIndex < p.n && proofIndex != changedIndex
    requires j < p.maxDepth
    ensures Prove(p, h, values[changedIndex := w], proofIndex)[j]
              == if j == UpdateHeight(proofIndex, changedIndex)
                 then CommitUpdateHelper(h, changedIndex, Prove(p, h, values, changedIndex), w, j)
                 else Prove(p, h, values, proofIndex)[j]
  {
    var d := p.maxDepth;
    var sibling := Sibling(Shr(proofIndex, j));
    ProveEntry(p, h, values[changedIndex := w], proofIndex, j);
    DivergesAt(proofIndex, changedIndex, j);
    if j == UpdateHeight(proofIndex, changedIndex) {
      CommitUpdateHelperIsSubtree(p, h, values, changedIndex, w, j);
    } else {
      ProveEntry(p, h, values, proofIndex, j);
      CommitRecLocal(p, h, values, changedIndex, w, d - j, sibling);
    }
  }

  /** A holder of the proof for `proofIndex` who learns that `changedIndex`
      now holds `w` runs `ProofUpdate` with the changed index's old proof
      and ends up with the proof recomputed over the new values. */
  method RefreshProof(p: Params, h: Hasher, values: seq<Blob>, proof: array<Blob>,
                      proofIndex: nat, changedIndex: nat, w: Blob)
    requires p.Valid() && |values| == p.n
    requires proofIndex < p.n && changedIndex < p.n
    requires proof[..] == Prove(p, h, values, proofIndex)
    modifies proof
    ensures proof[..] == Prove(p, h, values[changedIndex := w], proofIndex)
  {
    var changedIndexProof := Prove(p, h, values, changedIndex);
    if proofIndex != changedIndex {
      ProofUpdateMatchesProve(p, h, values, proofIndex, changedIndex, w);
    } else {
      ProveIgnoresOwnValue(p, h, values, proofIndex, w);
    }
    ProofUpdate(h, proof, proofIndex, changedIndex, changedIndexProof, w);
  }
}
