# Updatable vector commitments: hash-tree proofs and algebraic commitments

This project models the core of an updatable vector commitment library in
Dafny. The library has two backends.

- **Hash-tree backend** (`merkle_prove.dfy`, with index arithmetic in
  `bits.dfy`). `Prove`/`ProveRec` build the authentication path of a leaf
  by walking from the root `(0, 0)` to the leaf. At each internal level they
  record the digest of the child subtree that is not on the path.
  `ProofUpdate` refreshes a stored proof after another leaf changes. It
  rewrites the single entry at the height where the two leaves' paths
  diverge, which is the bit-length of `(proof_index ^ changed_index) >> 1`.
  The hash is uninterpreted. `CommitRec` is the subtree-digest recursion of
  the backend's commit module: a leaf digest `hash(value)`, or `hash(left ++ right)`
  for an internal node. Leaf positions past the end of the value vector get
  an uninterpreted `padding` digest.
- **Algebraic backend** (`pairings_commit.dfy`, with the group in
  `curve.dfy`). `New` checks the vector length. It then commits to the
  multi-scalar product `Σ h(values[i])·generators[i]` over the first `n`
  generators. `Commitment.Update` checks the ciphersuite and then the index.
  On success it adds `(h(after) − h(before))·generators[i]` to the stored
  point in place. The map `h` (hash to field) and the ciphersuite check are
  uninterpreted.

G1 of BLS12-381 is a cyclic group of prime order r. The model therefore
writes each point as its discrete logarithm in Z_r. Point addition is
addition mod r, and scalar multiplication is multiplication mod r. This is
exact up to isomorphism, and the Fr negation and addition of the update
are modelled mod r too.

Main results:

- Proof update produces exactly the proof recomputed from scratch
  (`MerkleProve.ProofUpdateMatchesProve`, used by `MerkleProve.RefreshProof`).
- Commitment update produces exactly the commitment recomputed from scratch
  (`PairingsCommit.UpdateMatchesNew`, used by `PairingsCommit.UpdateThenRecommit`).

`prove_rec` pushes each entry after its recursive call returns, so entry 0
of a proof is the leaf-level sibling and the last entry is the root's
child (`MerkleProve.ProveEntry`).

## Model

| member | source | states |
|---|---|---|
| `MerkleProve.CommitRec` | src/veccom_merkle/prove.rs:17-21 | the digest of the subtree at (level, node) that `commit_rec` returns: at level `max_depth` the leaf's value hash (a padding digest past the end of the values), above it the hash of the left child's digest followed by the right's; `ProveEntry` and `ProveAuthenticatesLeaf` state what the proof entries are in its terms |
| `MerkleProve.ProveRec` | src/veccom_merkle/prove.rs:13-27 | the recursion below level L yields one entry per remaining internal level (`max_depth - L`), and none at the leaf level |
| `MerkleProve.Prove` | src/veccom_merkle/prove.rs:6-11 | a proof has exactly `max_depth` entries, so it is empty when `max_depth == 0` |
| `MerkleProve.ProveRecSiblings` | src/veccom_merkle/prove.rs:14-23 | started at a node on the index's path, entry j of the recursion is the digest of the sibling of `index >> j` at tree level `max_depth - j` (right child `2c+1` when the bit is 0, left child `2c` otherwise) |
| `MerkleProve.ProveEntry` | src/veccom_merkle/prove.rs:15-22 | entry j of the proof is the digest of the sibling of `index >> j`: the leaf-level sibling first and the root's child last |
| `MerkleProve.ProveVisitsPath` | src/veccom_merkle/prove.rs:10-20 | starting from `(0, 0)`, the recursion is at node `index >> (max_depth - L)` at level L; the proof's first `max_depth - L` entries are what the recursion produces from there |
| `Bits.ShrChild` | src/veccom_merkle/prove.rs:15-20 | the path node at height k is `2·(index >> (k+1)) + ((index >> k) & 1)`, the child chosen by the bit test |
| `Bits.ShrBelowPow2` | src/veccom_merkle/prove.rs:10 | an index below `2^max_depth` has the root, node 0, as its ancestor at height `max_depth` |
| `MerkleProve.ProveAuthenticatesLeaf` | src/veccom_merkle/prove.rs:13-26 | folding a leaf's digest up through its proof's `max_depth` entries gives the root digest |
| `MerkleProve.ProveIgnoresOwnValue` | src/veccom_merkle/prove.rs:30-31 | changing the value at an index leaves that index's proof unchanged, as the comment on `proof_update` says |
| `MerkleProve.CommitUpdateHelper` | src/veccom_merkle/prove.rs:41 | the digest `commit_update_helper` returns: the new leaf digest folded up `height` levels through the changed index's proof, the running digest on the side given by the index bit; `CommitUpdateHelperIsSubtree` proves it is the subtree digest with the new value in place |
| `MerkleProve.CommitRecLocal` | src/veccom_merkle/prove.rs:41 | the digest of a subtree that does not contain the changed leaf is the same before and after the change |
| `MerkleProve.CommitUpdateHelperIsSubtree` | src/veccom_merkle/prove.rs:41 | the helper folds the new leaf digest up `height` levels through the changed index's old proof, and the result is the digest of that index's height-`height` ancestor with the new value in place |
| `Bits.XorZero` | src/veccom_merkle/prove.rs:34-35 | `proof_index ^ changed_index` is zero exactly when the indices are equal |
| `Bits.ShrIsOne` | src/veccom_merkle/prove.rs:35-40 | `x >> j == 1` exactly when the loop's bit-length count of x is `j + 1` |
| `Bits.DivergesAt` | src/veccom_merkle/prove.rs:35-41 | for distinct indices, the changed index lies in the sibling subtree at height j of the proven index's path if and only if j is the bit-length of `(proof_index ^ changed_index) >> 1` |
| `Bits.DivergenceBelow` | src/veccom_merkle/prove.rs:35-41 | for distinct indices below `2^max_depth`, the update height is below `max_depth`, so the write is in bounds |
| `Bits.DivergenceHeight` | src/veccom_merkle/prove.rs:35-41 | both facts above together: the update height is in range and is the unique height whose sibling subtree contains the changed index |
| `MerkleProve.ProofUpdate` | src/veccom_merkle/prove.rs:33-43 | equal indices leave the proof untouched; otherwise the loop computes the bit-length of `(proof_index ^ changed_index) >> 1`, and only that entry is overwritten with the helper's digest; the length and all other entries are unchanged |
| `MerkleProve.ProofEntryAfterChange` | src/veccom_merkle/prove.rs:35-41 | after a change at another index, the recomputed proof's entry j equals the helper's digest when j is the update height and the old entry otherwise |
| `MerkleProve.ProofUpdateMatchesProve` | src/veccom_merkle/prove.rs:33-43 | for distinct indices, overwriting the old proof at the update height gives exactly the proof recomputed from scratch on the new values, and the update height is below `max_depth` |
| `MerkleProve.RefreshProof` | src/veccom_merkle/prove.rs:30-43 | running `ProofUpdate` on a current proof with the changed index's old proof leaves the array equal to the proof over the new values, whether or not the indices coincide |
| `Curve.SumOfProductsReduces` | src/pairings/commit.rs:30-43 | the multi-scalar product equals the integer sum `Σ scalars[i]·points[i]` reduced mod the group order |
| `Curve.IntegerSumUpdate` | src/pairings/commit.rs:69-87 | replacing scalar i by s changes the integer sum by `points[i]·(s − scalars[i])` |
| `Curve.FrDifference` | src/pairings/commit.rs:69-71 | the multiplier built by `negate` then `add_assign` is `h(after) − h(before)` mod r |
| `Curve.SumOfProductsUpdate` | src/pairings/commit.rs:69-87 | linearity: replacing scalar i by s gives the old sum plus `(s − scalars[i])·points[i]` |
| `Curve.AddZeroMultiple` | src/pairings/commit.rs:69-87 | adding `(−a + a)·p` to a point leaves it unchanged |
| `PairingsCommit.ScalarsEntries` | src/pairings/commit.rs:25-28 | the scalar list `new` builds has one entry per value and keeps their order: entry i is `hash_to_field(values[i])` |
| `PairingsCommit.ScalarsUpdate` | src/pairings/commit.rs:25-28 | replacing value i by w changes the scalar list of `new` only at i, where it becomes `hash_to_field(w)` |
| `PairingsCommit.New` | src/pairings/commit.rs:11-49 | `new` returns `ERR_INVALID_VALUE` exactly when `values.len() != n`, and on success tags the result with the parameters' ciphersuite; a supported ciphersuite is a precondition, because the Rust code asserts it |
| `PairingsCommit.NewUsesFirstNGenerators` | src/pairings/commit.rs:30-43 | only the first n generators enter the commitment, so extra generators change nothing |
| `PairingsCommit.UpdateDelta` | src/pairings/commit.rs:69-85 | the point `update` adds: the multiplier built by `negate` then `add_assign` is `h(after) − h(before)` mod r, and `res` is that multiplier times `generators[changed_index]` |
| `PairingsCommit.UpdateMatchesNew` | src/pairings/commit.rs:69-87 | adding `(h(w) − h(values[i]))·generators[i]` to `new(values)` gives exactly `new(values[i := w])` |
| `PairingsCommit.UpdateSameValueIsIdentity` | src/pairings/commit.rs:69-87 | an update with `value_before == value_after` adds the identity, so the commitment is unchanged |
| `PairingsCommit.Commitment.constructor` | src/pairings/commit.rs:45-48 | the struct holds the given ciphersuite and point |
| `PairingsCommit.Commitment.Update` | src/pairings/commit.rs:51-89 | a ciphersuite mismatch or an unsupported suite gives `ERR_CIPHERSUITE`; otherwise `changed_index >= n` gives `ERR_INVALID_INDEX`; the checks run in that order; on error the object is unchanged; on success the point gains `(h(after) − h(before))·generators[changed_index]` and the ciphersuite is kept |
| `PairingsCommit.UpdateThenRecommit` | src/run_veccom_pairings.rs:54-58 | updating an object that holds `new(values)` at i to w leaves it holding `new(values[i := w])`: the commitment half of what the demo's check at line 58 relies on |

## Left out

- `commit_rec` and `commit_update_helper` live in the hash-tree backend's commit module, which is not part of this model. `CommitRec` gives the subtree digest as a recursion. `CommitUpdateHelper` folds the new leaf digest up through the changed index's authentication path. Both exact byte layouts, including any domain separation, are not modelled.
- `CommitRec` decides whether a leaf exists by comparing with the length of the value vector. The lemmas assume that length equals `n`. Digests of positions past the end are an uninterpreted `padding` function, and no padding rule is invented.
- `ProofUpdate` takes no `params`. The model's helper does not need the tree depth, and the Rust code uses `params` only to pass it on.
- Indices and shifts are unbounded naturals. `usize` width is not modelled: a shift of 64 or more, or an index of `2^64` or more, does not arise in the model.
- `Prove` requires `index < 2^max_depth`. The Rust code validates nothing, as its TODO says. For larger indices it would silently prove the leaf given by the low `max_depth` bits.
- `ProofUpdate` requires the update height to be inside both `proof` and the changed index's proof. The Rust code would panic on an out-of-bounds write there.
- SHA-256, `hash_to_field_veccom`, `hash_to_field_repr_veccom` and `check_ciphersuite` are foreign or not shown. They are uninterpreted function parameters.
- `new` hashes values with `hash_to_field_repr_veccom` and passes the raw limbs to `sum_of_products`; `update` hashes with `hash_to_field_veccom`, which returns an `Fr`. The model has one map `hashToField` for both, so it assumes that `hash_to_field_veccom(x)` is the field element whose representation is `hash_to_field_repr_veccom(x)` reduced mod r. `UpdateMatchesNew` and `UpdateThenRecommit` hold in the program only under that identification.
- BLS12-381 arithmetic (`sum_of_products`, `sum_of_products_precomp_256`, `mul`, `mul_precomp_3`, `mul_precomp_256`, `add_assign`) is foreign. Each point is modelled by its discrete logarithm in Z_r, so the curve and field encodings are not modelled.
- Precomputation tables only change speed: their branches compute the same sums. They are not modelled, and `ProverParams` has no `precomp` field.
- Error strings are modelled as the three-constant `Error` datatype.
- Pairing-based proofs, verification, parameter generation, the tree-retaining variants, the hash-tree commit update and proof byte encodings are outside the modelled core.
- The demo driver and the benchmark harnesses print, time and pick random indices. They contain no logic of their own. `UpdateThenRecommit` proves the commitment half of what src/run_veccom_pairings.rs:58 relies on. The demo calls the free function `commit_update` at line 54, not `Commitment::update`; line 58 checks the old proof for the updated index against the new commitment and value; the pairing check itself is not modelled.
