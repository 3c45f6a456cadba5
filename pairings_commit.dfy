/** Algebraic backend: commitment creation and in-place commitment update.

    A commitment to values v_0 .. v_{n-1} is the G1 point
    h(v_0)·g_0 + ... + h(v_{n-1})·g_{n-1}, where g_i are the first n
    generators of the prover parameters and h maps a byte string into Fr.
    Because this is linear in each scalar, changing one value only needs
    one scalar multiplication of the matching generator. */
module PairingsCommit {
  import opened Wrappers
  import opened Blobs
  import opened Curve

  /** Ciphersuite identifier (a `u8`). */
  type Ciphersuite = Byte

  /** The error strings of the Rust library: ERR_CIPHERSUITE, ERR_INVALID_VALUE,
      ERR_INVALID_INDEX. */
  datatype Error = ErrCiphersuite | ErrInvalidValue | ErrInvalidIndex

  /** The primitives the backend calls but does not define, left
      uninterpreted: `hashToField` maps a value to its scalar,
      `checkCiphersuite` tells whether a ciphersuite id is supported. */
  datatype Oracles = Oracles(hashToField: Blob -> Fr, checkCiphersuite: Ciphersuite -> bool)

  /** Prover parameters: capacity n, ciphersuite and generators (n or 2n of
      them).  The optional precomputation tables only speed up the same
      sums and are not modelled. */
  datatype ProverParams = ProverParams(ciphersuite: Ciphersuite, n: nat, generators: seq<G1>)
  {
    /** There are at least n generators, so `generators[0..n]` exists. */
    predicate Valid()
    {
      n <= |generators|
    }
  }

  /** The value of a `Commitment` object (see `Commitment.Data`): its
      ciphersuite tag and G1 point.  `New` is pure and returns this value;
      the class below holds it in mutable fields for `Update`. */
  datatype CommitmentData = CommitmentData(ciphersuite: Ciphersuite, commit: G1)

  /** The scalars h(values[i]), in order. */
  function Scalars(o: Oracles, values: seq<Blob>): seq<Fr>
  {
    if |values| == 0 then []
    else Scalars(o, values[..|values| - 1]) + [o.hashToField(values[|values| - 1])]
  }

  /** One scalar per value, in order: entry i is h(values[i]). */
  lemma {:induction false} ScalarsEntries(o: Oracles, values: seq<Blob>)
    ensures |Scalars(o, values)| == |values|
    ensures forall i :: 0 <= i < |values| ==> Scalars(o, values)[i] == o.hashToField(values[i])
    decreases |values|
  {
    if |values| > 0 {
      ScalarsEntries(o, values[..|values| - 1]);
    }
  }

  /** Replacing one value replaces exactly its scalar: the scalar list
      of the updated vector is the old list with entry i set to h(w). */
  lemma ScalarsUpdate(o: Oracles, values: seq<Blob>, i: nat, w: Blob)
    requires i < |values|
    ensures |Scalars(o, values)| == |values|
    ensures Scalars(o, values[i := w]) == Scalars(o, values)[i := o.hashToField(w)]
  {
    ScalarsEntries(o, values);
    ScalarsEntries(o, values[i := w]);
  }

  /** `Commitment::new`: a supported ciphersuite is asserted, a value
      vector of the wrong length is refused with ErrInvalidValue, and
      otherwise the commitment is the multi-scalar product of the first n
      generators with the value scalars, tagged with the parameters'
      ciphersuite. */
  function New(pp: ProverParams, o: Oracles, values: seq<Blob>): (r: Result<CommitmentData, Error>)
    requires o.checkCiphersuite(pp.ciphersuite)
    requires pp.Valid()
    ensures r.Err? <==> |values| != pp.n
    ensures r.Err? ==> r.error == ErrInvalidValue
    ensures r.Ok? ==> r.value.ciphersuite == pp.ciphersuite
  {
    if pp.n != |values| then
      Err(ErrInvalidValue)
    else
      ScalarsEntries(o, values);
      Ok(CommitmentData(pp.ciphersuite, SumOfProducts(pp.generators[..pp.n], Scalars(o, values))))
  }

  /** Only the first n generators enter the commitment: parameters that
      carry more generators (2n for cross-term proofs) commit identically. */
  lemma NewUsesFirstNGenerators(pp: ProverParams, o: Oracles, values: seq<Blob>, extra: seq<G1>)
    requires o.checkCiphersuite(pp.ciphersuite) && pp.Valid()
    ensures New(pp.(generators := pp.generators + extra), o, values) == New(pp, o, values)
  {
    assert (pp.generators + extra)[..pp.n] == pp.generators[..pp.n];
  }

  /** The point `update` adds: the multiplier built by negating h(before)
      and adding h(after) is h(after) - h(before) in Fr, and the delta is
      that difference times g_i. */
  function UpdateDelta(pp: ProverParams, o: Oracles, changedIndex: nat, valueBefore: Blob, valueAfter: Blob): (d: G1)
    requires changedIndex < |pp.generators|
    ensures d == Mul(pp.generators[changedIndex], (o.hashToField(valueAfter) - o.hashToField(valueBefore)) % Order)
  {
    FrDifference(o.hashToField(valueBefore), o.hashToField(valueAfter));
    Mul(pp.generators[changedIndex], FrAdd(FrNeg(o.hashToField(valueBefore)), o.hashToField(valueAfter)))
  }

  /** Update/recompute equivalence: adding the update delta to the
      commitment of `values` gives exactly the commitment of `values` with
      entry i replaced by w. */
  lemma UpdateMatchesNew(pp: ProverParams, o: Oracles, values: seq<Blob>, i: nat, w: Blob)
    requires o.checkCiphersuite(pp.ciphersuite) && pp.Valid()
    requires |values| == pp.n && i < pp.n
    ensures New(pp, o, values).Ok? && New(pp, o, values[i := w]).Ok?
    ensures New(pp, o, values[i := w]).value
              == CommitmentData(pp.ciphersuite,
                                Add(New(pp, o, values).value.commit, UpdateDelta(pp, o, i, values[i], w)))
  {
    var gens := pp.generators[..pp.n];
    var scalars := Scalars(o, values);
    ScalarsEntries(o, values);
    ScalarsUpdate(o, values, i, w);
    SumOfProductsUpdate(gens, scalars, i, o.hashToField(w));
  }

  /** An update whose before and after values coincide adds the identity. */
  lemma UpdateSameValueIsIdentity(pp: ProverParams, o: Oracles, c: G1, i: nat, v: Blob)
    requires i < |pp.generators|
    ensures Add(c, UpdateDelta(pp, o, i, v, v)) == c
  {
    AddZeroMultiple(c, pp.generators[i], o.hashToField(v));
  }

  /** A commitment, updated in place by `Update`. */
  class Commitment {
    var ciphersuite: Ciphersuite
    var commit: G1

    /** The struct literal { ciphersuite, commit }. */
    constructor (ciphersuite: Ciphersuite, commit: G1)
      ensures Data() == CommitmentData(ciphersuite, commit)
    {
      this.ciphersuite := ciphersuite;
      this.commit := commit;
    }

    function Data(): CommitmentData
      reads this
    {
      CommitmentData(ciphersuite, commit)
    }

    /** `Commitment::update`: refuse a ciphersuite that differs from the
        parameters' or is unsupported (ErrCiphersuite), then an index
        outside the capacity (ErrInvalidIndex), in that order, leaving the
        commitment untouched; otherwise add (h(after) - h(before))·g_i to
        the point and keep the ciphersuite. */
    method Update(pp: ProverParams, o: Oracles, changedIndex: nat, valueBefore: Blob, valueAfter: Blob)
      returns (r: Outcome<Error>)
      requires pp.Valid()
      modifies this
      ensures (r == Fail(ErrCiphersuite))
                <==> (old(ciphersuite) != pp.ciphersuite || !o.checkCiphersuite(pp.ciphersuite))
      ensures (r == Fail(ErrInvalidIndex))
                <==> (old(ciphersuite) == pp.ciphersuite && o.checkCiphersuite(pp.ciphersuite)
                      && pp.n <= changedIndex)
      ensures (r.Pass?)
                <==> (old(ciphersuite) == pp.ciphersuite && o.checkCiphersuite(pp.ciphersuite)
                      && changedIndex < pp.n)
      ensures r.Fail? ==> Data() == old(Data())
      ensures r.Pass? ==>
                Data() == CommitmentData(old(ciphersuite),
                                         Add(old(commit), UpdateDelta(pp, o, changedIndex, valueBefore, valueAfter)))
    {
      if ciphersuite != pp.ciphersuite {
        return Fail(ErrCiphersuite);
      }
      if !o.checkCiphersuite(pp.ciphersuite) {
        return Fail(ErrCiphersuite);
      }
      if pp.n <= changedIndex {
        return Fail(ErrInvalidIndex);
      }
      var multiplier := o.hashToField(valueBefore);
      multiplier := FrNeg(multiplier);
      multiplier := FrAdd(multiplier, o.hashToField(valueAfter));
      var res := Mul(pp.generators[changedIndex], multiplier);
      commit := Add(commit, res);
      r := Pass;
    }
  }

  /** Updating the commitment of `values` at i to w leaves the object
      holding the commitment of the new vector, the fact a verifier relies
      on when it checks the new commitment against the new value. */
  method UpdateThenRecommit(pp: ProverParams, o: Oracles, c: Commitment, values: seq<Blob>, i: nat, w: Blob)
    requires o.checkCiphersuite(pp.ciphersuite) && pp.Valid()
    requires |values| == pp.n && i < pp.n
    requires New(pp, o, values) == Ok(c.Data())
    modifies c
    ensures New(pp, o, values[i := w]) == Ok(c.Data())
  {
    UpdateMatchesNew(pp, o, values, i, w);
    ghost var expected := New(pp, o, values[i := w]).value;
    var r := c.Update(pp, o, i, values[i], w);
    assert c.Data() == expected;
  }
}
