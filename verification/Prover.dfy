/** crates/prover-dev: the spend statement C0-C8, the development prover and its verifier. */
module Prover {
  import opened Bytes
  import opened Hashing
  import opened Interfaces
  import opened Notes
  import opened Merkle
  import opened Tree
  import opened Sorting

  datatype InputWitness = InputWitness(note: Note, path: MerklePath, isDummy: bool)

  datatype SpendWitness = SpendWitness(
    spenderNk: Digest,
    spenderAddrTag: Digest,
    inputs: seq<InputWitness>,
    outputs: seq<Note>,
    mintValue: u64,
    bindingDigest: Digest)

  /** The messages of `Unsatisfied`, one constructor each. */
  datatype Violation =
    | WitnessArity | PublicArity | BindingMismatch | DummyValue | InputRange | Membership | Ownership
    | NullifierMismatch | OutputRange | CommitmentMismatch | RhoInvalid | MintRange | Imbalance

  // ---------- canonical order of the inputs ----------

  /** The stable sort of `canonicalize`, ascending by nullifier. */
  function SortInputs(nk: Digest, inputs: seq<InputWitness>): seq<InputWitness> {
    Sort((x: InputWitness, y: InputWitness) => Less(x.note.Nullifier(nk), y.note.Nullifier(nk)), inputs)
  }

  function Canonicalize(w: SpendWitness): SpendWitness { w.(inputs := SortInputs(w.spenderNk, w.inputs)) }

  /** Canonicalizing touches the inputs only. */
  lemma CanonicalKeeps(w: SpendWitness)
    ensures var c := Canonicalize(w);
            c.spenderNk == w.spenderNk && c.spenderAddrTag == w.spenderAddrTag && c.outputs == w.outputs
            && c.mintValue == w.mintValue && c.bindingDigest == w.bindingDigest
  {
  }

  lemma NotLessTransitive(a: Digest, b: Digest, c: Digest)
    requires !Less(a, b) && !Less(b, c)
    ensures !Less(a, c)
  {
    hide Less;
    LessTrichotomy(a, b);
    LessTrichotomy(b, c);
    if Less(a, c) && a != b {
      LessTransitive(b, a, c);
    }
  }

  /** Canonicalizing puts the nullifiers in ascending order and keeps every input. */
  lemma SortedInputs(nk: Digest, inputs: seq<InputWitness>)
    ensures var sorted := SortInputs(nk, inputs);
            && |sorted| == |inputs| && multiset(sorted) == multiset(inputs)
            && forall i, j :: 0 <= i < j < |sorted| ==>
                 !Less(sorted[j].note.Nullifier(nk), sorted[i].note.Nullifier(nk))
  {
    hide Less, HashParts;
    var before := (x: InputWitness, y: InputWitness) => Less(x.note.Nullifier(nk), y.note.Nullifier(nk));
    forall a, b | before(a, b)
      ensures !before(b, a)
    {
      LessTrichotomy(a.note.Nullifier(nk), b.note.Nullifier(nk));
    }
    forall a, b, c | !before(a, b) && !before(b, c)
      ensures !before(a, c)
    {
      NotLessTransitive(a.note.Nullifier(nk), b.note.Nullifier(nk), c.note.Nullifier(nk));
    }
    SortSorts(before, inputs);
    var sorted := SortInputs(nk, inputs);
    assert sorted == Sort(before, inputs);
    forall i, j | 0 <= i < j < |sorted|
      ensures !Less(sorted[j].note.Nullifier(nk), sorted[i].note.Nullifier(nk))
    {
      assert !before(sorted[j], sorted[i]);
    }
  }

  // ---------- public inputs ----------

  function InputNullifiers(nk: Digest, inputs: seq<InputWitness>): (nfs: seq<Nullifier>)
    ensures |nfs| == |inputs| && forall i :: 0 <= i < |nfs| ==> nfs[i] == inputs[i].note.Nullifier(nk)
  {
    seq(|inputs|, i requires 0 <= i < |inputs| => inputs[i].note.Nullifier(nk))
  }

  function PublicInputs(w: SpendWitness, anchor: Anchor): SpendPublicInputs {
    SpendPublicInputs(anchor, InputNullifiers(w.spenderNk, w.inputs), NoteCommitments(w.outputs),
                      w.bindingDigest, w.mintValue)
  }

  // ---------- the spend statement ----------

  predicate InputHolds(w: SpendWitness, pi: SpendPublicInputs, i: nat)
    requires i < |w.inputs| && i < |pi.nullifiers|
  {
    var input := w.inputs[i];
    && (input.isDummy ==> input.note.value == 0)
    && input.note.value < MAX_MONEY
    && (!input.isDummy ==>
          PathVerifies(input.note.Commitment(), input.path, pi.anchor.root) && input.note.addrTag == w.spenderAddrTag)
    && input.note.Nullifier(w.spenderNk) == pi.nullifiers[i]
  }

  predicate OutputHolds(w: SpendWitness, pi: SpendPublicInputs, i: nat)
    requires i < |w.outputs| && i < |pi.commitments| && i < 256 && |pi.nullifiers| > 0
  {
    var out := w.outputs[i];
    && out.value < MAX_MONEY
    && out.Commitment() == pi.commitments[i]
    && (w.mintValue == 0 ==> out.rho == RhoTransfer(pi.nullifiers[0], i as byte))
  }

  function InputValue(inputs: seq<InputWitness>): nat {
    if inputs == [] then 0 else InputValue(inputs[..|inputs| - 1]) + inputs[|inputs| - 1].note.value
  }

  function TotalValue(notes: seq<Note>): nat {
    if notes == [] then 0 else TotalValue(notes[..|notes| - 1]) + notes[|notes| - 1].value
  }

  /** Constraints C0 to C8 as one condition. The witness's own mint value enters the balance; nothing
      compares it with the public one. */
  predicate SpendStatement(w: SpendWitness, pi: SpendPublicInputs) {
    && |w.inputs| == |pi.nullifiers| == TX_INPUTS
    && |w.outputs| == |pi.commitments| == TX_OUTPUTS
    && pi.bindingDigest == w.bindingDigest
    && (forall i :: 0 <= i < TX_INPUTS ==> InputHolds(w, pi, i))
    && (forall i :: 0 <= i < TX_OUTPUTS ==> OutputHolds(w, pi, i))
    && w.mintValue < MAX_MONEY
    && InputValue(w.inputs) + w.mintValue == TotalValue(w.outputs)
  }

  /** The statement balances against the public mint value exactly when the witness repeats it, which
      nothing checks; pairs built by `public_inputs` always do. */
  lemma BalanceAgainstPublicMint(w: SpendWitness, pi: SpendPublicInputs)
    requires SpendStatement(w, pi)
    ensures InputValue(w.inputs) + pi.mintValue == TotalValue(w.outputs) <==> w.mintValue == pi.mintValue
    ensures forall a: Anchor :: pi == PublicInputs(w, a) ==>
              InputValue(w.inputs) + pi.mintValue == TotalValue(w.outputs)
  {
  }

  lemma PairValue(a: InputWitness, b: InputWitness)
    ensures InputValue([a, b]) == a.note.value + b.note.value
  {
    assert [a, b][..1] == [a] && [a][..0] == [];
    assert InputValue([a]) == InputValue([]) + a.note.value;
  }

  lemma PairTotal(a: Note, b: Note)
    ensures TotalValue([a, b]) == a.value + b.value
  {
    assert [a, b][..1] == [a] && [a][..0] == [];
    assert TotalValue([a]) == TotalValue([]) + a.value;
  }

  /** A witness that satisfies the statement for a public mint value of zero and still creates value. */
  lemma UncheckedMintValue()
    ensures exists w: SpendWitness, pi: SpendPublicInputs ::
              SpendStatement(w, pi) && pi.mintValue == 0 && TotalValue(w.outputs) == InputValue(w.inputs) + 1
  {
    hide HashParts, PathVerifies, InputValue, TotalValue;
    var nk, path := ZERO_DIGEST, MerklePath(0, seq(32, _ => ZERO_DIGEST));
    var none, one := Note(0, nk, nk, nk), Note(1, nk, nk, nk);
    var dummy := InputWitness(none, path, true);
    var ins, outs := [dummy, dummy], [one, none];
    var w := SpendWitness(nk, nk, ins, outs, 1, nk);
    var pi := PublicInputs(w, Anchor(0, nk)).(mintValue := 0);
    assert InputHolds(w, pi, 0) && InputHolds(w, pi, 1);
    assert OutputHolds(w, pi, 0) && OutputHolds(w, pi, 1);
    PairValue(dummy, dummy);
    PairTotal(one, none);
    assert SpendStatement(w, pi);
  }

  // ---------- the first violated constraint ----------

  function InputViolation(w: SpendWitness, pi: SpendPublicInputs, i: nat): Option<Violation>
    requires i < |w.inputs| && i < |pi.nullifiers|
  {
    var input := w.inputs[i];
    if input.isDummy && input.note.value != 0 then Some(DummyValue)
    else if input.note.value >= MAX_MONEY then Some(InputRange)
    else if !input.isDummy && !PathVerifies(input.note.Commitment(), input.path, pi.anchor.root) then Some(Membership)
    else if !input.isDummy && input.note.addrTag != w.spenderAddrTag then Some(Ownership)
    else if input.note.Nullifier(w.spenderNk) != pi.nullifiers[i] then Some(NullifierMismatch)
    else None
  }

  function OutputViolation(w: SpendWitness, pi: SpendPublicInputs, i: nat): Option<Violation>
    requires i < |w.outputs| && i < |pi.commitments| && i < 256 && |pi.nullifiers| > 0
  {
    var out := w.outputs[i];
    if out.value >= MAX_MONEY then Some(OutputRange)
    else if out.Commitment() != pi.commitments[i] then Some(CommitmentMismatch)
    else if w.mintValue == 0 && out.rho != RhoTransfer(pi.nullifiers[0], i as byte) then Some(RhoInvalid)
    else None
  }

  function FirstInputViolation(w: SpendWitness, pi: SpendPublicInputs, n: nat): Option<Violation>
    requires n <= |w.inputs| && n <= |pi.nullifiers|
  {
    if n == 0 then None
    else
      var earlier := FirstInputViolation(w, pi, n - 1);
      if earlier.Some? then earlier else InputViolation(w, pi, n - 1)
  }

  function FirstOutputViolation(w: SpendWitness, pi: SpendPublicInputs, n: nat): Option<Violation>
    requires n <= |w.outputs| && n <= |pi.commitments| && n < 256 && |pi.nullifiers| > 0
  {
    if n == 0 then None
    else
      var earlier := FirstOutputViolation(w, pi, n - 1);
      if earlier.Some? then earlier else OutputViolation(w, pi, n - 1)
  }

  /** The violation reported for a witness, if any: arity, binding, inputs, outputs, mint range, balance. */
  function SpendViolation(w: SpendWitness, pi: SpendPublicInputs): Option<Violation> {
    if |w.inputs| != TX_INPUTS || |w.outputs| != TX_OUTPUTS then Some(WitnessArity)
    else if |pi.nullifiers| != TX_INPUTS || |pi.commitments| != TX_OUTPUTS then Some(PublicArity)
    else if pi.bindingDigest != w.bindingDigest then Some(BindingMismatch)
    else if FirstInputViolation(w, pi, TX_INPUTS).Some? then FirstInputViolation(w, pi, TX_INPUTS)
    else if FirstOutputViolation(w, pi, TX_OUTPUTS).Some? then FirstOutputViolation(w, pi, TX_OUTPUTS)
    else if w.mintValue >= MAX_MONEY then Some(MintRange)
    else if InputValue(w.inputs) + w.mintValue != TotalValue(w.outputs) then Some(Imbalance)
    else None
  }

  /** No violation is reported exactly when the spend statement holds. */
  lemma NoViolationExactly(w: SpendWitness, pi: SpendPublicInputs)
    ensures SpendViolation(w, pi).None? <==> SpendStatement(w, pi)
  {
    hide HashParts, PathVerifies, InputValue, TotalValue;
    if |w.inputs| == |pi.nullifiers| == TX_INPUTS && |w.outputs| == |pi.commitments| == TX_OUTPUTS {
      assert InputViolation(w, pi, 0).None? <==> InputHolds(w, pi, 0);
      assert InputViolation(w, pi, 1).None? <==> InputHolds(w, pi, 1);
      assert OutputViolation(w, pi, 0).None? <==> OutputHolds(w, pi, 0);
      assert OutputViolation(w, pi, 1).None? <==> OutputHolds(w, pi, 1);
      TwoSteps(w, pi);
    }
  }

  lemma TwoSteps(w: SpendWitness, pi: SpendPublicInputs)
    requires |w.inputs| == |pi.nullifiers| == TX_INPUTS && |w.outputs| == |pi.commitments| == TX_OUTPUTS
    ensures FirstInputViolation(w, pi, 2).None? <==> InputViolation(w, pi, 0).None? && InputViolation(w, pi, 1).None?
    ensures FirstOutputViolation(w, pi, 2).None? <==> OutputViolation(w, pi, 0).None? && OutputViolation(w, pi, 1).None?
  {
    hide InputViolation, OutputViolation;
    assert FirstInputViolation(w, pi, 0).None? && FirstOutputViolation(w, pi, 0).None?;
    assert FirstInputViolation(w, pi, 1) == InputViolation(w, pi, 0);
    assert FirstOutputViolation(w, pi, 1) == OutputViolation(w, pi, 0);
  }

  /** Which constraint an input is reported for, each in terms of the input itself: C4, C6, C1, C3, C2. */
  lemma InputViolationExactly(w: SpendWitness, pi: SpendPublicInputs, i: nat)
    requires i < |w.inputs| && i < |pi.nullifiers|
    ensures var input, v := w.inputs[i], InputViolation(w, pi, i);
            var sound := (input.isDummy ==> input.note.value == 0) && input.note.value < 0x4000_0000_0000_0000;
            var member := PathVerifies(input.note.Commitment(), input.path, pi.anchor.root);
            && (v == Some(DummyValue) <==> input.isDummy && input.note.value > 0)
            && (v == Some(InputRange) <==> !input.isDummy && input.note.value >= 0x4000_0000_0000_0000)
            && (v == Some(Membership) <==> sound && !input.isDummy && !member)
            && (v == Some(Ownership) <==>
                  sound && !input.isDummy && member && input.note.addrTag != w.spenderAddrTag)
            && (v == Some(NullifierMismatch) <==>
                  sound && (input.isDummy || (member && input.note.addrTag == w.spenderAddrTag))
                  && input.note.Nullifier(w.spenderNk) != pi.nullifiers[i])
  {
    hide HashParts, PathVerifies;
  }

  /** And an output: C6, then both halves of C5. */
  lemma OutputViolationExactly(w: SpendWitness, pi: SpendPublicInputs, i: nat)
    requires i < |w.outputs| && i < |pi.commitments| && i < 256 && |pi.nullifiers| > 0
    ensures var out, v := w.outputs[i], OutputViolation(w, pi, i);
            var inRange, committed := out.value < 0x4000_0000_0000_0000, out.Commitment() == pi.commitments[i];
            && (v == Some(OutputRange) <==> !inRange)
            && (v == Some(CommitmentMismatch) <==> inRange && !committed)
            && (v == Some(RhoInvalid) <==>
                  inRange && committed && w.mintValue == 0 && out.rho != RhoTransfer(pi.nullifiers[0], i as byte))
  {
    hide HashParts;
  }

  /** Two inputs and two outputs on both sides, and the digest they are bound to. */
  predicate Shaped(w: SpendWitness, pi: SpendPublicInputs) {
    |w.inputs| == 2 && |w.outputs| == 2 && |pi.nullifiers| == 2 && |pi.commitments| == 2
    && pi.bindingDigest == w.bindingDigest
  }

  /** Which violation a witness is reported for: arities, binding, then the first failing input, the first
      failing output, the mint range and the balance. */
  lemma SpendViolationExactly(w: SpendWitness, pi: SpendPublicInputs)
    ensures var v := SpendViolation(w, pi);
            && (v == Some(WitnessArity) <==> |w.inputs| != 2 || |w.outputs| != 2)
            && (v == Some(PublicArity) <==>
                  |w.inputs| == 2 && |w.outputs| == 2 && (|pi.nullifiers| != 2 || |pi.commitments| != 2))
            && (v == Some(BindingMismatch) <==>
                  |w.inputs| == 2 && |w.outputs| == 2 && |pi.nullifiers| == 2 && |pi.commitments| == 2
                  && pi.bindingDigest != w.bindingDigest)
    ensures Shaped(w, pi) ==>
              var v, in0, in1 := SpendViolation(w, pi), InputViolation(w, pi, 0), InputViolation(w, pi, 1);
              var out0, out1 := OutputViolation(w, pi, 0), OutputViolation(w, pi, 1);
              && (in0.Some? ==> v == in0) && (in0.None? && in1.Some? ==> v == in1)
              && (in0.None? && in1.None? && out0.Some? ==> v == out0)
              && (in0.None? && in1.None? && out0.None? && out1.Some? ==> v == out1)
              && (in0.None? && in1.None? && out0.None? && out1.None? ==>
                    && (v == Some(MintRange) <==> w.mintValue >= 0x4000_0000_0000_0000)
                    && (v == Some(Imbalance) <==>
                          w.mintValue < 0x4000_0000_0000_0000
                          && w.inputs[0].note.value + w.inputs[1].note.value + w.mintValue
                             != w.outputs[0].value + w.outputs[1].value))
  {
    hide HashParts, PathVerifies, InputValue, TotalValue, InputViolation, OutputViolation;
    if |w.inputs| == 2 && |w.outputs| == 2 && |pi.nullifiers| == 2 && |pi.commitments| == 2 {
      InputKinds(w, pi, 0);
      InputKinds(w, pi, 1);
      OutputKinds(w, pi, 0);
      OutputKinds(w, pi, 1);
      FirstOfTwo(w, pi);
      PairValue(w.inputs[0], w.inputs[1]);
      PairTotal(w.outputs[0], w.outputs[1]);
      assert w.inputs == [w.inputs[0], w.inputs[1]] && w.outputs == [w.outputs[0], w.outputs[1]];
    }
  }

  lemma InputKinds(w: SpendWitness, pi: SpendPublicInputs, i: nat)
    requires i < |w.inputs| && i < |pi.nullifiers|
    ensures var v := InputViolation(w, pi, i);
            v.Some? ==> v.value in {DummyValue, InputRange, Membership, Ownership, NullifierMismatch}
  {
    hide HashParts, PathVerifies;
  }

  lemma OutputKinds(w: SpendWitness, pi: SpendPublicInputs, i: nat)
    requires i < |w.outputs| && i < |pi.commitments| && i < 256 && |pi.nullifiers| > 0
    ensures var v := OutputViolation(w, pi, i);
            v.Some? ==> v.value in {OutputRange, CommitmentMismatch, RhoInvalid}
  {
    hide HashParts;
  }

  lemma FirstOfTwo(w: SpendWitness, pi: SpendPublicInputs)
    requires |w.inputs| == |pi.nullifiers| == TX_INPUTS && |w.outputs| == |pi.commitments| == TX_OUTPUTS
    ensures FirstInputViolation(w, pi, 2)
         == if InputViolation(w, pi, 0).Some? then InputViolation(w, pi, 0) else InputViolation(w, pi, 1)
    ensures FirstOutputViolation(w, pi, 2)
         == if OutputViolation(w, pi, 0).Some? then OutputViolation(w, pi, 0) else OutputViolation(w, pi, 1)
  {
    hide InputViolation, OutputViolation;
    assert FirstInputViolation(w, pi, 0).None? && FirstOutputViolation(w, pi, 0).None?;
    assert FirstInputViolation(w, pi, 1) == InputViolation(w, pi, 0);
    assert FirstOutputViolation(w, pi, 1) == OutputViolation(w, pi, 0);
  }

  /** `check_spend_statement` reports the first violated constraint and accepts the spend statement only. */
  method CheckSpendStatement(w: SpendWitness, pi: SpendPublicInputs) returns (r: Result<(), Violation>)
    ensures r.Ok? <==> SpendStatement(w, pi)
    ensures r.Err? ==> SpendViolation(w, pi) == Some(r.error)
  {
    NoViolationExactly(w, pi);
    hide HashParts, PathVerifies, SpendStatement, InputViolation;
    if |w.inputs| != TX_INPUTS || |w.outputs| != TX_OUTPUTS { return Err(WitnessArity); }
    if |pi.nullifiers| != TX_INPUTS || |pi.commitments| != TX_OUTPUTS { return Err(PublicArity); }
    if pi.bindingDigest != w.bindingDigest { return Err(BindingMismatch); }
    var valueIn := 0;
    for i := 0 to |w.inputs|
      invariant valueIn == InputValue(w.inputs[..i])
      invariant FirstInputViolation(w, pi, i).None?
    {
      var violation := CheckInput(w, pi, i);
      if violation.Some? {
        FirstInputStays(w, pi, i + 1);
        return Err(violation.value);
      }
      assert w.inputs[..i + 1][..i] == w.inputs[..i];
      valueIn := valueIn + w.inputs[i].note.value;
    }
    assert w.inputs[..|w.inputs|] == w.inputs;
    var valueOut := 0;
    for i := 0 to |w.outputs|
      invariant valueOut == TotalValue(w.outputs[..i])
      invariant FirstOutputViolation(w, pi, i).None?
    {
      var out := w.outputs[i];
      FirstOutputStays(w, pi, i + 1);
      if out.value >= MAX_MONEY { return Err(OutputRange); }
      if out.Commitment() != pi.commitments[i] { return Err(CommitmentMismatch); }
      if w.mintValue == 0 && out.rho != RhoTransfer(pi.nullifiers[0], i as byte) { return Err(RhoInvalid); }
      assert w.outputs[..i + 1][..i] == w.outputs[..i];
      valueOut := valueOut + out.value;
    }
    assert w.outputs[..|w.outputs|] == w.outputs;
    if w.mintValue >= MAX_MONEY { return Err(MintRange); }
    if valueIn + w.mintValue != valueOut { return Err(Imbalance); }
    r := Ok(());
  }

  lemma {:induction false} FirstInputStays(w: SpendWitness, pi: SpendPublicInputs, n: nat)
    requires n <= TX_INPUTS == |w.inputs| == |pi.nullifiers|
    ensures FirstInputViolation(w, pi, n).Some? ==>
              FirstInputViolation(w, pi, TX_INPUTS) == FirstInputViolation(w, pi, n)
    decreases TX_INPUTS - n
  {
    hide InputViolation;
    if n == TX_INPUTS {
    } else {
      FirstInputStays(w, pi, n + 1);
    }
  }

  lemma {:induction false} FirstOutputStays(w: SpendWitness, pi: SpendPublicInputs, n: nat)
    requires n <= TX_OUTPUTS == |w.outputs| == |pi.commitments| && |pi.nullifiers| > 0
    ensures FirstOutputViolation(w, pi, n).Some? ==>
              FirstOutputViolation(w, pi, TX_OUTPUTS) == FirstOutputViolation(w, pi, n)
    decreases TX_OUTPUTS - n
  {
    hide OutputViolation;
    if n == TX_OUTPUTS {
    } else {
      FirstOutputStays(w, pi, n + 1);
    }
  }

  /** The constraints on one input, in source order. */
  method CheckInput(w: SpendWitness, pi: SpendPublicInputs, i: nat) returns (v: Option<Violation>)
    requires i < |w.inputs| && i < |pi.nullifiers|
    ensures v == InputViolation(w, pi, i)
  {
    hide HashParts, PathVerifies;
    var input := w.inputs[i];
    if input.isDummy && input.note.value != 0 { return Some(DummyValue); }
    if input.note.value >= MAX_MONEY { return Some(InputRange); }
    if !input.isDummy {
      var member := VerifyPath(input.note.Commitment(), input.path, pi.anchor.root);
      if !member { return Some(Membership); }
      if input.note.addrTag != w.spenderAddrTag { return Some(Ownership); }
    }
    if input.note.Nullifier(w.spenderNk) != pi.nullifiers[i] { return Some(NullifierMismatch); }
    return None;
  }

  // ---------- prove and verify ----------

  function DevTag(pi: SpendPublicInputs): Digest { HashParts(DevProof, [EncodePublicInputs(pi)]) }

  /** What `prove` returns when it succeeds. */
  function ProofFor(pi: SpendPublicInputs): seq<byte> { DevTag(pi) + Zeros(PROOF_BUCKET - 32) }

  method Prove(w: SpendWitness, anchor: Anchor) returns (r: Result<(SpendPublicInputs, seq<byte>), Violation>)
    ensures r.Ok? <==> SpendStatement(Canonicalize(w), PublicInputs(Canonicalize(w), anchor))
    ensures r.Err? ==> SpendViolation(Canonicalize(w), PublicInputs(Canonicalize(w), anchor)) == Some(r.error)
    ensures r.Ok? ==>
              var pi := PublicInputs(Canonicalize(w), anchor);
              r.value == (pi, ProofFor(pi))
  {
    hide HashParts, SpendStatement, SpendViolation, SortInputs, EncodePublicInputs;
    var canonical := Canonicalize(w);
    var pi := PublicInputs(canonical, anchor);
    var check := CheckSpendStatement(canonical, pi);
    if check.Err? {
      return Err(check.error);
    }
    var proof := DevTag(pi);
    proof := proof + Zeros(PROOF_BUCKET - |proof|);
    r := Ok((pi, proof));
  }

  datatype VerifyError = MalformedProof | InvalidProof

  function DevVerify(pi: SpendPublicInputs, proof: seq<byte>): Result<(), VerifyError> {
    if |proof| != PROOF_BUCKET then Err(MalformedProof)
    else if exists i :: 32 <= i < |proof| && proof[i] != 0 then Err(MalformedProof)
    else if proof[..32] == DevTag(pi) then Ok(()) else Err(InvalidProof)
  }

  const DevVerifier: Verifier := (pi, proof) => DevVerify(pi, proof).Ok?

  /** Each public input has exactly one accepted proof, the one `prove` emits. */
  lemma OneProof(pi: SpendPublicInputs, proof: seq<byte>)
    ensures DevVerify(pi, proof).Ok? <==> proof == ProofFor(pi)
  {
  }

  /** The two refusals: a wrong length or nonzero padding is malformed, a wrong tag invalid. */
  lemma VerifyErrors(pi: SpendPublicInputs, proof: seq<byte>)
    ensures var wellFormed := |proof| == 192 && forall i :: 32 <= i < |proof| ==> proof[i] == 0;
            && (DevVerify(pi, proof) == Err(MalformedProof) <==> !wellFormed)
            && (DevVerify(pi, proof) == Err(InvalidProof) <==> wellFormed && proof[..32] != DevTag(pi))
  {
    hide HashParts, EncodePublicInputs;
  }

  /** A proof binds its public inputs: no bytes pass for two different ones, unless hashes collide. */
  lemma ProofBinds(log: set<Preimage>, a: SpendPublicInputs, b: SpendPublicInputs, proof: seq<byte>)
    requires CollisionFree(log) && AtMost(a, 255) && AtMost(b, 255)
    requires PartsPreimage(DevProof, [EncodePublicInputs(a)]) in log
    requires PartsPreimage(DevProof, [EncodePublicInputs(b)]) in log
    requires DevVerify(a, proof).Ok? && DevVerify(b, proof).Ok?
    ensures a == b
  {
    hide EncodePublicInputs, CollisionFree, Frame;
    var p, q := [EncodePublicInputs(a)], [EncodePublicInputs(b)];
    EncodedSize(a);
    EncodedSize(b);
    HashPartsInjective(log, DevProof, p, DevProof, q);
    assert p[0] == q[0];
    EncodeInjective(a, b);
  }

  lemma EncodedSize(pi: SpendPublicInputs)
    requires AtMost(pi, 255)
    ensures |EncodePublicInputs(pi)| < TWO64
  {
    hide LE8, Flatten;
    DigestsLength(pi.nullifiers);
    DigestsLength(pi.commitments);
  }
}
