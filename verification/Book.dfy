/** Bookkeeping behind the commitments: which note each leaf commits to and which leaves were consumed.
    A book is valid when notes are told apart by rho and every consumed note's nullifier is public. */
module Book {
  import opened Arithmetic
  import opened Bytes
  import opened Counting
  import opened Hashing
  import opened Interfaces
  import opened Notes
  import opened Merkle
  import opened Tx
  import opened Prover

  /** A spend as its maker knows it: the witness given to `prove` and the key it was made with. */
  datatype Spend = Spend(opening: SpendWitness, key: SpendingKey) {
    function Inputs(): seq<InputWitness> { Canonicalize(opening).inputs }
    function Outputs(): seq<Note> { opening.outputs }
  }

  /** `tx` carries the public inputs `prove` derived from the witness, and one spending key supplied both
      the nullifier key and the address tag. */
  ghost predicate ProvenBy(tx: TxV1, sp: Spend) {
    && sp.opening.spenderNk == sp.key.Nk() && sp.opening.spenderAddrTag == sp.key.AddrTag()
    && tx.ToPublicInputs() == PublicInputs(Canonicalize(sp.opening), tx.anchor)
    && SpendStatement(Canonicalize(sp.opening), tx.ToPublicInputs())
  }

  /** Everything hashed while deriving keys, checking the statement and climbing the paths. */
  ghost predicate LogsSpend(log: set<Preimage>, tx: TxV1, sp: Spend) {
    && sp.key.Hashes() <= log
    && (forall i :: 0 <= i < |sp.Inputs()| ==> LogsInput(log, sp.Inputs()[i], sp.key))
    && (forall i :: 0 <= i < |sp.Outputs()| ==> sp.Outputs()[i].CommitmentHash() in log)
    && RhoTransferHash(tx.nullifiers[0], 0) in log && RhoTransferHash(tx.nullifiers[0], 1) in log
  }

  ghost predicate LogsInput(log: set<Preimage>, input: InputWitness, key: SpendingKey) {
    && input.note.CommitmentHash() in log && input.note.NullifierHash(key.Nk()) in log
    && LogsPairs(log, PathPairs(input.note.Commitment(), input.path.siblings, input.path.position))
  }

  // ---------- positions and values ----------

  function PositionOf(input: InputWitness): nat { input.path.position % Pow2(TREE_DEPTH) }

  /** The leaf positions named by the inputs that are not dummies. */
  function SpentPositions(inputs: seq<InputWitness>): seq<nat> {
    if inputs == [] then []
    else
      var last := inputs[|inputs| - 1];
      SpentPositions(inputs[..|inputs| - 1]) + if last.isDummy then [] else [PositionOf(last)]
  }

  /** The summed value of the notes that were not consumed. */
  function Unspent(notes: seq<Note>, consumed: set<nat>): nat {
    if notes == [] then 0
    else
      var n := |notes| - 1;
      Unspent(notes[..n], consumed) + if n in consumed then 0 else notes[n].value
  }

  lemma {:induction false} UnspentAppend(notes: seq<Note>, more: seq<Note>, consumed: set<nat>)
    requires forall p :: p in consumed ==> p < |notes|
    ensures Unspent(notes + more, consumed) == Unspent(notes, consumed) + TotalValue(more)
  {
    if more == [] {
      assert notes + more == notes;
    } else {
      var n := |more| - 1;
      UnspentAppend(notes, more[..n], consumed);
      assert (notes + more)[..|notes| + n] == notes + more[..n];
    }
  }

  lemma {:induction false} UnspentConsume(notes: seq<Note>, consumed: set<nat>, p: nat)
    requires p < |notes| && p !in consumed
    ensures Unspent(notes, consumed + {p}) + notes[p].value == Unspent(notes, consumed)
  {
    var n := |notes| - 1;
    if p == n {
      UnspentIgnores(notes[..n], consumed, p);
    } else {
      UnspentConsume(notes[..n], consumed, p);
    }
  }

  lemma {:induction false} UnspentIgnores(notes: seq<Note>, consumed: set<nat>, p: nat)
    requires p >= |notes|
    ensures Unspent(notes, consumed + {p}) == Unspent(notes, consumed)
  {
    if notes == [] {
    } else {
      UnspentIgnores(notes[..|notes| - 1], consumed, p);
    }
  }

  // ---------- the invariant ----------

  datatype Book = Book(notes: seq<Note>, consumed: seq<nat>)

  /** Where a note's rho can come from: the allocation, a reward, or an accepted first nullifier. */
  ghost predicate Origin(log: set<Preimage>, genesis: seq<Note>, rho: Digest, nullifiers: set<Nullifier>, height: nat) {
    || (exists g :: g in genesis && g.rho == rho)
    || (exists h: u64, k: byte :: h <= height && MintOrigin(log, rho, h, k))
    || (exists nf: Nullifier, k: byte :: nf in nullifiers && TransferOrigin(log, rho, nf, k))
  }

  ghost predicate MintOrigin(log: set<Preimage>, rho: Digest, h: u64, k: byte) {
    h > 0 && RhoMintHash(h, k) in log && rho == RhoMint(h, k)
  }

  ghost predicate TransferOrigin(log: set<Preimage>, rho: Digest, nf: Nullifier, k: byte) {
    RhoTransferHash(nf, k) in log && rho == RhoTransfer(nf, k)
  }

  /** The allocation's rho values are unlike every rho derived later. */
  ghost predicate GenesisApart(log: set<Preimage>, genesis: seq<Note>) {
    && (forall g, h: u64, k: byte :: g in genesis ==> !MintOrigin(log, g.rho, h, k))
    && (forall g, nf: Nullifier, k: byte :: g in genesis ==> !TransferOrigin(log, g.rho, nf, k))
  }

  ghost predicate DistinctRho(notes: seq<Note>) {
    forall i, j :: 0 <= i < j < |notes| ==> notes[i].rho != notes[j].rho
  }

  /** The nullifier the note's owner reveals by spending it is already public. */
  ghost predicate SpentUnder(log: set<Preimage>, note: Note, key: SpendingKey, nullifiers: set<Nullifier>) {
    && key.Hashes() <= log && note.NullifierHash(key.Nk()) in log
    && note.addrTag == key.AddrTag() && note.Nullifier(key.Nk()) in nullifiers
  }

  ghost predicate IsSpent(log: set<Preimage>, note: Note, nullifiers: set<Nullifier>) {
    exists key :: SpentUnder(log, note, key, nullifiers)
  }

  ghost predicate NotesValid(log: set<Preimage>, genesis: seq<Note>, notes: seq<Note>, nullifiers: set<Nullifier>,
                             height: nat) {
    && DistinctRho(notes)
    && (forall i :: 0 <= i < |notes| ==> notes[i].CommitmentHash() in log)
    && (forall i :: 0 <= i < |notes| ==> Origin(log, genesis, notes[i].rho, nullifiers, height))
  }

  ghost predicate ConsumedValid(log: set<Preimage>, book: Book, nullifiers: set<Nullifier>) {
    && Distinct(book.consumed)
    && (forall p :: p in book.consumed ==> p < |book.notes| && IsSpent(log, book.notes[p], nullifiers))
  }

  /** `sealed` is a prefix of the leaf list the notes stand behind. */
  ghost predicate Seals(notes: seq<Note>, sealed: seq<Digest>) {
    |sealed| <= |notes| && forall i :: 0 <= i < |sealed| ==> sealed[i] == notes[i].Commitment()
  }

  // ---------- a spent input is the note behind a sealed leaf ----------

  lemma CommitmentIsNoEmptyLeaf(log: set<Preimage>, note: Note)
    requires CollisionFree(log) && note.CommitmentHash() in log && PartsPreimage(MerkleEmpty, []) in log
    ensures note.Commitment() != EmptyRoot(0)
  {
  }

  lemma InputIsLeaf(log: set<Preimage>, notes: seq<Note>, sealed: seq<Digest>, input: InputWitness, key: SpendingKey)
    requires CollisionFree(log) && LogsTree(log, sealed) && LogsInput(log, input, key)
    requires Seals(notes, sealed) && forall i :: 0 <= i < |notes| ==> notes[i].CommitmentHash() in log
    requires PathVerifies(input.note.Commitment(), input.path, RootOf(sealed))
    ensures PositionOf(input) < |sealed| && notes[PositionOf(input)] == input.note
  {
    hide HashParts, TreePairs, PathPairs, NodeAt, Pow2, EmptyRoot, CollisionFree;
    var cm := input.note.Commitment();
    PathBinds(sealed, cm, input.path);
    NoNodeCollision(log, PathPairs(cm, input.path.siblings, input.path.position), TreePairs(sealed, TREE_DEPTH, 0));
    CommitmentIsNoEmptyLeaf(log, input.note);
    var p := PositionOf(input);
    assert p < |sealed| && cm == notes[p].Commitment();
    CommitmentBinds(log, input.note, notes[p]);
  }

  /** Spending a note whose nullifier is public would repeat that nullifier. */
  lemma RespendRepeats(log: set<Preimage>, note: Note, key: SpendingKey, nullifiers: set<Nullifier>)
    requires CollisionFree(log) && key.Hashes() <= log && note.addrTag == key.AddrTag()
    requires IsSpent(log, note, nullifiers)
    ensures note.Nullifier(key.Nk()) in nullifiers
  {
    hide HashParts, CollisionFree;
    var owner :| SpentUnder(log, note, owner, nullifiers);
    AddrTagBinds(log, owner, key);
  }

  // ---------- one spend ----------

  /** The situation in which an accepted, honestly proven transaction is applied. */
  ghost predicate Spending(log: set<Preimage>, book: Book, nullifiers: set<Nullifier>, tx: TxV1, sp: Spend,
                           sealed: seq<Digest>) {
    && CollisionFree(log) && ProvenBy(tx, sp) && LogsSpend(log, tx, sp)
    && ConsumedValid(log, book, nullifiers)
    && (forall i :: 0 <= i < |book.notes| ==> book.notes[i].CommitmentHash() in log)
    && LogsTree(log, sealed) && Seals(book.notes, sealed) && tx.anchor.root == RootOf(sealed)
    && tx.nullifiers[0] != tx.nullifiers[1] && tx.nullifiers[0] !in nullifiers && tx.nullifiers[1] !in nullifiers
  }

  lemma SpentInput(log: set<Preimage>, book: Book, nullifiers: set<Nullifier>, tx: TxV1, sp: Spend,
                   sealed: seq<Digest>, i: nat)
    requires Spending(log, book, nullifiers, tx, sp, sealed) && i < 2 == |sp.Inputs()|
    requires !sp.Inputs()[i].isDummy
    ensures var input := sp.Inputs()[i];
            && PositionOf(input) < |sealed| && book.notes[PositionOf(input)] == input.note
            && PositionOf(input) !in book.consumed
            && SpentUnder(log, input.note, sp.key, nullifiers + Elements(tx.nullifiers))
            && input.note.Nullifier(sp.key.Nk()) == tx.nullifiers[i]
  {
    hide HashParts, PathVerifies, LogsTree, Canonicalize, CollisionFree, PositionOf, LogsPairs, RootOf, IsSpent, Less;
    var input := sp.Inputs()[i];
    var w := Canonicalize(sp.opening);
    assert w.spenderNk == sp.key.Nk() && w.spenderAddrTag == sp.key.AddrTag() by { CanonicalKeeps(sp.opening); }
    assert InputHolds(w, tx.ToPublicInputs(), i);
    assert LogsInput(log, input, sp.key);
    InputIsLeaf(log, book.notes, sealed, input, sp.key);
    assert tx.nullifiers[i] in tx.nullifiers;
    if PositionOf(input) in book.consumed {
      RespendRepeats(log, input.note, sp.key, nullifiers);
    }
  }

  /** After these inputs of a transaction: every named leaf is sealed and newly consumed, once, and the
      unspent value dropped by the value of the inputs. */
  ghost predicate Consumes(book: Book, sealed: seq<Digest>, inputs: seq<InputWitness>) {
    var spent := SpentPositions(inputs);
    && Distinct(book.consumed + spent)
    && (forall p :: p in spent ==> p < |sealed| && NamedBy(inputs, p))
    && Unspent(book.notes, Elements(book.consumed + spent)) + InputValue(inputs)
       == Unspent(book.notes, Elements(book.consumed))
  }

  ghost predicate NamedBy(inputs: seq<InputWitness>, p: nat) {
    exists i :: 0 <= i < |inputs| && !inputs[i].isDummy && PositionOf(inputs[i]) == p
  }

  lemma NamedByMore(inputs: seq<InputWitness>, x: InputWitness, p: nat)
    requires NamedBy(inputs, p)
    ensures NamedBy(inputs + [x], p)
  {
    hide PositionOf;
    var i :| 0 <= i < |inputs| && !inputs[i].isDummy && PositionOf(inputs[i]) == p;
    assert (inputs + [x])[i] == inputs[i];
  }

  lemma ConsumeOne(book: Book, sealed: seq<Digest>, inputs: seq<InputWitness>, x: InputWitness)
    requires Consumes(book, sealed, inputs)
    requires x.isDummy ==> x.note.value == 0
    requires !x.isDummy ==>
               && PositionOf(x) !in book.consumed + SpentPositions(inputs)
               && PositionOf(x) < |sealed| <= |book.notes| && book.notes[PositionOf(x)] == x.note
    ensures Consumes(book, sealed, inputs + [x])
  {
    hide PositionOf, Unspent, NamedBy;
    var all, before := inputs + [x], SpentPositions(inputs);
    assert all[..|inputs|] == inputs;
    if x.isDummy {
      assert before + [] == before;
    } else {
      PushPosition(book.notes, book.consumed, before, PositionOf(x));
    }
    forall p | p in SpentPositions(all)
      ensures p < |sealed| && NamedBy(all, p)
    {
      if p in before {
        NamedByMore(inputs, x, p);
      } else {
        assert NamedBy(all, p) by { LastNames(inputs, x); }
      }
    }
  }

  lemma LastNames(inputs: seq<InputWitness>, x: InputWitness)
    requires !x.isDummy
    ensures NamedBy(inputs + [x], PositionOf(x))
  {
    hide PositionOf;
    assert (inputs + [x])[|inputs|] == x;
  }

  lemma {:induction false} ConsumeInputs(log: set<Preimage>, book: Book, nullifiers: set<Nullifier>, tx: TxV1,
                                         sp: Spend, sealed: seq<Digest>, k: nat)
    requires Spending(log, book, nullifiers, tx, sp, sealed) && k <= 2 == |sp.Inputs()|
    ensures Consumes(book, sealed, sp.Inputs()[..k])
  {
    hide Spending, PositionOf, Unspent, Consumes, SpentPositions;
    if k == 0 {
      assert sp.Inputs()[..0] == [];
      NothingConsumed(log, book, nullifiers, tx, sp, sealed);
    } else {
      var n := k - 1;
      var last := sp.Inputs()[n];
      ConsumeInputs(log, book, nullifiers, tx, sp, sealed, n);
      if last.isDummy {
        DummyIsWorthless(log, book, nullifiers, tx, sp, sealed, n);
      } else {
        NewPosition(log, book, nullifiers, tx, sp, sealed, n);
      }
      ConsumeOne(book, sealed, sp.Inputs()[..n], last);
      assert sp.Inputs()[..k] == sp.Inputs()[..n] + [last];
    }
  }

  lemma NothingConsumed(log: set<Preimage>, book: Book, nullifiers: set<Nullifier>, tx: TxV1, sp: Spend,
                        sealed: seq<Digest>)
    requires Spending(log, book, nullifiers, tx, sp, sealed)
    ensures Consumes(book, sealed, [])
  {
    hide ProvenBy, LogsSpend, LogsTree, CollisionFree, RootOf;
    assert book.consumed + [] == book.consumed;
  }

  /** The leaf named by input n was consumed neither before this transaction nor by an earlier input. */
  lemma NewPosition(log: set<Preimage>, book: Book, nullifiers: set<Nullifier>, tx: TxV1, sp: Spend,
                    sealed: seq<Digest>, n: nat)
    requires Spending(log, book, nullifiers, tx, sp, sealed) && n < 2 == |sp.Inputs()| && !sp.Inputs()[n].isDummy
    requires Consumes(book, sealed, sp.Inputs()[..n])
    ensures var p := PositionOf(sp.Inputs()[n]);
            && p !in book.consumed + SpentPositions(sp.Inputs()[..n])
            && p < |sealed| <= |book.notes| && book.notes[p] == sp.Inputs()[n].note
  {
    hide ProvenBy, LogsSpend, LogsTree, CollisionFree, RootOf, PositionOf, SpentUnder, IsSpent, SpentPositions;
    var inputs := sp.Inputs();
    var p := PositionOf(inputs[n]);
    SpentInput(log, book, nullifiers, tx, sp, sealed, n);
    if p in SpentPositions(inputs[..n]) {
      assert NamedBy(inputs[..n], p);
      var i :| 0 <= i < |inputs[..n]| && !inputs[..n][i].isDummy && PositionOf(inputs[..n][i]) == p;
      SpentInput(log, book, nullifiers, tx, sp, sealed, i);
    }
  }

  lemma PushPosition(notes: seq<Note>, consumed: seq<nat>, more: seq<nat>, p: nat)
    requires Distinct(consumed + more) && p !in consumed + more && p < |notes|
    ensures Distinct(consumed + (more + [p]))
    ensures Unspent(notes, Elements(consumed + (more + [p]))) + notes[p].value
              == Unspent(notes, Elements(consumed + more))
  {
    hide Unspent;
    assert consumed + (more + [p]) == (consumed + more) + [p];
    assert Elements((consumed + more) + [p]) == Elements(consumed + more) + {p};
    UnspentConsume(notes, Elements(consumed + more), p);
  }

  lemma DummyIsWorthless(log: set<Preimage>, book: Book, nullifiers: set<Nullifier>, tx: TxV1, sp: Spend,
                         sealed: seq<Digest>, i: nat)
    requires Spending(log, book, nullifiers, tx, sp, sealed) && i < 2 == |sp.Inputs()| && sp.Inputs()[i].isDummy
    ensures sp.Inputs()[i].note.value == 0
  {
    hide HashParts, PathVerifies, LogsTree, Canonicalize, CollisionFree, LogsSpend, Seals, RootOf, ConsumedValid;
    assert InputHolds(Canonicalize(sp.opening), tx.ToPublicInputs(), i);
  }
}
