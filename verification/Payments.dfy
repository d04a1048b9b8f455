/** From an honest run to an accepted payment: conservation gives the wallet what its builder needs, and
    the ledger takes what the builder makes. */
module Payments {
  import opened Arithmetic
  import opened Bytes
  import opened Counting
  import opened Hashing
  import opened Interfaces
  import opened Notes
  import opened Merkle
  import opened Tx
  import opened Emission
  import opened Prover
  import opened Ledger
  import opened Batches
  import opened Runs
  import opened Book
  import opened Conservation
  import opened Wallet

  /** The record names a leaf of the book: the wallet's own note, in range. */
  ghost predicate Owns(sk: SpendingKey, r: NoteRecord, notes: seq<Note>) {
    && r.position < |notes| && r.position < Pow2(TREE_DEPTH) && notes[r.position] == r.note
    && r.note.addrTag == sk.AddrTag() && r.note.value < MAX_MONEY
  }

  ghost predicate OwnsAll(sk: SpendingKey, records: seq<NoteRecord>, notes: seq<Note>) {
    && (forall i :: 0 <= i < |records| ==> Owns(sk, records[i], notes))
    && forall i, j :: 0 <= i < j < |records| ==> records[i].position != records[j].position
  }

  ghost function DummyRhoHash(k: nat): Preimage
    requires k < 2
  {
    PartsPreimage(DummyRho, [DummyEntropy(k)])
  }

  /** What is hashed to derive the wallet's keys and the nullifiers of its notes and its two dummies. */
  ghost predicate LogsWallet(log: set<Preimage>, sk: SpendingKey, records: seq<NoteRecord>) {
    var nk := sk.Nk();
    && sk.Hashes() <= log
    && (forall i :: 0 <= i < |records| ==> records[i].note.NullifierHash(nk) in log)
    && (forall k :: 0 <= k < 2 ==> DummyInput(k).note.NullifierHash(nk) in log && DummyRhoHash(k) in log)
  }

  /** No allocation note carries a dummy's rho. */
  ghost predicate NoDummyAllocated(genesis: seq<Note>) {
    forall g, k :: g in genesis && 0 <= k < 2 ==> g.rho != DummyInput(k).note.rho
  }

  /** The lookup answers with the tree's own witnesses. */
  ghost predicate FromTree(s: LedgerState, witnessFor: WitnessLookup) {
    forall p: u64 :: p < |s.leaves| ==>
      && witnessFor(p).Some? && witnessFor(p).value.position == p
      && IsWitness(s.leaves, p, witnessFor(p).value.siblings)
  }

  // ---------- nullifiers that differ ----------

  /** Logged hashes under different labels differ. */
  lemma LabelsDiffer(log: set<Preimage>, p: Preimage, q: Preimage)
    requires CollisionFree(log) && p in log && q in log && p.context != q.context
    ensures Digested(p) != Digested(q)
  {
  }

  /** No note of the ledger has a dummy's rho. */
  lemma DummyHasNoOrigin(log: set<Preimage>, genesis: seq<Note>, k: nat, nullifiers: set<Nullifier>, height: nat)
    requires CollisionFree(log) && NoDummyAllocated(genesis) && k < 2 && DummyRhoHash(k) in log
    ensures !Origin(log, genesis, DummyInput(k).note.rho, nullifiers, height)
  {
    hide CollisionFree, Frame;
    var rho := DummyInput(k).note.rho;
    assert rho == Digested(DummyRhoHash(k));
    forall h: u64, j: byte
      ensures !MintOrigin(log, rho, h, j)
    {
      if RhoMintHash(h, j) in log {
        LabelsDiffer(log, DummyRhoHash(k), RhoMintHash(h, j));
      }
    }
    forall nf: Nullifier, j: byte
      ensures !TransferOrigin(log, rho, nf, j)
    {
      if RhoTransferHash(nf, j) in log {
        LabelsDiffer(log, DummyRhoHash(k), RhoTransferHash(nf, j));
      }
    }
  }

  lemma DummiesDiffer(log: set<Preimage>)
    requires CollisionFree(log) && DummyRhoHash(0) in log && DummyRhoHash(1) in log
    ensures DummyInput(0).note.rho != DummyInput(1).note.rho
  {
    hide CollisionFree;
    var a, b := DummyEntropy(0), DummyEntropy(1);
    assert a[0] != b[0] && [a][0] != [b][0];
    if HashParts(DummyRho, [a]) == HashParts(DummyRho, [b]) {
      HashPartsInjective(log, DummyRho, [a], DummyRho, [b]);
    }
  }

  lemma NullifiersDiffer(log: set<Preimage>, m: Note, n: Note, nk: Digest)
    requires CollisionFree(log) && m.NullifierHash(nk) in log && n.NullifierHash(nk) in log && m.rho != n.rho
    ensures m.Nullifier(nk) != n.Nullifier(nk)
  {
    hide CollisionFree, HashParts, PartsPreimage;
    if m.Nullifier(nk) == n.Nullifier(nk) {
      NullifierBinds(log, m, nk, n, nk);
    }
  }

  lemma RecordOrigin(log: set<Preimage>, genesis: seq<Note>, notes: seq<Note>, nullifiers: set<Nullifier>, height: nat,
                     sk: SpendingKey, r: NoteRecord)
    requires NotesValid(log, genesis, notes, nullifiers, height) && Owns(sk, r, notes)
    ensures Origin(log, genesis, r.note.rho, nullifiers, height)
  {
    hide Origin, DistinctRho, Pow2, PartsPreimage, HashParts;
    assert notes[r.position].CommitmentHash() in log;
  }

  lemma RecordsDiffer(log: set<Preimage>, genesis: seq<Note>, notes: seq<Note>, nullifiers: set<Nullifier>, height: nat,
                      sk: SpendingKey, r: NoteRecord, t: NoteRecord)
    requires NotesValid(log, genesis, notes, nullifiers, height) && Owns(sk, r, notes) && Owns(sk, t, notes)
    requires r.position != t.position
    ensures r.note.rho != t.note.rho
  {
    hide Origin, Pow2, PartsPreimage, HashParts;
    assert r.position < t.position || t.position < r.position;
  }

  /** Rho uniqueness gives a wallet's notes, and its dummies, different nullifiers. */
  lemma NotesApart(log: set<Preimage>, genesis: seq<Note>, notes: seq<Note>, nullifiers: set<Nullifier>, height: nat,
                   sk: SpendingKey, records: seq<NoteRecord>)
    requires CollisionFree(log) && NotesValid(log, genesis, notes, nullifiers, height)
    requires OwnsAll(sk, records, notes) && LogsWallet(log, sk, records) && NoDummyAllocated(genesis)
    ensures NullifiersApart(sk.Nk(), records)
  {
    hide CollisionFree, NotesValid, Owns, HashParts, PartsPreimage, DummyInput, DummyRhoHash, NoDummyAllocated, Origin;
    var nk := sk.Nk();
    forall i, j | 0 <= i < j < |records|
      ensures records[i].note.Nullifier(nk) != records[j].note.Nullifier(nk)
    {
      RecordsDiffer(log, genesis, notes, nullifiers, height, sk, records[i], records[j]);
      NullifiersDiffer(log, records[i].note, records[j].note, nk);
    }
    forall i, k | 0 <= i < |records| && 0 <= k < 2
      ensures records[i].note.Nullifier(nk) != DummyInput(k).note.Nullifier(nk)
    {
      RecordOrigin(log, genesis, notes, nullifiers, height, sk, records[i]);
      DummyHasNoOrigin(log, genesis, k, nullifiers, height);
      NullifiersDiffer(log, records[i].note, DummyInput(k).note, nk);
    }
    DummiesDiffer(log);
    NullifiersDiffer(log, DummyInput(0).note, DummyInput(1).note, nk);
  }

  // ---------- a healthy wallet ----------

  /** In an honest run every wallet that keeps its own notes and asks the ledger's tree for witnesses is
      healthy at the current anchor. */
  lemma HonestHealthy(run: Run, c: Config, genesis: seq<Note>, spends: Spends, log: set<Preimage>, n: nat,
                      sk: SpendingKey, records: seq<NoteRecord>, witnessFor: WitnessLookup)
    requires run.From(c, Allocation(genesis)) && n <= |run.batches| && HonestRun(run, genesis, spends, log)
    requires OwnsAll(sk, records, RunBook(run, genesis, spends, n).notes) && LogsWallet(log, sk, records)
    requires NoDummyAllocated(genesis) && FromTree(run.states[n], witnessFor)
    ensures HealthyRecords(sk, records, run.states[n].CurrentAnchor(), witnessFor)
  {
    hide Apply, Genesis, Allocation, RunBook, RootOf, CollisionFree, NullifiersApart, LogsWallet, Spendable, Unspent,
         NotesValid, ConsumedValid, NoDummyAllocated, HonestStep, IsWitness, LogsTree, Owns;
    var s, notes := run.states[n], RunBook(run, genesis, spends, n).notes;
    ValueConserved(run, c, genesis, spends, log, n);
    NotesApart(log, genesis, notes, s.nullifiers, n, sk, records);
    forall i | 0 <= i < |records|
      ensures Spendable(sk, records[i], s.CurrentAnchor(), witnessFor)
    {
      OwnedSpendable(sk, records[i], s, notes, witnessFor);
    }
  }

  lemma OwnedSpendable(sk: SpendingKey, r: NoteRecord, s: LedgerState, notes: seq<Note>, witnessFor: WitnessLookup)
    requires Owns(sk, r, notes) && s.leaves == NoteCommitments(notes) && FromTree(s, witnessFor)
    ensures Spendable(sk, r, s.CurrentAnchor(), witnessFor)
  {
    hide RootOf, IsWitness, Spendable, Pow2, HashParts;
    assert s.leaves[r.position] == notes[r.position].Commitment();
    LedgerWitnessSpendable(sk, r, s, witnessFor);
  }

  // ---------- which nullifiers are public ----------

  lemma {:induction false} AcceptedWhen(run: Run, n: nat, tx: TxV1) returns (i: nat)
    requires n <= |run.batches| && |run.states| == |run.batches| + 1 && tx in run.AcceptedBy(n)
    ensures i < n && tx in run.AcceptedIn(i)
  {
    hide Filter;
    if tx in run.AcceptedIn(n - 1) {
      i := n - 1;
    } else {
      i := AcceptedWhen(run, n - 1, tx);
    }
  }

  lemma {:induction false} AcceptedThen(run: Run, n: nat, i: nat, tx: TxV1)
    requires i < n <= |run.batches| && |run.states| == |run.batches| + 1 && tx in run.AcceptedIn(i)
    ensures tx in run.AcceptedBy(n)
  {
    hide Filter;
    if i == n - 1 {
    } else {
      AcceptedThen(run, n - 1, i, tx);
    }
  }

  /** Notes and consumed positions are only ever added. */
  lemma {:induction false} BookGrows(run: Run, genesis: seq<Note>, spends: Spends, i: nat, n: nat)
    requires run.Valid() && i <= n <= |run.batches|
    ensures RunBook(run, genesis, spends, i).notes <= RunBook(run, genesis, spends, n).notes
    ensures RunBook(run, genesis, spends, i).consumed <= RunBook(run, genesis, spends, n).consumed
    decreases n
  {
    hide Filter, RewardNotes, OutputsOf, ConsumedOf, Apply;
    if i == n {
    } else {
      BookGrows(run, genesis, spends, i, n - 1);
    }
  }

  lemma {:induction false} NamedPosition(inputs: seq<InputWitness>, k: nat)
    requires k < |inputs| && !inputs[k].isDummy
    ensures PositionOf(inputs[k]) in SpentPositions(inputs)
  {
    hide PositionOf;
    if k < |inputs| - 1 {
      NamedPosition(inputs[..|inputs| - 1], k);
    }
  }

  lemma {:induction false} ConsumedOfMembers(txs: seq<TxV1>, spends: Spends, tx: TxV1, p: nat)
    requires tx in txs && p in SpentPositions(spends(tx).Inputs())
    ensures p in ConsumedOf(txs, spends)
  {
    hide SpentPositions;
    var init, last := txs[..|txs| - 1], txs[|txs| - 1];
    assert txs == init + [last];
    if tx in init {
      ConsumedOfMembers(init, spends, tx, p);
    }
  }

  /** A non-dummy input of an accepted transaction is consumed from then on. */
  lemma ConsumedAfter(run: Run, genesis: seq<Note>, spends: Spends, i: nat, n: nat, tx: TxV1, k: nat)
    requires run.Valid() && i < n <= |run.batches| && tx in run.AcceptedIn(i)
    requires k < |spends(tx).Inputs()| && !spends(tx).Inputs()[k].isDummy
    ensures PositionOf(spends(tx).Inputs()[k]) in RunBook(run, genesis, spends, n).consumed
  {
    hide Filter, RewardNotes, OutputsOf, ConsumedOf, Apply, PositionOf, SpentPositions, Canonicalize;
    var p := PositionOf(spends(tx).Inputs()[k]);
    NamedPosition(spends(tx).Inputs(), k);
    ConsumedOfMembers(run.AcceptedIn(i), spends, tx, p);
    assert p in RunBook(run, genesis, spends, i + 1).consumed;
    BookGrows(run, genesis, spends, i + 1, n);
  }

  /** The nullifiers of an honestly proven transaction are those of its inputs under its key. */
  lemma InputsReveal(tx: TxV1, sp: Spend)
    requires ProvenBy(tx, sp)
    ensures |sp.Inputs()| == 2
    ensures forall k :: 0 <= k < 2 ==> tx.nullifiers[k] == sp.Inputs()[k].note.Nullifier(sp.key.Nk())
  {
    hide HashParts, PathVerifies, SortInputs, InputValue, TotalValue, OutputHolds;
    var w := Canonicalize(sp.opening);
    CanonicalKeeps(sp.opening);
    assert InputHolds(w, tx.ToPublicInputs(), 0) && InputHolds(w, tx.ToPublicInputs(), 1);
  }

  /** An accepted spend under this key revealed this rho from a dummy. */
  ghost predicate RevealedByDummy(run: Run, spends: Spends, key: SpendingKey, rho: Digest, n: nat)
    requires n <= |run.batches| && |run.states| == |run.batches| + 1
  {
    exists tx, k: nat :: tx in run.AcceptedBy(n) && HasDummy(spends(tx), key, rho, k)
  }

  ghost predicate HasDummy(sp: Spend, key: SpendingKey, rho: Digest, k: nat) {
    sp.key == key && k < |sp.Inputs()| && sp.Inputs()[k].isDummy && sp.Inputs()[k].note.rho == rho
  }

  /** The note at p is owned by the key, and the hashes behind its nullifier are logged. */
  ghost predicate Keyed(log: set<Preimage>, key: SpendingKey, note: Note) {
    key.Hashes() <= log && note.addrTag == key.AddrTag() && note.NullifierHash(key.Nk()) in log
  }

  /** Where a public nullifier came from: the input of an accepted spend under the note's own key. */
  lemma PublicOrigin(run: Run, c: Config, genesis: seq<Note>, spends: Spends, log: set<Preimage>, n: nat,
                     key: SpendingKey, note: Note) returns (i: nat, tx: TxV1, k: nat)
    requires run.From(c, Allocation(genesis)) && n <= |run.batches| && HonestRun(run, genesis, spends, log)
    requires Keyed(log, key, note) && note.Nullifier(key.Nk()) in run.states[n].nullifiers
    ensures i < n && tx in run.AcceptedIn(i) && k < |spends(tx).Inputs()|
    ensures spends(tx).key == key && spends(tx).Inputs()[k].note.rho == note.rho
  {
    hide Apply, Genesis, Allocation, CollisionFree, GenesisApart, RootOf, LogsTree, Filter, HashParts, PartsPreimage,
         NullifiersOf, LogsRewards, Canonicalize, DistinctRho, ProvenBy, LogsPairs;
    var nf := note.Nullifier(key.Nk());
    NoDoubleSpend(run, c, Allocation(genesis), n);
    NullifierOrigin(run.AcceptedBy(n), nf);
    tx :| tx in run.AcceptedBy(n) && nf in tx.nullifiers;
    i := AcceptedWhen(run, n, tx);
    assert HonestStep(run, spends, log, i);
    var sp := spends(tx);
    InputsReveal(tx, sp);
    k := if nf == tx.nullifiers[0] then 0 else 1;
    assert LogsInput(log, sp.Inputs()[k], sp.key);
    NullifierBinds(log, sp.Inputs()[k].note, sp.key.Nk(), note, key.Nk());
    NkBinds(log, sp.key, key);
  }

  /** In an honest run the nullifier of a leaf's note is public exactly when the leaf was consumed, or its
      owner revealed the note's rho from a dummy. */
  lemma PublicExactly(run: Run, c: Config, genesis: seq<Note>, spends: Spends, log: set<Preimage>, n: nat,
                      key: SpendingKey, p: nat)
    requires run.From(c, Allocation(genesis)) && n <= |run.batches| && HonestRun(run, genesis, spends, log)
    requires p < |RunBook(run, genesis, spends, n).notes|
    requires Keyed(log, key, RunBook(run, genesis, spends, n).notes[p])
    ensures var book := RunBook(run, genesis, spends, n);
            book.notes[p].Nullifier(key.Nk()) in run.states[n].nullifiers <==>
              p in book.consumed || RevealedByDummy(run, spends, key, book.notes[p].rho, n)
  {
    hide Apply, Genesis, Allocation, RunBook, HonestRun, RevealedByDummy, HashParts, PartsPreimage, Filter;
    var book, nfs := RunBook(run, genesis, spends, n), run.states[n].nullifiers;
    var note := book.notes[p];
    if note.Nullifier(key.Nk()) in nfs {
      var i, tx, k := PublicOrigin(run, c, genesis, spends, log, n, key, note);
      RevealedHow(run, c, genesis, spends, log, n, key, p, i, tx, k);
    }
    if p in book.consumed {
      ConsumedIsPublic(run, c, genesis, spends, log, n, key, p);
    }
    if RevealedByDummy(run, spends, key, note.rho, n) {
      DummyIsPublic(run, c, genesis, spends, log, n, key, note);
    }
  }

  lemma RevealedHow(run: Run, c: Config, genesis: seq<Note>, spends: Spends, log: set<Preimage>, n: nat,
                    key: SpendingKey, p: nat, i: nat, tx: TxV1, k: nat)
    requires run.From(c, Allocation(genesis)) && n <= |run.batches| && HonestRun(run, genesis, spends, log)
    requires p < |RunBook(run, genesis, spends, n).notes| && i < n && tx in run.AcceptedIn(i)
    requires spends(tx).key == key && k < |spends(tx).Inputs()|
    requires spends(tx).Inputs()[k].note.rho == RunBook(run, genesis, spends, n).notes[p].rho
    ensures p in RunBook(run, genesis, spends, n).consumed
         || RevealedByDummy(run, spends, key, RunBook(run, genesis, spends, n).notes[p].rho, n)
  {
    hide Apply, Genesis, Allocation, RunBook, HonestRun, Filter, PositionOf, RootOf, Canonicalize, Unspent,
         ConsumedValid, Origin, PartsPreimage;
    var book, input := RunBook(run, genesis, spends, n), spends(tx).Inputs()[k];
    if input.isDummy {
      AcceptedThen(run, n, i, tx);
      assert HasDummy(spends(tx), key, book.notes[p].rho, k);
    } else {
      ConsumedWereSealed(run, c, genesis, spends, log, i, tx, k);
      BookGrows(run, genesis, spends, i, n);
      ConsumedAfter(run, genesis, spends, i, n, tx, k);
      ValueConserved(run, c, genesis, spends, log, n);
      SamePlace(book.notes, PositionOf(input), p);
    }
  }

  lemma SamePlace(notes: seq<Note>, p: nat, q: nat)
    requires DistinctRho(notes) && p < |notes| && q < |notes| && notes[p].rho == notes[q].rho
    ensures p == q
  {
    assert p < q || q < p || p == q;
  }

  lemma ConsumedIsPublic(run: Run, c: Config, genesis: seq<Note>, spends: Spends, log: set<Preimage>, n: nat,
                         key: SpendingKey, p: nat)
    requires run.From(c, Allocation(genesis)) && n <= |run.batches| && HonestRun(run, genesis, spends, log)
    requires p < |RunBook(run, genesis, spends, n).notes| && p in RunBook(run, genesis, spends, n).consumed
    requires Keyed(log, key, RunBook(run, genesis, spends, n).notes[p])
    ensures RunBook(run, genesis, spends, n).notes[p].Nullifier(key.Nk()) in run.states[n].nullifiers
  {
    hide Apply, Genesis, Allocation, RunBook, RootOf, CollisionFree, NotesValid, Unspent, IsSpent, HonestStep, LogsTree,
         GenesisApart, HashParts, PartsPreimage;
    ValueConserved(run, c, genesis, spends, log, n);
    RespendRepeats(log, RunBook(run, genesis, spends, n).notes[p], key, run.states[n].nullifiers);
  }

  lemma DummyIsPublic(run: Run, c: Config, genesis: seq<Note>, spends: Spends, log: set<Preimage>, n: nat,
                      key: SpendingKey, note: Note)
    requires run.From(c, Allocation(genesis)) && n <= |run.batches| && HonestRun(run, genesis, spends, log)
    requires RevealedByDummy(run, spends, key, note.rho, n)
    ensures note.Nullifier(key.Nk()) in run.states[n].nullifiers
  {
    hide Apply, Genesis, Allocation, CollisionFree, GenesisApart, RootOf, LogsTree, Filter, HashParts, PartsPreimage,
         NullifiersOf, LogsRewards, Canonicalize, DistinctRho, ProvenBy, LogsSpend;
    var tx, k: nat :| tx in run.AcceptedBy(n) && HasDummy(spends(tx), key, note.rho, k);
    var i := AcceptedWhen(run, n, tx);
    assert HonestStep(run, spends, log, i);
    InputsReveal(tx, spends(tx));
    assert tx.nullifiers[k] in tx.nullifiers;
    NullifierOrigin(run.AcceptedBy(n), tx.nullifiers[k]);
    NoDoubleSpend(run, c, Allocation(genesis), n);
  }

  /** Every accepted spend under this key padded with the fixed dummies only, as `build_transfer` does. */
  ghost predicate OwnFixedDummies(run: Run, spends: Spends, sk: SpendingKey, n: nat)
    requires n <= |run.batches| && |run.states| == |run.batches| + 1
  {
    forall tx :: tx in run.AcceptedBy(n) && spends(tx).key == sk ==> FixedDummies(spends(tx).opening.inputs)
  }

  /** The nullifiers of a wallet's unconsumed notes are not public. */
  lemma Unrevealed(run: Run, c: Config, genesis: seq<Note>, spends: Spends, log: set<Preimage>, n: nat,
                   sk: SpendingKey, records: seq<NoteRecord>)
    requires run.From(c, Allocation(genesis)) && n <= |run.batches| && HonestRun(run, genesis, spends, log)
    requires OwnsAll(sk, records, RunBook(run, genesis, spends, n).notes) && LogsWallet(log, sk, records)
    requires NoDummyAllocated(genesis) && OwnFixedDummies(run, spends, sk, n)
    requires forall i :: 0 <= i < |records| ==> records[i].position !in RunBook(run, genesis, spends, n).consumed
    ensures forall i :: 0 <= i < |records| ==> records[i].note.Nullifier(sk.Nk()) !in run.states[n].nullifiers
  {
    hide Apply, Genesis, Allocation, RunBook, HonestRun, RevealedByDummy, HashParts, PartsPreimage, Filter,
         NoDummyAllocated, OwnFixedDummies, DummyInput, DummyRhoHash, Pow2;
    forall i | 0 <= i < |records|
      ensures records[i].note.Nullifier(sk.Nk()) !in run.states[n].nullifiers
    {
      assert Owns(sk, records[i], RunBook(run, genesis, spends, n).notes);
      PublicExactly(run, c, genesis, spends, log, n, sk, records[i].position);
      NotRevealedByDummy(run, c, genesis, spends, log, n, sk, records[i]);
    }
  }

  lemma NotRevealedByDummy(run: Run, c: Config, genesis: seq<Note>, spends: Spends, log: set<Preimage>, n: nat,
                           sk: SpendingKey, r: NoteRecord)
    requires run.From(c, Allocation(genesis)) && n <= |run.batches| && HonestRun(run, genesis, spends, log)
    requires Owns(sk, r, RunBook(run, genesis, spends, n).notes) && DummyRhoHash(0) in log && DummyRhoHash(1) in log
    requires NoDummyAllocated(genesis) && OwnFixedDummies(run, spends, sk, n)
    ensures !RevealedByDummy(run, spends, sk, r.note.rho, n)
  {
    hide Apply, Genesis, Allocation, RunBook, HonestStep, HashParts, PartsPreimage, Filter, NoDummyAllocated,
         DummyInput, DummyRhoHash, Owns, NotesValid, ConsumedValid, Unspent, Origin, CollisionFree, GenesisApart,
         LogsTree, DistinctRho, SortInputs;
    ValueConserved(run, c, genesis, spends, log, n);
    RecordOrigin(log, genesis, RunBook(run, genesis, spends, n).notes, run.states[n].nullifiers, n, sk, r);
    DummyHasNoOrigin(log, genesis, 0, run.states[n].nullifiers, n);
    DummyHasNoOrigin(log, genesis, 1, run.states[n].nullifiers, n);
    if RevealedByDummy(run, spends, sk, r.note.rho, n) {
      var tx, k: nat :| tx in run.AcceptedBy(n) && HasDummy(spends(tx), sk, r.note.rho, k);
      FixedWhenSorted(spends(tx).opening.spenderNk, spends(tx).opening.inputs);
    }
  }

  // ---------- an accepted payment ----------

  /** A revealed padding is all that can stand in the way of a wallet's transaction. */
  lemma AcceptedUnlessPadded(s: LedgerState, tx: TxV1, nk: Digest, records: seq<NoteRecord>, padding: set<Nullifier>)
    requires ValidateStateless(tx, DevVerifier, 0).Ok? && tx.antispam.PowLane? && tx.anchor in s.anchors
    requires Reveals(nk, records, padding, tx.nullifiers)
    requires forall i :: 0 <= i < |records| ==> records[i].note.Nullifier(nk) !in s.nullifiers
    ensures Verdict(s, [], tx, DevVerifier).None? <==>
              PowVerify(tx.BindingDigest(), tx.antispam.nonce, s.config.difficultyBits) && padding !! s.nullifiers
  {
    hide ValidateStateless, PowVerify, Verdict, HashParts;
    LedgerAccepts(s, [], tx, DevVerifier);
    NoNullifiers();
  }

  /** End to end, at any checkpoint of an honest run: a wallet with its own unconsumed notes builds a transfer
      exactly when it has the funds in at most two notes and the amount is in range, and the ledger accepts
      it exactly when its difficulty lets nonce 0 pass and the padding was not revealed before. */
  method Pay(wallet: WalletObject, recipient: Address, amount: u64, anchor: Anchor, witnessFor: WitnessLookup,
             seed: Digest, ghost run: Run, ghost c: Config, ghost genesis: seq<Note>, ghost spends: Spends,
             ghost log: set<Preimage>, ghost n: nat)
    returns (r: Result<TxV1, WalletError>)
    requires run.From(c, Allocation(genesis)) && n <= |run.batches| && HonestRun(run, genesis, spends, log)
    requires OwnsAll(wallet.sk, wallet.unspent, RunBook(run, genesis, spends, n).notes)
    requires LogsWallet(log, wallet.sk, wallet.unspent) && NoDummyAllocated(genesis)
    requires anchor == run.states[n].CurrentAnchor() && FromTree(run.states[n], witnessFor)
    requires Value(wallet.unspent) < TWO64
    requires OwnFixedDummies(run, spends, wallet.sk, n)
    requires forall i :: 0 <= i < |wallet.unspent| ==>
               wallet.unspent[i].position !in RunBook(run, genesis, spends, n).consumed
    ensures r.Ok? <==> Value(wallet.unspent) >= amount && Coverable(wallet.unspent, amount) && amount < MAX_MONEY
    ensures r.Ok? ==>
              && (exists w: SpendWitness :: ProvenBy(r.value, Spend(w, wallet.sk)) && FixedDummies(w.inputs))
              && (exists pay, back ::
                    && Pays(r.value, wallet.sk, recipient, amount, seed, pay, back)
                    && Value(wallet.unspent) == amount + back.value
                         + Value(Kept(wallet.sk.Nk(), wallet.unspent, Elements(r.value.nullifiers))))
              && (Verdict(run.states[n], [], r.value, DevVerifier).None? <==>
                    && PowVerify(r.value.BindingDigest(), 0, c.difficultyBits)
                    && Padding(wallet.sk.Nk(), wallet.unspent, amount) !! run.states[n].nullifiers)
  {
    hide HonestRun, RunBook, Apply, Genesis, Allocation, OwnsAll, LogsWallet, NoDummyAllocated, FromTree, RootOf,
         HealthyRecords, Coverable, Value, ValidateStateless, ProvenBy, PowVerify, Padding, Reveals, Verdict, HashParts,
         NeedsTwo, OwnFixedDummies, FixedDummies, Pays, Kept;
    Unrevealed(run, c, genesis, spends, log, n, wallet.sk, wallet.unspent);
    HonestHealthy(run, c, genesis, spends, log, n, wallet.sk, wallet.unspent, witnessFor);
    AnchorValidExactly(run, c, Allocation(genesis), n, anchor);
    HeightAndConfig(run, c, Allocation(genesis), n);
    r := wallet.BuildTransfer(recipient, amount, anchor, witnessFor, seed);
    if r.Ok? {
      AcceptedUnlessPadded(run.states[n], r.value, wallet.sk.Nk(), wallet.unspent,
                           Padding(wallet.sk.Nk(), wallet.unspent, amount));
    }
  }

  // ---------- what arrives ----------

  lemma {:induction false} OutputsPlace(txs: seq<TxV1>, spends: Spends, tx: TxV1) returns (q: nat)
    requires tx in txs && |spends(tx).Outputs()| == 2
    ensures q + 1 < |OutputsOf(txs, spends)|
    ensures OutputsOf(txs, spends)[q] == spends(tx).Outputs()[0]
    ensures OutputsOf(txs, spends)[q + 1] == spends(tx).Outputs()[1]
  {
    var init, last := txs[..|txs| - 1], txs[|txs| - 1];
    if last == tx {
      q := |OutputsOf(init, spends)|;
    } else {
      assert txs == init + [last];
      q := OutputsPlace(init, spends, tx);
    }
  }

  /** The note is in the book at p, and whoever holds the key behind its tag owns it there. */
  ghost predicate Arrived(notes: seq<Note>, note: Note, p: nat) {
    && p < |notes| && notes[p] == note
    && forall key: SpendingKey ::
         note.addrTag == key.AddrTag() && note.value < MAX_MONEY && p < TWO64 && p < Pow2(TREE_DEPTH) ==>
           Owns(key, NoteRecord(note, p), notes)
  }

  /** Once a payment is accepted, the book holds its two notes next to one another: the recipient owns the
      amount, the sender the change, and each can spend it. */
  lemma PaymentArrives(run: Run, c: Config, genesis: seq<Note>, spends: Spends, log: set<Preimage>, i: nat, tx: TxV1,
                       pay: Note, back: Note) returns (p: nat)
    requires run.From(c, Allocation(genesis)) && HonestRun(run, genesis, spends, log)
    requires i < |run.batches| && tx in run.AcceptedIn(i)
    requires tx.commitments == [pay.Commitment(), back.Commitment()]
    requires pay.CommitmentHash() in log && back.CommitmentHash() in log
    ensures var notes := RunBook(run, genesis, spends, i + 1).notes;
            |RunBook(run, genesis, spends, i).notes| <= p && Arrived(notes, pay, p) && Arrived(notes, back, p + 1)
  {
    hide Apply, Genesis, Allocation, RunBook, CollisionFree, GenesisApart, RootOf, LogsTree, Filter, HashParts,
         PartsPreimage, LogsRewards, DistinctRho, ProvenBy, LogsSpend, OutputsOf, ConsumedOf, RewardNotes, Pow2;
    assert HonestStep(run, spends, log, i);
    var sp := spends(tx);
    OutputFacts(log, tx, sp);
    assert tx.commitments[0] == sp.Outputs()[0].Commitment() && tx.commitments[1] == sp.Outputs()[1].Commitment();
    CommitmentBinds(log, pay, sp.Outputs()[0]);
    CommitmentBinds(log, back, sp.Outputs()[1]);
    BookStep(run, c, genesis, spends, i);
    var q := OutputsPlace(run.AcceptedIn(i), spends, tx);
    p := |RunBook(run, genesis, spends, i).notes| + q;
  }

  /** A validator owns its reward: in an honest run the note i places after the outputs of a checkpoint is
      validator i's, worth its proportion of the emission. */
  lemma RewardOwned(run: Run, c: Config, genesis: seq<Note>, spends: Spends, log: set<Preimage>, n: nat, i: nat)
    returns (note: Note)
    requires run.From(c, Allocation(genesis)) && HonestRun(run, genesis, spends, log) && n < |run.batches|
    requires i < |c.validators| && Sum(c.Weights()) > 0
    ensures var notes, p :=
              RunBook(run, genesis, spends, n + 1).notes,
              |run.states[n].leaves| + |CommitmentsOf(run.AcceptedIn(n))| + i;
            && Arrived(notes, note, p) && note.addrTag == c.validators[i].addrTag
            && InProportion(note.value, EmissionAt(c.emission, n + 1), c.validators[i].weight, Sum(c.Weights()))
  {
    hide Apply, Genesis, Allocation, RunBook, CollisionFree, GenesisApart, RootOf, LogsTree, Filter, HashParts,
         PartsPreimage, LogsRewards, DistinctRho, Honest, OutputsOf, ConsumedOf, RewardNotes, Pow2, EmissionAt, Sum,
         RhoMint, Balanced, CommitmentsOf, Minted, InProportion;
    HeightAndConfig(run, c, Allocation(genesis), n + 1);
    var amount := RewardAmount(c, n + 1, i);
    note := RewardNotes(c, n + 1)[i];
    BookStep(run, c, genesis, spends, n);
    BookLeaves(run, c, genesis, spends, log, n);
  }

  /** The notes of a checkpoint's outputs are as many as their commitments. */
  lemma BookLeaves(run: Run, c: Config, genesis: seq<Note>, spends: Spends, log: set<Preimage>, n: nat)
    requires run.From(c, Allocation(genesis)) && HonestRun(run, genesis, spends, log) && n < |run.batches|
    ensures |RunBook(run, genesis, spends, n).notes| == |run.states[n].leaves|
    ensures |OutputsOf(run.AcceptedIn(n), spends)| == |CommitmentsOf(run.AcceptedIn(n))|
  {
    hide Apply, Genesis, Allocation, RunBook, CollisionFree, GenesisApart, RootOf, LogsTree, Filter, HashParts,
         PartsPreimage, LogsRewards, DistinctRho, ProvenBy, LogsSpend, Balanced;
    ValueConserved(run, c, genesis, spends, log, n);
    assert HonestStep(run, spends, log, n);
    forall tx | tx in run.AcceptedIn(n)
      ensures |spends(tx).Outputs()| == 2
    {
      OutputFacts(log, tx, spends(tx));
    }
    OutputCount(run.AcceptedIn(n), spends);
  }

  lemma {:induction false} OutputCount(txs: seq<TxV1>, spends: Spends)
    requires forall tx :: tx in txs ==> |spends(tx).Outputs()| == 2
    ensures |OutputsOf(txs, spends)| == |CommitmentsOf(txs)|
  {
    if txs == [] {
    } else {
      OutputCount(txs[..|txs| - 1], spends);
    }
  }
}
