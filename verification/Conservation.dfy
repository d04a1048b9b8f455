/** Value conservation over every run: no note is created from nothing, consumed twice or lost, so the
    value of the unconsumed notes is always the recorded supply. */
module Conservation {
  import opened Bytes
  import opened Counting
  import opened Hashing
  import opened Interfaces
  import opened Notes
  import opened Merkle
  import opened Tree
  import opened Tx
  import opened Emission
  import opened Prover
  import opened Ledger
  import opened Batches
  import opened Runs
  import opened Book

  // ---------- fresh rho values ----------

  lemma OriginGrows(log: set<Preimage>, genesis: seq<Note>, rho: Digest, n: set<Nullifier>, h: nat,
                    n': set<Nullifier>, h': nat)
    requires Origin(log, genesis, rho, n, h) && n <= n' && h <= h'
    ensures Origin(log, genesis, rho, n', h')
  {
  }

  /** A transfer rho under a nullifier never accepted before has no origin yet. */
  lemma FreshTransfer(log: set<Preimage>, genesis: seq<Note>, nf: Nullifier, k: byte, nullifiers: set<Nullifier>,
                      height: nat)
    requires CollisionFree(log) && GenesisApart(log, genesis)
    requires RhoTransferHash(nf, k) in log && nf !in nullifiers
    ensures !Origin(log, genesis, RhoTransfer(nf, k), nullifiers, height)
  {
    hide CollisionFree, RhoTransfer, RhoMint, RhoTransferHash, RhoMintHash;
    var rho := RhoTransfer(nf, k);
    assert TransferOrigin(log, rho, nf, k);
    forall h: u64, j: byte
      ensures !MintOrigin(log, rho, h, j)
    {
      if MintOrigin(log, rho, h, j) {
        RhoKindsDiffer(log, nf, k, h, j);
      }
    }
    forall g: Nullifier, j: byte | TransferOrigin(log, rho, g, j)
      ensures g == nf
    {
      RhoTransferBinds(log, nf, k, g, j);
    }
  }

  /** Nor has a reward rho of a height not reached before. */
  lemma FreshMint(log: set<Preimage>, genesis: seq<Note>, h: u64, k: byte, nullifiers: set<Nullifier>, height: nat)
    requires CollisionFree(log) && GenesisApart(log, genesis)
    requires RhoMintHash(h, k) in log && h > height
    ensures !Origin(log, genesis, RhoMint(h, k), nullifiers, height)
  {
    hide CollisionFree, RhoTransfer, RhoMint, RhoTransferHash, RhoMintHash;
    var rho := RhoMint(h, k);
    assert MintOrigin(log, rho, h, k);
    forall g: u64, j: byte | MintOrigin(log, rho, g, j)
      ensures g == h
    {
      RhoMintBinds(log, h, k, g, j);
    }
    forall nf: Nullifier, j: byte
      ensures !TransferOrigin(log, rho, nf, j)
    {
      if TransferOrigin(log, rho, nf, j) {
        RhoKindsDiffer(log, nf, j, h, k);
      }
    }
  }

  /** New notes whose rho values are fresh and mutually different extend a valid list of notes. */
  lemma ExtendNotes(log: set<Preimage>, genesis: seq<Note>, notes: seq<Note>, more: seq<Note>,
                    n: set<Nullifier>, h: nat, n': set<Nullifier>, h': nat)
    requires NotesValid(log, genesis, notes, n, h) && n <= n' && h <= h'
    requires DistinctRho(more)
    requires forall i :: 0 <= i < |more| ==>
               && more[i].CommitmentHash() in log
               && Origin(log, genesis, more[i].rho, n', h') && !Origin(log, genesis, more[i].rho, n, h)
    ensures NotesValid(log, genesis, notes + more, n', h')
  {
    hide Origin;
    var all := notes + more;
    forall i | 0 <= i < |all|
      ensures all[i].CommitmentHash() in log && Origin(log, genesis, all[i].rho, n', h')
    {
      if i < |notes| {
        OriginGrows(log, genesis, notes[i].rho, n, h, n', h');
      }
    }
    forall i, j | 0 <= i < j < |all|
      ensures all[i].rho != all[j].rho
    {
      if i < |notes| <= j {
        assert Origin(log, genesis, notes[i].rho, n, h) && !Origin(log, genesis, more[j - |notes|].rho, n, h);
      } else if |notes| <= i {
        assert more[i - |notes|].rho != more[j - |notes|].rho;
      }
    }
  }

  // ---------- one accepted transaction ----------

  /** What the statement says about the outputs of a wire transaction. */
  lemma OutputFacts(log: set<Preimage>, tx: TxV1, sp: Spend)
    requires ProvenBy(tx, sp) && LogsSpend(log, tx, sp)
    ensures |sp.Inputs()| == |sp.Outputs()| == 2 && tx.commitments == NoteCommitments(sp.Outputs())
    ensures InputValue(sp.Inputs()) == TotalValue(sp.Outputs())
    ensures forall i :: 0 <= i < 2 ==>
              sp.Outputs()[i].rho == RhoTransfer(tx.nullifiers[0], i as byte) && sp.Outputs()[i].CommitmentHash() in log
  {
    hide HashParts, PathVerifies, SortInputs, InputValue, TotalValue, RhoTransfer, InputHolds, LogsInput;
    var w := Canonicalize(sp.opening);
    CanonicalKeeps(sp.opening);
    assert w.mintValue == tx.ToPublicInputs().mintValue == 0;
    assert OutputHolds(w, tx.ToPublicInputs(), 0) && OutputHolds(w, tx.ToPublicInputs(), 1);
  }

  /** The outputs of a transfer whose first nullifier is new carry rho values of their own. */
  lemma OutputsFresh(log: set<Preimage>, genesis: seq<Note>, nullifiers: set<Nullifier>, height: nat, tx: TxV1,
                     sp: Spend, i: nat)
    requires CollisionFree(log) && GenesisApart(log, genesis)
    requires ProvenBy(tx, sp) && LogsSpend(log, tx, sp) && tx.nullifiers[0] !in nullifiers && i < |sp.Outputs()| == 2
    ensures var out, after := sp.Outputs()[i], nullifiers + Elements(tx.nullifiers);
            && out.CommitmentHash() in log
            && Origin(log, genesis, out.rho, after, height) && !Origin(log, genesis, out.rho, nullifiers, height)
  {
    hide CollisionFree, ProvenBy, RhoTransfer, RhoTransferHash, GenesisApart, Origin, LogsInput, PartsPreimage,
         NoteCommitments;
    OutputFacts(log, tx, sp);
    var nf := tx.nullifiers[0];
    assert nf in tx.nullifiers;
    assert RhoTransferHash(nf, i as byte) in log;
    FreshTransfer(log, genesis, nf, i as byte, nullifiers, height);
    TransferIsOrigin(log, genesis, nf, i as byte, nullifiers + Elements(tx.nullifiers), height);
  }

  lemma OutputsDiffer(log: set<Preimage>, tx: TxV1, sp: Spend)
    requires CollisionFree(log) && ProvenBy(tx, sp) && LogsSpend(log, tx, sp)
    ensures |sp.Outputs()| == 2 && DistinctRho(sp.Outputs())
  {
    hide CollisionFree, ProvenBy, RhoTransfer, RhoTransferHash, LogsInput, PartsPreimage, NoteCommitments;
    OutputFacts(log, tx, sp);
    if sp.Outputs()[0].rho == sp.Outputs()[1].rho {
      RhoTransferBinds(log, tx.nullifiers[0], 0, tx.nullifiers[0], 1);
    }
  }

  lemma OutputsExtend(log: set<Preimage>, genesis: seq<Note>, notes: seq<Note>, nullifiers: set<Nullifier>, height: nat,
                      tx: TxV1, sp: Spend)
    requires CollisionFree(log) && GenesisApart(log, genesis) && NotesValid(log, genesis, notes, nullifiers, height)
    requires ProvenBy(tx, sp) && LogsSpend(log, tx, sp) && tx.nullifiers[0] !in nullifiers
    ensures NotesValid(log, genesis, notes + sp.Outputs(), nullifiers + Elements(tx.nullifiers), height)
  {
    hide CollisionFree, ProvenBy, LogsSpend, GenesisApart, NotesValid, Origin, DistinctRho, PartsPreimage, Elements;
    OutputsDiffer(log, tx, sp);
    var outs, after := sp.Outputs(), nullifiers + Elements(tx.nullifiers);
    forall i | 0 <= i < |outs|
      ensures outs[i].CommitmentHash() in log
      ensures Origin(log, genesis, outs[i].rho, after, height) && !Origin(log, genesis, outs[i].rho, nullifiers, height)
    {
      OutputsFresh(log, genesis, nullifiers, height, tx, sp, i);
    }
    ExtendNotes(log, genesis, notes, outs, nullifiers, height, after, height);
  }

  lemma TransferIsOrigin(log: set<Preimage>, genesis: seq<Note>, nf: Nullifier, k: byte, nullifiers: set<Nullifier>,
                         height: nat)
    requires RhoTransferHash(nf, k) in log && nf in nullifiers
    ensures Origin(log, genesis, RhoTransfer(nf, k), nullifiers, height)
  {
    hide RhoTransfer, RhoTransferHash;
    assert TransferOrigin(log, RhoTransfer(nf, k), nf, k);
  }

  lemma ConsumedExtend(log: set<Preimage>, book: Book, nullifiers: set<Nullifier>, tx: TxV1, sp: Spend,
                       sealed: seq<Digest>)
    requires Spending(log, book, nullifiers, tx, sp, sealed) && |sp.Inputs()| == 2
    requires Consumes(book, sealed, sp.Inputs())
    ensures ConsumedValid(log, Book(book.notes + sp.Outputs(), book.consumed + SpentPositions(sp.Inputs())),
                          nullifiers + Elements(tx.nullifiers))
  {
    hide ProvenBy, LogsSpend, LogsTree, CollisionFree, RootOf, PositionOf, SpentUnder, SpentPositions, Unspent;
    var after := nullifiers + Elements(tx.nullifiers);
    var all := Book(book.notes + sp.Outputs(), book.consumed + SpentPositions(sp.Inputs()));
    forall p | p in all.consumed
      ensures p < |all.notes| && IsSpent(log, all.notes[p], after)
    {
      if p in book.consumed {
        SpentGrows(log, book.notes[p], nullifiers, after);
      } else {
        assert NamedBy(sp.Inputs(), p);
        var i :| 0 <= i < |sp.Inputs()| && !sp.Inputs()[i].isDummy && PositionOf(sp.Inputs()[i]) == p;
        SpentInput(log, book, nullifiers, tx, sp, sealed, i);
      }
    }
  }

  lemma SpentGrows(log: set<Preimage>, note: Note, n: set<Nullifier>, n': set<Nullifier>)
    requires IsSpent(log, note, n) && n <= n'
    ensures IsSpent(log, note, n')
  {
    hide HashParts;
    var key :| SpentUnder(log, note, key, n);
    assert SpentUnder(log, note, key, n');
  }

  /** An accepted, honestly proven transaction keeps the book and the unspent value. */
  lemma SpendKeepsBook(log: set<Preimage>, genesis: seq<Note>, book: Book, nullifiers: set<Nullifier>, height: nat,
                       tx: TxV1, sp: Spend, sealed: seq<Digest>)
    requires Spending(log, book, nullifiers, tx, sp, sealed)
    requires GenesisApart(log, genesis) && NotesValid(log, genesis, book.notes, nullifiers, height)
    ensures var book' := Book(book.notes + sp.Outputs(), book.consumed + SpentPositions(sp.Inputs()));
            var nullifiers' := nullifiers + Elements(tx.nullifiers);
            && NotesValid(log, genesis, book'.notes, nullifiers', height)
            && ConsumedValid(log, book', nullifiers')
            && tx.commitments == NoteCommitments(sp.Outputs())
            && Unspent(book'.notes, Elements(book'.consumed)) == Unspent(book.notes, Elements(book.consumed))
  {
    hide ProvenBy, LogsSpend, LogsTree, CollisionFree, RootOf, SpentPositions, Unspent, GenesisApart, NotesValid,
         ConsumedValid, NoteCommitments, InputValue, TotalValue, NamedBy;
    OutputFacts(log, tx, sp);
    OutputsExtend(log, genesis, book.notes, nullifiers, height, tx, sp);
    ConsumeInputs(log, book, nullifiers, tx, sp, sealed, 2);
    assert sp.Inputs()[..2] == sp.Inputs();
    ConsumedExtend(log, book, nullifiers, tx, sp, sealed);
    AppendOutputs(log, book, nullifiers, sealed, sp);
  }

  lemma AppendOutputs(log: set<Preimage>, book: Book, nullifiers: set<Nullifier>, sealed: seq<Digest>, sp: Spend)
    requires ConsumedValid(log, book, nullifiers) && Seals(book.notes, sealed) && Consumes(book, sealed, sp.Inputs())
    ensures var consumed := Elements(book.consumed + SpentPositions(sp.Inputs()));
            Unspent(book.notes + sp.Outputs(), consumed) == Unspent(book.notes, consumed) + TotalValue(sp.Outputs())
  {
    hide SpentPositions, Unspent, IsSpent, NamedBy, TotalValue;
    var consumed := Elements(book.consumed + SpentPositions(sp.Inputs()));
    forall p | p in consumed
      ensures p < |book.notes|
    {
      assert p in book.consumed + SpentPositions(sp.Inputs());
    }
    UnspentAppend(book.notes, sp.Outputs(), consumed);
  }

  // ---------- a whole batch ----------

  /** The spend behind each transaction. */
  type Spends = TxV1 -> Spend

  function OutputsOf(txs: seq<TxV1>, spends: Spends): seq<Note> {
    if txs == [] then [] else OutputsOf(txs[..|txs| - 1], spends) + spends(txs[|txs| - 1]).Outputs()
  }

  function ConsumedOf(txs: seq<TxV1>, spends: Spends): seq<nat> {
    if txs == [] then [] else ConsumedOf(txs[..|txs| - 1], spends) + SpentPositions(spends(txs[|txs| - 1]).Inputs())
  }

  ghost predicate Honest(log: set<Preimage>, txs: seq<TxV1>, spends: Spends) {
    forall tx :: tx in txs ==> ProvenBy(tx, spends(tx)) && LogsSpend(log, tx, spends(tx))
  }

  ghost predicate SealedAt(log: set<Preimage>, leaves: seq<Digest>, root: Digest, m: nat) {
    m <= |leaves| && root == RootOf(leaves[..m]) && LogsTree(log, leaves[..m])
  }

  /** Every anchor in the window is the root of a prefix of the leaves. */
  ghost predicate AnchorsSealed(log: set<Preimage>, s: LedgerState) {
    forall a :: a in s.anchors ==> exists m: nat :: SealedAt(log, s.leaves, a.root, m)
  }

  /** The book, the nullifier set and the supply fit together. */
  ghost predicate Balanced(log: set<Preimage>, genesis: seq<Note>, book: Book, nullifiers: set<Nullifier>,
                           height: nat, supply: nat) {
    && NotesValid(log, genesis, book.notes, nullifiers, height)
    && ConsumedValid(log, book, nullifiers)
    && Unspent(book.notes, Elements(book.consumed)) == supply
  }

  ghost function BookAfter(book: Book, txs: seq<TxV1>, spends: Spends): Book {
    Book(book.notes + OutputsOf(txs, spends), book.consumed + ConsumedOf(txs, spends))
  }

  lemma BookSnoc(book: Book, txs: seq<TxV1>, tx: TxV1, spends: Spends)
    ensures var b := BookAfter(book, txs, spends);
            BookAfter(book, txs + [tx], spends)
            == Book(b.notes + spends(tx).Outputs(), b.consumed + SpentPositions(spends(tx).Inputs()))
    ensures CommitmentsOf(txs + [tx]) == CommitmentsOf(txs) + tx.commitments
    ensures Elements(NullifiersOf(txs + [tx])) == Elements(NullifiersOf(txs)) + Elements(tx.nullifiers)
  {
    hide SpentPositions;
    assert (txs + [tx])[..|txs|] == txs;
    assert book.notes + (OutputsOf(txs, spends) + spends(tx).Outputs())
             == (book.notes + OutputsOf(txs, spends)) + spends(tx).Outputs();
    var c, d := ConsumedOf(txs, spends), SpentPositions(spends(tx).Inputs());
    assert book.consumed + (c + d) == (book.consumed + c) + d;
    NullifiersSnoc(txs, tx);
  }

  lemma CommitmentsExtend(a: seq<Note>, b: seq<Note>)
    ensures NoteCommitments(a + b) == NoteCommitments(a) + NoteCommitments(b)
  {
  }

  /** The prefix a transaction was proven against lies behind the book's notes. */
  lemma AnchorSeals(log: set<Preimage>, s: LedgerState, a: Anchor, notes: seq<Note>,
                    outputs: seq<Note>) returns (sealed: seq<Digest>)
    requires AnchorsSealed(log, s) && a in s.anchors && s.leaves == NoteCommitments(notes)
    ensures LogsTree(log, sealed) && Seals(notes + outputs, sealed) && |sealed| <= |s.leaves|
    ensures a.root == RootOf(sealed)
  {
    hide RootOf, LogsTree;
    var m: nat :| SealedAt(log, s.leaves, a.root, m);
    sealed := s.leaves[..m];
  }

  /** Every accepted transaction of a batch keeps the balance. */
  lemma {:induction false} BatchBalanced(log: set<Preimage>, genesis: seq<Note>, s: LedgerState, txs: seq<TxV1>,
                                         verifier: Verifier, spends: Spends, book: Book, supply: nat)
    requires CollisionFree(log) && GenesisApart(log, genesis) && AnchorsSealed(log, s)
    requires Honest(log, Accepted(s, txs, verifier), spends)
    requires s.leaves == NoteCommitments(book.notes) && Balanced(log, genesis, book, s.nullifiers, s.height, supply)
    ensures var acc := Accepted(s, txs, verifier);
            && Balanced(log, genesis, BookAfter(book, acc, spends), s.nullifiers + Elements(NullifiersOf(acc)),
                 s.height, supply)
            && CommitmentsOf(acc) == NoteCommitments(OutputsOf(acc, spends))
  {
    hide Verdict, CollisionFree, GenesisApart, AnchorsSealed, Balanced, NoteCommitments, BookAfter, ProvenBy, LogsSpend,
         NullifiersOf, CommitmentsOf, OutputsOf;
    if txs == [] {
      NothingAccepted(log, genesis, book, s.nullifiers, s.height, supply, spends);
    } else {
      var i := |txs| - 1;
      var before, tx := Accepted(s, txs[..i], verifier), txs[i];
      assert Honest(log, before, spends);
      BatchBalanced(log, genesis, s, txs[..i], verifier, spends, book, supply);
      if Verdict(s, before, tx, verifier).None? {
        assert tx in before + [tx];
        TxBalanced(log, genesis, s, before, tx, verifier, spends, book, supply);
      }
    }
  }

  lemma NothingAccepted(log: set<Preimage>, genesis: seq<Note>, book: Book, nullifiers: set<Nullifier>, height: nat,
                        supply: nat, spends: Spends)
    requires Balanced(log, genesis, book, nullifiers, height, supply)
    ensures Balanced(log, genesis, BookAfter(book, [], spends), nullifiers + Elements(NullifiersOf([])), height, supply)
    ensures CommitmentsOf([]) == NoteCommitments(OutputsOf([], spends))
  {
    hide Balanced;
    assert book.notes + [] == book.notes && book.consumed + [] == book.consumed;
    assert nullifiers + Elements(NullifiersOf([])) == nullifiers;
  }

  lemma TxBalanced(log: set<Preimage>, genesis: seq<Note>, s: LedgerState, before: seq<TxV1>, tx: TxV1,
                   verifier: Verifier, spends: Spends, book: Book, supply: nat)
    requires CollisionFree(log) && GenesisApart(log, genesis) && AnchorsSealed(log, s)
    requires Verdict(s, before, tx, verifier).None?
    requires ProvenBy(tx, spends(tx)) && LogsSpend(log, tx, spends(tx))
    requires s.leaves == NoteCommitments(book.notes)
    requires Balanced(log, genesis, BookAfter(book, before, spends), s.nullifiers + Elements(NullifiersOf(before)),
               s.height, supply)
    requires CommitmentsOf(before) == NoteCommitments(OutputsOf(before, spends))
    ensures Balanced(log, genesis, BookAfter(book, before + [tx], spends),
                     s.nullifiers + Elements(NullifiersOf(before + [tx])), s.height, supply)
    ensures CommitmentsOf(before + [tx]) == NoteCommitments(OutputsOf(before + [tx], spends))
  {
    hide Verdict, CollisionFree, GenesisApart, AnchorsSealed, NoteCommitments, ProvenBy, LogsSpend,
         NullifiersOf, CommitmentsOf, ConsumedOf, OutputsOf, Unspent, SpentPositions, RootOf, LogsTree, DistinctRho,
         Origin, IsSpent;
    var sp := spends(tx);
    var now, nullifiers := BookAfter(book, before, spends), s.nullifiers + Elements(NullifiersOf(before));
    AcceptedPassed(s, before, tx, verifier);
    var sealed := AnchorSeals(log, s, tx.anchor, book.notes, OutputsOf(before, spends));
    assert tx.nullifiers[0] in tx.nullifiers && tx.nullifiers[1] in tx.nullifiers;
    SpendKeepsBook(log, genesis, now, nullifiers, s.height, tx, sp, sealed);
    BookSnoc(book, before, tx, spends);
    assert s.nullifiers + (Elements(NullifiersOf(before)) + Elements(tx.nullifiers))
             == nullifiers + Elements(tx.nullifiers);
    OutputsSnoc(before, tx, spends);
    CommitmentsExtend(OutputsOf(before, spends), sp.Outputs());
  }

  lemma OutputsSnoc(txs: seq<TxV1>, tx: TxV1, spends: Spends)
    ensures OutputsOf(txs + [tx], spends) == OutputsOf(txs, spends) + spends(tx).Outputs()
  {
  }

  // ---------- rewards ----------

  /** The commitments and rho values of the rewards of one height. */
  ghost predicate LogsRewards(log: set<Preimage>, c: Config, height: u64)
    requires c.Valid()
  {
    forall i :: 0 <= i < |RewardNotes(c, height)| ==>
      RewardNotes(c, height)[i].CommitmentHash() in log && RhoMintHash(height, i as byte) in log
  }

  lemma {:induction false} ValueIsSum(notes: seq<Note>, amounts: seq<int>)
    requires |notes| == |amounts| && forall i :: 0 <= i < |notes| ==> notes[i].value == amounts[i]
    ensures TotalValue(notes) == Sum(amounts)
  {
    if notes == [] {
    } else {
      ValueIsSum(notes[..|notes| - 1], amounts[..|amounts| - 1]);
    }
  }

  lemma RewardFacts(c: Config, height: u64)
    requires c.Valid()
    ensures TotalValue(RewardNotes(c, height)) == Minted(c, height)
    ensures |RewardNotes(c, height)| <= 128
    ensures forall i :: 0 <= i < |RewardNotes(c, height)| ==>
              RewardNotes(c, height)[i].rho == RhoMint(height, i as byte)
  {
    hide Rewards, RhoMint, Sum, TotalValue;
    ValueIsSum(RewardNotes(c, height), Amounts(Rewards(c, height)));
  }

  lemma RewardLogged(log: set<Preimage>, c: Config, height: u64, i: nat)
    requires c.Valid() && LogsRewards(log, c, height) && i < |RewardNotes(c, height)|
    ensures RewardNotes(c, height)[i].CommitmentHash() in log && RhoMintHash(height, i as byte) in log
  {
    hide RewardNotes, RhoMintHash, PartsPreimage;
    assert RewardNotes(c, height)[i].CommitmentHash() in log;
  }

  /** The rewards of a height not reached before carry rho values of their own. */
  lemma RewardsFresh(log: set<Preimage>, genesis: seq<Note>, c: Config, nullifiers: set<Nullifier>, next: u64)
    requires CollisionFree(log) && GenesisApart(log, genesis) && c.Valid() && next > 0 && LogsRewards(log, c, next)
    ensures DistinctRho(RewardNotes(c, next))
    ensures forall i :: 0 <= i < |RewardNotes(c, next)| ==>
              && RewardNotes(c, next)[i].CommitmentHash() in log
              && Origin(log, genesis, RewardNotes(c, next)[i].rho, nullifiers, next)
              && !Origin(log, genesis, RewardNotes(c, next)[i].rho, nullifiers, next - 1)
  {
    hide CollisionFree, GenesisApart, RewardNotes, RhoMint, RhoMintHash, Origin, Minted, TotalValue, PartsPreimage,
         LogsRewards;
    var more := RewardNotes(c, next);
    RewardFacts(c, next);
    forall i | 0 <= i < |more|
      ensures more[i].CommitmentHash() in log && Origin(log, genesis, more[i].rho, nullifiers, next)
                && !Origin(log, genesis, more[i].rho, nullifiers, next - 1)
    {
      RewardLogged(log, c, next, i);
      FreshMint(log, genesis, next, i as byte, nullifiers, next - 1);
      MintIsOrigin(log, genesis, next, i as byte, nullifiers);
    }
    forall i, j | 0 <= i < j < |more|
      ensures more[i].rho != more[j].rho
    {
      RewardLogged(log, c, next, i);
      RewardLogged(log, c, next, j);
      if more[i].rho == more[j].rho {
        RhoMintBinds(log, next, i as byte, next, j as byte);
      }
    }
  }

  lemma MintBalanced(log: set<Preimage>, genesis: seq<Note>, c: Config, book: Book, nullifiers: set<Nullifier>,
                     next: u64, supply: nat)
    requires CollisionFree(log) && GenesisApart(log, genesis) && c.Valid() && next > 0 && LogsRewards(log, c, next)
    requires Balanced(log, genesis, book, nullifiers, next - 1, supply)
    ensures Minted(c, next) >= 0
    ensures Balanced(log, genesis, Book(book.notes + RewardNotes(c, next), book.consumed), nullifiers, next,
                     supply + Minted(c, next))
  {
    hide CollisionFree, GenesisApart, RewardNotes, Minted, RhoMint, RhoMintHash, Unspent, TotalValue, Origin, IsSpent,
         LogsRewards, NotesValid;
    var more := RewardNotes(c, next);
    RewardFacts(c, next);
    RewardsFresh(log, genesis, c, nullifiers, next);
    ExtendNotes(log, genesis, book.notes, more, nullifiers, next - 1, nullifiers, next);
    var consumed := Elements(book.consumed);
    forall p | p in consumed
      ensures p < |book.notes|
    {
      assert p in book.consumed;
    }
    UnspentAppend(book.notes, more, consumed);
  }

  lemma MintIsOrigin(log: set<Preimage>, genesis: seq<Note>, h: u64, k: byte, nullifiers: set<Nullifier>)
    requires RhoMintHash(h, k) in log && h > 0
    ensures Origin(log, genesis, RhoMint(h, k), nullifiers, h)
  {
    hide RhoMint, RhoMintHash;
    assert MintOrigin(log, RhoMint(h, k), h, k);
  }

  // ---------- whole runs ----------

  /** The allocation passed to `genesis`: the notes' commitments and values. */
  function Allocation(genesis: seq<Note>): (a: seq<(Commitment, u64)>)
    ensures |a| == |genesis|
  {
    seq(|genesis|, i requires 0 <= i < |genesis| => (genesis[i].Commitment(), genesis[i].value))
  }

  lemma {:induction false} AllocationValue(genesis: seq<Note>)
    ensures GenesisValue(Allocation(genesis)) == TotalValue(genesis) == Unspent(genesis, {})
  {
    if genesis == [] {
    } else {
      var n := |genesis| - 1;
      AllocationValue(genesis[..n]);
      assert Allocation(genesis)[..n] == Allocation(genesis[..n]);
    }
  }

  /** The book after n checkpoints: the notes behind the leaves, and the consumed positions in order. */
  ghost function RunBook(run: Run, genesis: seq<Note>, spends: Spends, n: nat): Book
    requires run.Valid() && n <= |run.batches|
  {
    if n == 0 then Book(genesis, [])
    else
      var b := BookAfter(RunBook(run, genesis, spends, n - 1), run.AcceptedIn(n - 1), spends);
      assert run.Steps(n - 1);
      Book(b.notes + RewardNotes(run.states[n - 1].config, run.states[n].height), b.consumed)
  }

  /** The hypotheses: every accepted transaction came from `prove` with one consistent key; the hashes of
      the run do not collide; allocation notes have their own rho values. */
  ghost predicate HonestRun(run: Run, genesis: seq<Note>, spends: Spends, log: set<Preimage>)
    requires run.Valid()
  {
    && CollisionFree(log) && GenesisApart(log, genesis) && DistinctRho(genesis)
    && (forall i :: 0 <= i < |genesis| ==> genesis[i].CommitmentHash() in log)
    && (forall i :: 0 <= i < |run.batches| ==> HonestStep(run, spends, log, i))
    && (forall i :: 0 <= i < |run.states| ==> LogsTree(log, run.states[i].leaves))
  }

  ghost predicate HonestStep(run: Run, spends: Spends, log: set<Preimage>, i: nat)
    requires run.Valid() && i < |run.batches|
  {
    assert run.Steps(i);
    && Honest(log, run.AcceptedIn(i), spends)
    && LogsRewards(log, run.states[i].config, run.states[i + 1].height)
  }

  lemma AnchorsAreSealed(run: Run, c: Config, notes: seq<(Commitment, u64)>, log: set<Preimage>, n: nat)
    requires run.From(c, notes) && n < |run.states|
    requires forall i :: 0 <= i < |run.states| ==> LogsTree(log, run.states[i].leaves)
    ensures AnchorsSealed(log, run.Start(n))
  {
    hide RootOf, LogsTree, Apply, Genesis;
    var s := run.Start(n);
    forall a | a in s.anchors
      ensures exists m: nat :: SealedAt(log, s.leaves, a.root, m)
    {
      StartAnchors(run, c, notes, n, a);
      AnchorValidExactly(run, c, notes, n, a);
      LeavesGrow(run, a.height, n);
      var m := |run.states[a.height].leaves|;
      assert s.leaves[..m] == run.states[a.height].leaves;
      assert SealedAt(log, s.leaves, a.root, m);
    }
  }

  lemma AllocationOrigin(log: set<Preimage>, genesis: seq<Note>, g: Note, nullifiers: set<Nullifier>, height: nat)
    requires g in genesis
    ensures Origin(log, genesis, g.rho, nullifiers, height)
  {
    hide MintOrigin, TransferOrigin;
  }

  lemma AllocationNotes(log: set<Preimage>, genesis: seq<Note>)
    requires DistinctRho(genesis) && forall i :: 0 <= i < |genesis| ==> genesis[i].CommitmentHash() in log
    ensures NotesValid(log, genesis, genesis, {}, 0)
  {
    hide Origin, DistinctRho, PartsPreimage;
    forall i | 0 <= i < |genesis|
      ensures Origin(log, genesis, genesis[i].rho, {}, 0)
    {
      AllocationOrigin(log, genesis, genesis[i], {}, 0);
    }
  }

  lemma UntouchedBook(log: set<Preimage>, notes: seq<Note>)
    ensures ConsumedValid(log, Book(notes, []), {}) && Elements(Book(notes, []).consumed) == {}
  {
    hide IsSpent;
  }

  lemma GenesisBalanced(log: set<Preimage>, genesis: seq<Note>, supply: nat)
    requires DistinctRho(genesis) && supply == Unspent(genesis, {})
    requires forall i :: 0 <= i < |genesis| ==> genesis[i].CommitmentHash() in log
    ensures Balanced(log, genesis, Book(genesis, []), {}, 0, supply)
  {
    hide Unspent, ConsumedValid, NotesValid, DistinctRho, PartsPreimage;
    AllocationNotes(log, genesis);
    UntouchedBook(log, genesis);
  }

  lemma GenesisConserved(run: Run, c: Config, genesis: seq<Note>, spends: Spends, log: set<Preimage>)
    requires run.From(c, Allocation(genesis)) && HonestRun(run, genesis, spends, log)
    ensures var book, s := RunBook(run, genesis, spends, 0), run.states[0];
            && s.leaves == NoteCommitments(book.notes)
            && Balanced(log, genesis, book, s.nullifiers, 0, s.supply)
  {
    hide Apply, Balanced, CollisionFree, GenesisApart, LogsTree, NoteCommitments, RootOf, Unspent, HonestStep,
         Allocation, PartsPreimage, GenesisValue, TotalValue;
    AllocationValue(genesis);
    AllocationLeaves(genesis);
    GenesisBalanced(log, genesis, run.states[0].supply);
  }

  /** Conservation: after every checkpoint of an honest run each leaf is the commitment of its note, no two
      notes share a rho, no leaf was consumed twice, and the unconsumed notes are worth the supply. */
  lemma {:induction false} ValueConserved(run: Run, c: Config, genesis: seq<Note>, spends: Spends,
                                          log: set<Preimage>, n: nat)
    requires run.From(c, Allocation(genesis)) && n <= |run.batches|
    requires HonestRun(run, genesis, spends, log)
    ensures var book, s := RunBook(run, genesis, spends, n), run.states[n];
            && s.leaves == NoteCommitments(book.notes)
            && Balanced(log, genesis, book, s.nullifiers, n, s.supply)
  {
    hide Apply, Balanced, NoteCommitments, Genesis, Allocation, HonestRun, RunBook;
    if n == 0 {
      GenesisConserved(run, c, genesis, spends, log);
    } else {
      ValueConserved(run, c, genesis, spends, log, n - 1);
      StepConserved(run, c, genesis, spends, log, n - 1);
    }
  }

  /** What one checkpoint adds to the book. */
  lemma BookStep(run: Run, c: Config, genesis: seq<Note>, spends: Spends, m: nat)
    requires run.From(c, Allocation(genesis)) && m < |run.batches|
    ensures m + 1 < TWO64
    ensures var mid := BookAfter(RunBook(run, genesis, spends, m), run.AcceptedIn(m), spends);
            RunBook(run, genesis, spends, m + 1) == Book(mid.notes + RewardNotes(c, m + 1), mid.consumed)
  {
    hide Apply, RewardNotes, Genesis, Allocation, BookAfter, Filter;
    HeightAndConfig(run, c, Allocation(genesis), m);
    HeightAndConfig(run, c, Allocation(genesis), m + 1);
  }

  lemma StepConserved(run: Run, c: Config, genesis: seq<Note>, spends: Spends, log: set<Preimage>, m: nat)
    requires run.From(c, Allocation(genesis)) && m < |run.batches| && HonestRun(run, genesis, spends, log)
    requires run.states[m].leaves == NoteCommitments(RunBook(run, genesis, spends, m).notes)
    requires Balanced(log, genesis, RunBook(run, genesis, spends, m), run.states[m].nullifiers, m, run.states[m].supply)
    ensures var book, s := RunBook(run, genesis, spends, m + 1), run.states[m + 1];
            && s.leaves == NoteCommitments(book.notes)
            && Balanced(log, genesis, book, s.nullifiers, m + 1, s.supply)
  {
    hide Apply, Balanced, CollisionFree, GenesisApart, LogsTree, NoteCommitments, RootOf, NullifiersOf, CommitmentsOf,
         OutputsOf, ConsumedOf, RewardNotes, Filter, LogsRewards, Honest, Evict, SlotsAfter, Minted, Unspent, Genesis,
         Allocation, DistinctRho, RunBook, PartsPreimage, AnchorsSealed;
    var s, book, acc := run.Start(m), RunBook(run, genesis, spends, m), run.AcceptedIn(m);
    assert HonestStep(run, spends, log, m);
    StepFacts(run, m);
    HeightAndConfig(run, c, Allocation(genesis), m);
    AnchorsAreSealed(run, c, Allocation(genesis), log, m);
    BatchBalanced(log, genesis, s, run.batches[m], run.verifier, spends, book, s.supply);
    BookStep(run, c, genesis, spends, m);
    var mid := BookAfter(book, acc, spends);
    MintBalanced(log, genesis, c, mid, run.states[m + 1].nullifiers, m + 1, s.supply);
    CommitmentsExtend(book.notes, OutputsOf(acc, spends));
    CommitmentsExtend(mid.notes, RewardNotes(c, m + 1));
  }

  lemma AllocationLeaves(genesis: seq<Note>)
    ensures GenesisLeaves(Allocation(genesis)) == NoteCommitments(genesis)
  {
  }

  /** The conclusions, spelled out. */
  lemma SupplyIsUnspentValue(run: Run, c: Config, genesis: seq<Note>, spends: Spends, log: set<Preimage>)
    requires run.From(c, Allocation(genesis)) && HonestRun(run, genesis, spends, log)
    ensures var book := RunBook(run, genesis, spends, |run.batches|);
            && run.Last().supply == Unspent(book.notes, Elements(book.consumed))
            && (forall i, j :: 0 <= i < j < |book.notes| ==> book.notes[i].rho != book.notes[j].rho)
            && (forall i, j :: 0 <= i < j < |book.consumed| ==> book.consumed[i] != book.consumed[j])
            && (forall i :: 0 <= i < |book.consumed| ==> book.consumed[i] < |book.notes| == |run.Last().leaves|)
  {
    hide Apply, CollisionFree, HonestRun, RootOf, Unspent, Origin, IsSpent, RunBook, Allocation;
    ValueConserved(run, c, genesis, spends, log, |run.batches|);
    var book := RunBook(run, genesis, spends, |run.batches|);
    assert forall i :: 0 <= i < |book.consumed| ==> book.consumed[i] in book.consumed;
  }

  // ---------- consumed notes were sealed ----------

  lemma {:induction false} AcceptedAnchored(s: LedgerState, txs: seq<TxV1>, verifier: Verifier, tx: TxV1)
    requires tx in Accepted(s, txs, verifier)
    ensures tx.anchor in s.anchors
  {
    hide Verdict;
    var i := |txs| - 1;
    var before := Accepted(s, txs[..i], verifier);
    if tx in before {
      AcceptedAnchored(s, txs[..i], verifier, tx);
    } else {
      AcceptedPassed(s, before, txs[i], verifier);
    }
  }

  /** Every note an accepted transaction consumes was a leaf already sealed at the height of its anchor. */
  lemma ConsumedWereSealed(run: Run, c: Config, genesis: seq<Note>, spends: Spends, log: set<Preimage>, i: nat,
                           tx: TxV1, k: nat)
    requires run.From(c, Allocation(genesis)) && HonestRun(run, genesis, spends, log)
    requires i < |run.batches| && tx in run.AcceptedIn(i)
    requires k < |spends(tx).Inputs()| && !spends(tx).Inputs()[k].isDummy
    ensures var input := spends(tx).Inputs()[k];
            && tx.anchor.height <= i && i - tx.anchor.height < ANCHOR_WINDOW
            && PositionOf(input) < |run.states[tx.anchor.height].leaves| <= |RunBook(run, genesis, spends, i).notes|
            && RunBook(run, genesis, spends, i).notes[PositionOf(input)] == input.note
  {
    hide Apply, CollisionFree, GenesisApart, RootOf, Unspent, Origin, IsSpent, RunBook, Allocation, LogsTree, Filter,
         PathVerifies, PositionOf, HashParts, SortInputs, Canonicalize, DistinctRho, LogsPairs, InputValue, TotalValue,
         Genesis, LogsRewards;
    var input, notes, a := spends(tx).Inputs()[k], RunBook(run, genesis, spends, i).notes, tx.anchor;
    ValueConserved(run, c, genesis, spends, log, i);
    assert HonestStep(run, spends, log, i);
    AcceptedAnchored(run.Start(i), run.batches[i], run.verifier, tx);
    StartAnchors(run, c, Allocation(genesis), i, tx.anchor);
    AnchorValidExactly(run, c, Allocation(genesis), i, a);
    LeavesGrow(run, a.height, i);
    var sealed := run.states[a.height].leaves;
    assert ProvenBy(tx, spends(tx)) && LogsSpend(log, tx, spends(tx));
    assert InputHolds(Canonicalize(spends(tx).opening), tx.ToPublicInputs(), k);
    assert LogsInput(log, input, spends(tx).key);
    InputIsLeaf(log, notes, sealed, input, spends(tx).key);
  }
}
