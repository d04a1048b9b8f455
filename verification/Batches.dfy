/** What filtering one batch guarantees: no double spend inside it, exact rejection reasons, and rejected
    transactions without any effect. */
module Batches {
  import opened Bytes
  import opened Counting
  import opened Interfaces
  import opened Notes
  import Field
  import opened Quota
  import opened Tx
  import opened Ledger
  import opened Merkle
  import opened Tree
  import opened Emission

  // ---------- lists of accepted transactions ----------

  lemma NullifiersSnoc(txs: seq<TxV1>, tx: TxV1)
    ensures NullifiersOf(txs + [tx]) == NullifiersOf(txs) + tx.nullifiers
    ensures CommitmentsOf(txs + [tx]) == CommitmentsOf(txs) + tx.commitments
  {
  }

  lemma {:induction false} NullifierOrigin(txs: seq<TxV1>, nf: Nullifier)
    ensures nf in NullifiersOf(txs) <==> exists tx :: tx in txs && nf in tx.nullifiers
  {
    if txs == [] {
    } else {
      var n := |txs| - 1;
      NullifierOrigin(txs[..n], nf);
      assert txs == txs[..n] + [txs[n]];
    }
  }

  lemma DistinctSnoc(s: seq<Nullifier>, t: DigestPair)
    requires Distinct(s) && t[0] != t[1] && t[0] !in s && t[1] !in s
    ensures Distinct(s + t)
  {
  }

  // ---------- no double spend inside a batch ----------

  lemma AcceptedPassed(s: LedgerState, accepted: seq<TxV1>, tx: TxV1, verifier: Verifier)
    requires Verdict(s, accepted, tx, verifier).None?
    ensures tx.anchor in s.anchors && ValidateStateless(tx, verifier, s.config.difficultyBits).Ok?
    ensures tx.nullifiers[0] != tx.nullifiers[1]
    ensures forall nf :: nf in tx.nullifiers ==> nf !in s.nullifiers && nf !in NullifiersOf(accepted)
  {
    hide NullifiersOf, ValidateStateless, SlotsAfter;
    StatelessMeans(tx, verifier, s.config.difficultyBits);
  }

  /** The nullifiers a batch adds are pairwise different and new. */
  lemma {:induction false} BatchNullifiersFresh(s: LedgerState, txs: seq<TxV1>, verifier: Verifier)
    ensures Distinct(NullifiersOf(Accepted(s, txs, verifier)))
    ensures forall nf :: nf in NullifiersOf(Accepted(s, txs, verifier)) ==> nf !in s.nullifiers
  {
    hide NullifiersOf, Verdict;
    if txs == [] {
      assert NullifiersOf([]) == [] by { NoNullifiers(); }
    } else {
      var i := |txs| - 1;
      var before := Accepted(s, txs[..i], verifier);
      BatchNullifiersFresh(s, txs[..i], verifier);
      if Verdict(s, before, txs[i], verifier).None? {
        AcceptedPassed(s, before, txs[i], verifier);
        NullifiersSnoc(before, txs[i]);
        assert txs[i].nullifiers[0] in txs[i].nullifiers && txs[i].nullifiers[1] in txs[i].nullifiers;
        DistinctSnoc(NullifiersOf(before), txs[i].nullifiers);
      }
    }
  }

  lemma NoNullifiers()
    ensures NullifiersOf([]) == []
  {
  }

  // ---------- one more transaction ----------

  function WithRow(rows: seq<(nat, RejectReason)>, v: Option<RejectReason>, i: nat): seq<(nat, RejectReason)> {
    if v.Some? then rows + [(i, v.value)] else rows
  }

  lemma FilterSnoc(s: LedgerState, init: seq<TxV1>, tx: TxV1, verifier: Verifier)
    ensures var before, after := Filter(s, init, verifier), Filter(s, init + [tx], verifier);
            var v := Verdict(s, before.accepted, tx, verifier);
            && after.rejected == WithRow(before.rejected, v, |init|)
            && after.accepted == if v.None? then before.accepted + [tx] else before.accepted
  {
    hide Verdict;
    assert (init + [tx])[..|init|] == init;
  }

  lemma AcceptedAdmits(s: LedgerState, accepted: seq<TxV1>, tx: TxV1, verifier: Verifier)
    requires Verdict(s, accepted, tx, verifier).None?
    ensures tx.antispam.QuotaLane? ==>
              && AdmitResult(SlotsAfter(s.slots, accepted), tx.antispam.proof) == Admitted
              && tx.antispam.proof.epoch == (s.height + 1) / EPOCH_LENGTH
  {
    hide ValidateStateless, NullifiersOf, SlotsAfter, AdmitResult;
  }

  /** Every quota-lane transaction a batch accepts carries the epoch of the next height. */
  lemma {:induction false} AcceptedEpoch(s: LedgerState, txs: seq<TxV1>, verifier: Verifier, tx: TxV1)
    requires tx in Accepted(s, txs, verifier) && tx.antispam.QuotaLane?
    ensures tx.antispam.proof.epoch == (s.height + 1) / EPOCH_LENGTH
  {
    hide Verdict, AdmitResult, SlotsAfter;
    if txs == [] {
    } else {
      hide Filter;
      var init, last := txs[..|txs| - 1], txs[|txs| - 1];
      assert txs == init + [last];
      FilterSnoc(s, init, last, verifier);
      if tx in Accepted(s, init, verifier) {
        AcceptedEpoch(s, init, verifier, tx);
      } else {
        AcceptedAdmits(s, Accepted(s, init, verifier), last, verifier);
      }
    }
  }

  // ---------- exact rejection reasons ----------

  /** Position i of the batch is rejected with reason r exactly when the verdict reached there was r. */
  lemma {:induction false} RejectedExactly(s: LedgerState, txs: seq<TxV1>, verifier: Verifier, i: nat, r: RejectReason)
    requires i < |txs|
    ensures (i, r) in Filter(s, txs, verifier).rejected
       <==> Verdict(s, Accepted(s, txs[..i], verifier), txs[i], verifier) == Some(r)
    ensures forall e :: e in Filter(s, txs, verifier).rejected ==> e.0 < |txs|
  {
    hide Verdict;
    var n := |txs| - 1;
    if i < n {
      RejectedExactly(s, txs[..n], verifier, i, r);
      assert txs[..n][..i] == txs[..i];
    } else {
      RejectedBelow(s, txs[..n], verifier);
    }
  }

  lemma {:induction false} RejectedBelow(s: LedgerState, txs: seq<TxV1>, verifier: Verifier)
    ensures forall e :: e in Filter(s, txs, verifier).rejected ==> e.0 < |txs|
  {
    hide Verdict;
    if txs == [] {
    } else {
      RejectedBelow(s, txs[..|txs| - 1], verifier);
    }
  }

  /** `DoubleSpend` is reported exactly for transactions that pass the earlier checks and share a
      nullifier with the committed set or with an earlier accepted transaction of the batch. */
  lemma DoubleSpendExactly(s: LedgerState, txs: seq<TxV1>, verifier: Verifier, i: nat)
    requires i < |txs|
    ensures (i, DoubleSpend) in Filter(s, txs, verifier).rejected <==>
              && txs[i].anchor in s.anchors
              && ValidateStateless(txs[i], verifier, s.config.difficultyBits).Ok?
              && exists nf :: nf in txs[i].nullifiers
                   && (nf in s.nullifiers || exists t :: t in Accepted(s, txs[..i], verifier) && nf in t.nullifiers)
  {
    hide Filter, NullifiersOf, ValidateStateless, SlotsAfter;
    RejectedExactly(s, txs, verifier, i, DoubleSpend);
    var before := Accepted(s, txs[..i], verifier);
    forall nf
      ensures nf in NullifiersOf(before) <==> exists t :: t in before && nf in t.nullifiers
    {
      NullifierOrigin(before, nf);
    }
  }

  /** `StaleOrUnknownAnchor` is reported exactly for transactions whose anchor is not in the window. */
  lemma StaleExactly(s: LedgerState, txs: seq<TxV1>, verifier: Verifier, i: nat)
    requires i < |txs|
    ensures (i, StaleOrUnknownAnchor) in Filter(s, txs, verifier).rejected <==> txs[i].anchor !in s.anchors
  {
    hide Filter, NullifiersOf, ValidateStateless, SlotsAfter;
    RejectedExactly(s, txs, verifier, i, StaleOrUnknownAnchor);
  }

  /** `StatelessInvalid` exactly for those with a valid anchor that fail stateless validation. */
  lemma StatelessInvalidExactly(s: LedgerState, txs: seq<TxV1>, verifier: Verifier, i: nat)
    requires i < |txs|
    ensures (i, StatelessInvalid) in Filter(s, txs, verifier).rejected <==>
              txs[i].anchor in s.anchors && ValidateStateless(txs[i], verifier, s.config.difficultyBits).Err?
  {
    hide Filter, NullifiersOf, ValidateStateless, SlotsAfter;
    RejectedExactly(s, txs, verifier, i, StatelessInvalid);
  }

  lemma {:induction false} SlotOrigin(slots: Slots, txs: seq<TxV1>, slot: Slot)
    ensures slot in SlotsAfter(slots, txs) <==>
              slot in slots || exists t :: t in txs && t.antispam.QuotaLane? && SlotOf(t.antispam.proof) == slot
  {
    if txs == [] {
    } else {
      var n := |txs| - 1;
      SlotOrigin(slots, txs[..n], slot);
      assert txs == txs[..n] + [txs[n]];
    }
  }

  /** `QuotaRejected` exactly for quota-lane transactions that pass all earlier checks and carry another epoch
      than that of the next height, a hundred checkpoints each, or a slot already used before or earlier in
      the batch. */
  lemma QuotaRejectedExactly(s: LedgerState, txs: seq<TxV1>, verifier: Verifier, i: nat)
    requires i < |txs|
    ensures (i, QuotaRejected) in Filter(s, txs, verifier).rejected <==>
              var tx, before := txs[i], Accepted(s, txs[..i], verifier);
              && tx.anchor in s.anchors && ValidateStateless(tx, verifier, s.config.difficultyBits).Ok?
              && !Conflicts(s, before, tx) && tx.antispam.QuotaLane?
              && (|| tx.antispam.proof.epoch != (s.height + 1) / 100
                  || SlotOf(tx.antispam.proof) in s.slots
                  || exists t :: t in before && t.antispam.QuotaLane?
                       && SlotOf(t.antispam.proof) == SlotOf(tx.antispam.proof))
  {
    hide Filter, NullifiersOf, ValidateStateless, SlotsAfter, Conflicts, Field.Interpolate;
    RejectedExactly(s, txs, verifier, i, QuotaRejected);
    if txs[i].antispam.QuotaLane? {
      SlotOrigin(s.slots, Accepted(s, txs[..i], verifier), SlotOf(txs[i].antispam.proof));
    }
  }

  // ---------- outputs and rewards in the tree ----------

  lemma {:induction false} CommitmentPlaces(txs: seq<TxV1>, j: nat, k: nat)
    requires j < |txs| && k < 2
    ensures |CommitmentsOf(txs)| == 2 * |txs| && CommitmentsOf(txs)[2 * j + k] == txs[j].commitments[k]
  {
    var n := |txs| - 1;
    if n == 0 {
      assert CommitmentsOf(txs[..n]) == [];
    } else {
      CommitmentPlaces(txs[..n], if j < n then j else 0, k);
    }
  }

  lemma NoCommitments()
    ensures CommitmentsOf([]) == []
  {
  }

  /** The next leaves: the old ones, the accepted outputs, the rewards. */
  lemma NextLeaves(s: LedgerState, txs: seq<TxV1>, verifier: Verifier)
    requires s.Ready()
    ensures Apply(s, txs, verifier).leaves
         == s.leaves + CommitmentsOf(Accepted(s, txs, verifier))
              + NoteCommitments(RewardNotes(s.config, s.height + 1))
  {
    hide Filter, CommitmentsOf, RewardNotes, NoteCommitments, RootOf, Evict, Minted;
  }

  /** The reported positions: two for each accepted transaction, ascending from the old end of the tree, and
      at each the commitment it stands for. */
  lemma OutputPositionsExactly(s: LedgerState, txs: seq<TxV1>, verifier: Verifier, j: nat, k: nat)
    requires s.Ready() && j < |Accepted(s, txs, verifier)| && k < 2
    ensures var accepted, after, summary :=
              Accepted(s, txs, verifier), Apply(s, txs, verifier), Summarize(s, txs, verifier);
            var at := summary.outputPositions;
            && |at| == 2 * |accepted| == 2 * summary.accepted
            && (forall a, b :: 0 <= a < b < |at| ==> at[a] < at[b])
            && |s.leaves| <= at[2 * j + k] < |after.leaves|
            && after.leaves[at[2 * j + k]] == accepted[j].commitments[k]
  {
    hide Filter, CommitmentsOf, RewardNotes, NoteCommitments, RootOf, Evict, Minted, Rewards, EmissionAt, Apply;
    CommitmentPlaces(Accepted(s, txs, verifier), j, k);
    NextLeaves(s, txs, verifier);
  }

  /** Who is paid: at positive weight the leaf i places after the outputs commits to a note for validator i,
      worth its exact proportion of the emission, give or take less than a unit, under its own rho. */
  lemma RewardsPaid(s: LedgerState, txs: seq<TxV1>, verifier: Verifier, i: nat) returns (amount: u64)
    requires s.Ready() && i < |s.config.validators| && Sum(s.config.Weights()) > 0
    ensures var at := |s.leaves| + |CommitmentsOf(Accepted(s, txs, verifier))| + i;
            var note := Note(amount, s.config.validators[i].addrTag, RhoMint(s.height + 1, i as byte),
                             RhoMint(s.height + 1, (128 + i) as byte));
            at < |Apply(s, txs, verifier).leaves| && Apply(s, txs, verifier).leaves[at] == note.Commitment()
    ensures InProportion(amount, EmissionAt(s.config.emission, s.height + 1), s.config.validators[i].weight,
                         Sum(s.config.Weights()))
  {
    hide Filter, CommitmentsOf, RootOf, Evict, Minted, EmissionAt, Apply, RhoMint, Sum;
    NextLeaves(s, txs, verifier);
    amount := RewardAmount(s.config, s.height + 1, i);
  }

  /** Less than one unit away from total * weight / sum. */
  ghost predicate InProportion(amount: int, total: int, weight: int, sum: int) {
    (amount - 1) * sum <= total * weight < (amount + 1) * sum
  }

  lemma RewardAmount(c: Config, height: u64, i: nat) returns (amount: u64)
    requires c.Valid() && i < |c.validators| && Sum(c.Weights()) > 0
    ensures |RewardNotes(c, height)| == |c.validators|
    ensures RewardNotes(c, height)[i]
         == Note(amount, c.validators[i].addrTag, RhoMint(height, i as byte), RhoMint(height, (128 + i) as byte))
    ensures InProportion(amount, EmissionAt(c.emission, height), c.validators[i].weight, Sum(c.Weights()))
  {
    hide EmissionAt, RhoMint, Sum, Shares;
    var total: int, weight: int, sum := EmissionAt(c.emission, height), c.validators[i].weight, Sum(c.Weights());
    SharesExact(total, c.Weights());
    amount := Rewards(c, height)[i].amount;
    FloorBounds(total * weight, sum);
    NearFloor(amount, (total * weight) / sum, sum);
  }

  lemma NearFloor(amount: int, floor: int, sum: int)
    requires sum > 0 && floor <= amount <= floor + 1
    ensures (amount - 1) * sum <= sum * floor && sum * (floor + 1) <= (amount + 1) * sum
  {
  }

  // ---------- rejected transactions are inert ----------

  /** Filtering the accepted subsequence accepts all of it. */
  lemma {:induction false} FilterIdempotent(s: LedgerState, txs: seq<TxV1>, verifier: Verifier)
    ensures Filter(s, Accepted(s, txs, verifier), verifier) == Batch(Accepted(s, txs, verifier), [])
  {
    hide Verdict;
    if txs == [] {
    } else {
      var i := |txs| - 1;
      var before := Accepted(s, txs[..i], verifier);
      FilterIdempotent(s, txs[..i], verifier);
      if Verdict(s, before, txs[i], verifier).None? {
        assert (before + [txs[i]])[..|before|] == before;
      }
    }
  }

  /** Dropping every rejected transaction changes neither the next state, quota slots and anchors
      included, nor anything in the summary but the list of rejections. */
  lemma RejectedInert(s: LedgerState, txs: seq<TxV1>, verifier: Verifier)
    requires s.Ready()
    ensures Apply(s, Accepted(s, txs, verifier), verifier) == Apply(s, txs, verifier)
    ensures Summarize(s, Accepted(s, txs, verifier), verifier) == Summarize(s, txs, verifier).(rejected := [])
  {
    hide Filter, NullifiersOf, CommitmentsOf, SlotsAfter, RootOf, EmissionAt, Evict, Rewards, Sum, RewardNotes;
    FilterIdempotent(s, txs, verifier);
  }
}
