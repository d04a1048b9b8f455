/** crates/state: the mutable ledger, each method proved against the state functions of module Ledger. */
module LedgerMachine {
  import opened Bytes
  import opened Counting
  import opened Interfaces
  import opened Notes
  import opened Merkle
  import opened Tree
  import opened Quota
  import opened Tx
  import opened Emission
  import opened Ledger
  import Modular

  /** The staged effects of the transactions accepted so far. */
  datatype Staged = Staged(
    nullifiers: seq<Nullifier>,
    commitments: seq<Commitment>,
    accepted: nat,
    rejected: seq<(nat, RejectReason)>)

  ghost predicate Stages(batch: Batch, staged: Staged) {
    && staged.nullifiers == NullifiersOf(batch.accepted)
    && staged.commitments == CommitmentsOf(batch.accepted)
    && staged.accepted == |batch.accepted|
    && staged.rejected == batch.rejected
  }

  lemma StageAccepted(batch: Batch, staged: Staged, tx: TxV1)
    requires Stages(batch, staged)
    ensures Stages(batch.(accepted := batch.accepted + [tx]),
                   Staged(staged.nullifiers + tx.nullifiers, staged.commitments + tx.commitments,
                          staged.accepted + 1, staged.rejected))
  {
  }

  lemma SlotsSnoc(slots: Slots, txs: seq<TxV1>, tx: TxV1)
    ensures SlotsAfter(slots, txs + [tx]) == SlotsWith(SlotsAfter(slots, txs), tx)
  {
  }

  lemma FilterStep(s: LedgerState, txs: seq<TxV1>, i: nat, verifier: Verifier)
    requires i < |txs|
    ensures var before := Filter(s, txs[..i], verifier);
            Filter(s, txs[..i + 1], verifier)
            == match Verdict(s, before.accepted, txs[i], verifier)
               case None => before.(accepted := before.accepted + [txs[i]])
               case Some(reason) => before.(rejected := before.rejected + [(i, reason)])
  {
    assert txs[..i + 1][..i] == txs[..i];
  }

  class LedgerObject {
    const config: Config
    const tree: CommitmentTree
    const quota: QuotaRegistry
    var nullifiers: set<Nullifier>
    var height: u64
    var supply: u64

    ghost predicate Valid()
      reads this, tree
    {
      tree.Valid()
    }

    ghost function State(): LedgerState
      reads this, tree, quota
    {
      LedgerState(config, tree.leaves, tree.anchors, nullifiers, quota.seen, height, supply)
    }

    constructor (c: Config, notes: seq<(Commitment, u64)>)
      requires GenesisValue(notes) < TWO64
      ensures Valid() && config == c && fresh(tree) && fresh(quota)
      ensures State() == Genesis(c, notes)
    {
      hide RootOf;
      config := c;
      var t := new CommitmentTree();
      var total: nat := 0;
      for i := 0 to |notes|
        invariant t.Valid() && fresh(t) && t.anchors == []
        invariant t.leaves == GenesisLeaves(notes)[..i]
        invariant total == GenesisValue(notes[..i])
      {
        assert notes[..i + 1][..i] == notes[..i];
        var _ := t.Append(notes[i].0);
        total := total + notes[i].1;
      }
      assert notes[..|notes|] == notes;
      assert t.leaves == GenesisLeaves(notes);
      var _ := t.Seal(0);
      tree := t;
      quota := new QuotaRegistry();
      nullifiers, height, supply := {}, 0, total;
    }

    /** Load a ledger around an existing tree, as `restore` does. */
    constructor Load(c: Config, t: CommitmentTree, nfs: set<Nullifier>, h: u64, total: u64)
      requires t.Valid()
      ensures Valid() && tree == t && fresh(quota)
      ensures State() == LedgerState(c, t.leaves, t.anchors, nfs, map[], h, total)
    {
      config, tree := c, t;
      quota := new QuotaRegistry();
      nullifiers, height, supply := nfs, h, total;
    }

    method CurrentAnchor() returns (anchor: Anchor)
      requires Valid()
      ensures anchor == State().CurrentAnchor()
    {
      var root := tree.Root();
      anchor := Anchor(height, root);
    }

    /** One transaction of the loop: the checks in source order, then the registry, then the verdict. */
    method Judge(tx: TxV1, seen: set<Nullifier>, verifier: Verifier, ghost s: LedgerState, ghost accepted: seq<TxV1>)
      returns (verdict: Option<RejectReason>)
      requires s.config == config && s.anchors == tree.anchors && s.nullifiers == nullifiers && s.height == height
      requires height + 1 < TWO64
      requires seen == Elements(NullifiersOf(accepted)) && quota.seen == SlotsAfter(s.slots, accepted)
      modifies quota
      ensures verdict == Verdict(s, accepted, tx, verifier)
      ensures verdict.None? ==> quota.seen == SlotsWith(old(quota.seen), tx)
      ensures verdict.Some? ==> quota.seen == old(quota.seen)
    {
      hide ValidateStateless, NullifiersOf, SlotsAfter;
      if !tree.AnchorValid(tx.anchor) {
        return Some(StaleOrUnknownAnchor);
      }
      if ValidateStateless(tx, verifier, config.difficultyBits).Err? {
        return Some(StatelessInvalid);
      }
      var conflict := exists nf :: nf in tx.nullifiers && (nf in nullifiers || nf in seen);
      assert conflict == Conflicts(s, accepted, tx);
      if conflict {
        return Some(DoubleSpend);
      }
      if tx.antispam.QuotaLane? {
        if tx.antispam.proof.epoch != (height + 1) / EPOCH_LENGTH {
          return Some(QuotaRejected);
        }
        var admit := quota.Admit(tx.antispam.proof);
        if admit != Admitted {
          AdmitMonotone(old(quota.seen), tx.antispam.proof, (0, ZERO_DIGEST));
          return Some(QuotaRejected);
        }
      }
      return None;
    }

    /** The loop over the ordered batch. */
    method Stage(ordered: seq<TxV1>, verifier: Verifier) returns (staged: Staged)
      requires Valid() && height + 1 < TWO64
      modifies quota
      ensures Stages(Filter(old(State()), ordered, verifier), staged)
      ensures quota.seen == SlotsAfter(old(quota.seen), Accepted(old(State()), ordered, verifier))
    {
      hide Verdict, NullifiersOf, CommitmentsOf, SlotsAfter, SlotsWith, Filter;
      ghost var s := State();
      staged := Staged([], [], 0, []);
      var seen: set<Nullifier> := {};
      NothingStaged(s, ordered, verifier);
      for i := 0 to |ordered|
        invariant Stages(Filter(s, ordered[..i], verifier), staged)
        invariant seen == Elements(staged.nullifiers)
        invariant quota.seen == SlotsAfter(s.slots, Filter(s, ordered[..i], verifier).accepted)
      {
        ghost var before := Filter(s, ordered[..i], verifier);
        var tx := ordered[i];
        var verdict := Judge(tx, seen, verifier, s, before.accepted);
        FilterStep(s, ordered, i, verifier);
        if verdict.Some? {
          staged := staged.(rejected := staged.rejected + [(i, verdict.value)]);
        } else {
          SlotsSnoc(s.slots, before.accepted, tx);
          StageAccepted(before, staged, tx);
          seen := seen + Elements(tx.nullifiers);
          staged := Staged(staged.nullifiers + tx.nullifiers, staged.commitments + tx.commitments,
                           staged.accepted + 1, staged.rejected);
        }
      }
      assert ordered[..|ordered|] == ordered;
    }

    method AppendAll(cms: seq<Commitment>)
      requires Valid()
      modifies tree`leaves
      ensures Valid() && tree.leaves == old(tree.leaves) + cms
    {
      for i := 0 to |cms|
        invariant Valid() && tree.leaves == old(tree.leaves) + cms[..i]
      {
        var _ := tree.Append(cms[i]);
      }
      assert cms[..|cms|] == cms;
    }

    /** The reward loop: append each reward note's commitment and add its amount to the supply. */
    method Mint(shares: seq<RewardShare>, next: u64)
      requires Valid() && config.Valid() && shares == Rewards(config, next)
      requires supply + Minted(config, next) < TWO64
      modifies this`supply, tree`leaves
      ensures Valid()
      ensures tree.leaves == old(tree.leaves) + NoteCommitments(RewardNotes(config, next))
      ensures supply == old(supply) + Minted(config, next)
    {
      hide Rewards, Sum;
      ghost var amounts, cms := Amounts(shares), NoteCommitments(RewardNotes(config, next));
      SumOfNone(amounts);
      for i := 0 to |shares|
        invariant Valid() && tree.leaves == old(tree.leaves) + cms[..i]
        invariant supply == old(supply) + Sum(amounts[..i])
      {
        var share := shares[i];
        var note := RewardNote(config, next, share.validatorIndex, share.amount);
        var _ := tree.Append(note.Commitment());
        SumPrefix(amounts, i);
        supply := supply + share.amount;
      }
      assert cms[..|cms|] == cms && amounts[..|amounts|] == amounts;
    }

    /** `apply_checkpoint` moves the ledger exactly as `Apply` says and reports `Summarize`. */
    method ApplyCheckpoint(ordered: seq<TxV1>, verifier: Verifier) returns (summary: CheckpointSummary)
      requires Valid() && State().Ready()
      modifies this, tree, quota
      ensures Valid()
      ensures State() == Apply(old(State()), ordered, verifier)
      ensures summary == Summarize(old(State()), ordered, verifier)
    {
      hide Filter, NullifiersOf, CommitmentsOf, SlotsAfter, RootOf, EmissionAt, Evict, Shares, Sum, RewardNotes,
           NoteCommitments;
      var next: u64 := height + 1;
      var staged := Stage(ordered, verifier);
      nullifiers := nullifiers + Elements(staged.nullifiers);
      var base := |tree.leaves|;
      var positions := Positions(base, |staged.commitments|);
      AppendAll(staged.commitments);
      var total := EmissionAt(config.emission, next);
      var shares := Distribute(total, config.Weights());
      MintedExact(config, next);
      Mint(shares, next);
      var anchor := tree.Seal(next);
      height := next;
      summary := CheckpointSummary(next, anchor, staged.accepted, staged.rejected,
                                   RewardDescriptor(next, total, shares), supply, positions);
    }

    /** `audit_supply`: the supply is the genesis allocation plus every emission so far, in 64 bits. */
    method AuditSupply(genesisSupply: u64) returns (ok: bool)
      requires config.Valid()
      ensures ok <==> Audits(config.emission, genesisSupply, height, supply)
    {
      hide EmissionAt;
      var minted: nat := 0;
      for h := 1 to height + 1
        invariant minted == EmittedBy(config.emission, h - 1) % TWO64
      {
        var more := EmissionAt(config.emission, h);
        WrapAdd(EmittedBy(config.emission, h - 1), more);
        minted := (minted + more) % TWO64;
      }
      WrapAdd(EmittedBy(config.emission, height), genesisSupply);
      ok := supply == (genesisSupply + minted) % TWO64;
    }
  }

  lemma WrapAdd(a: nat, b: nat)
    ensures (a % TWO64 + b) % TWO64 == (a + b) % TWO64
  {
    var k, r := a / TWO64, a % TWO64;
    assert a + b == (r + b) + k * TWO64;
    Modular.ModShift(r + b, k, TWO64);
  }

  lemma NothingStaged(s: LedgerState, txs: seq<TxV1>, verifier: Verifier)
    ensures txs[..0] == [] && Stages(Filter(s, txs[..0], verifier), Staged([], [], 0, []))
    ensures SlotsAfter(s.slots, Filter(s, txs[..0], verifier).accepted) == s.slots
  {
  }

  lemma SumOfNone(s: seq<int>)
    ensures s[..0] == [] && Sum(s[..0]) == 0
  {
  }

  lemma SumPrefix(s: seq<int>, i: nat)
    requires i < |s| && NonNegative(s)
    ensures Sum(s[..i + 1]) == Sum(s[..i]) + s[i] && 0 <= Sum(s[..i + 1]) <= Sum(s)
  {
    assert s[..i + 1][..i] == s[..i];
    PrefixBound(s, i + 1);
  }

  lemma {:induction false} PrefixBound(s: seq<int>, i: nat)
    requires i <= |s| && NonNegative(s)
    ensures 0 <= Sum(s[..i]) <= Sum(s)
  {
    if i == |s| {
      assert s[..i] == s;
      SumBounds(s, 0);
    } else {
      PrefixBound(s[..|s| - 1], i);
      assert s[..|s| - 1][..i] == s[..i];
    }
  }
}
