/** crates/state, as a function on states: what one checkpoint does to the ledger. */
module Ledger {
  import opened Bytes
  import opened Counting
  import opened Interfaces
  import opened Notes
  import opened Merkle
  import opened Tree
  import opened Quota
  import opened Tx
  import opened Emission

  const EPOCH_LENGTH: nat := 100

  datatype ValidatorInfo = ValidatorInfo(weight: u64, addrTag: Digest)

  datatype Config = Config(emission: EmissionParams, validators: seq<ValidatorInfo>, difficultyBits: nat) {
    /** `EmissionParams::new`, `emission_at` and the 8-bit reward indices demand this much. */
    predicate Valid() { emission.Valid() && |validators| <= 128 }

    function Weights(): (w: seq<u64>)
      ensures |w| == |validators|
    {
      seq(|validators|, i requires 0 <= i < |validators| => validators[i].weight)
    }
  }

  datatype RejectReason = StaleOrUnknownAnchor | DoubleSpend | StatelessInvalid | QuotaRejected

  datatype LedgerState = LedgerState(
    config: Config,
    leaves: seq<Digest>,
    anchors: seq<Anchor>,
    nullifiers: set<Nullifier>,
    slots: Slots,
    height: u64,
    supply: u64)
  {
    /** The 64-bit height and supply have room for one more checkpoint. */
    predicate Ready() {
      config.Valid() && height + 1 < TWO64 && supply + Minted(config, height + 1) < TWO64
    }

    function CurrentAnchor(): Anchor { Anchor(height, RootOf(leaves)) }
  }

  datatype RewardDescriptor = RewardDescriptor(height: u64, total: u64, shares: seq<RewardShare>)

  datatype CheckpointSummary = CheckpointSummary(
    height: u64,
    anchor: Anchor,
    accepted: nat,
    rejected: seq<(nat, RejectReason)>,
    rewards: RewardDescriptor,
    totalSupply: u64,
    outputPositions: seq<nat>)

  // ---------- what a list of accepted transactions amounts to ----------

  function NullifiersOf(txs: seq<TxV1>): seq<Nullifier> {
    if txs == [] then [] else NullifiersOf(txs[..|txs| - 1]) + txs[|txs| - 1].nullifiers
  }

  function CommitmentsOf(txs: seq<TxV1>): seq<Commitment> {
    if txs == [] then [] else CommitmentsOf(txs[..|txs| - 1]) + txs[|txs| - 1].commitments
  }

  function SlotsWith(slots: Slots, tx: TxV1): Slots {
    if tx.antispam.QuotaLane? then AdmitSlots(slots, tx.antispam.proof) else slots
  }

  function SlotsAfter(slots: Slots, txs: seq<TxV1>): Slots {
    if txs == [] then slots else SlotsWith(SlotsAfter(slots, txs[..|txs| - 1]), txs[|txs| - 1])
  }

  // ---------- filtering a batch ----------

  predicate Conflicts(s: LedgerState, accepted: seq<TxV1>, tx: TxV1) {
    exists nf :: nf in tx.nullifiers && (nf in s.nullifiers || nf in NullifiersOf(accepted))
  }

  predicate QuotaAdmits(s: LedgerState, accepted: seq<TxV1>, tx: TxV1) {
    tx.antispam.QuotaLane? ==>
      && tx.antispam.proof.epoch == (s.height + 1) / EPOCH_LENGTH
      && AdmitResult(SlotsAfter(s.slots, accepted), tx.antispam.proof) == Admitted
  }

  /** The verdict on the next transaction after `accepted` were taken from the same batch. */
  function Verdict(s: LedgerState, accepted: seq<TxV1>, tx: TxV1, verifier: Verifier): Option<RejectReason> {
    if tx.anchor !in s.anchors then Some(StaleOrUnknownAnchor)
    else if ValidateStateless(tx, verifier, s.config.difficultyBits).Err? then Some(StatelessInvalid)
    else if Conflicts(s, accepted, tx) then Some(DoubleSpend)
    else if !QuotaAdmits(s, accepted, tx) then Some(QuotaRejected)
    else None
  }

  datatype Batch = Batch(accepted: seq<TxV1>, rejected: seq<(nat, RejectReason)>)

  function Filter(s: LedgerState, txs: seq<TxV1>, verifier: Verifier): Batch {
    if txs == [] then Batch([], [])
    else
      var i := |txs| - 1;
      var before := Filter(s, txs[..i], verifier);
      match Verdict(s, before.accepted, txs[i], verifier)
      case None => before.(accepted := before.accepted + [txs[i]])
      case Some(reason) => before.(rejected := before.rejected + [(i, reason)])
  }

  function Accepted(s: LedgerState, txs: seq<TxV1>, verifier: Verifier): seq<TxV1> {
    Filter(s, txs, verifier).accepted
  }

  // ---------- rewards ----------

  function Rewards(c: Config, height: u64): (shares: seq<RewardShare>)
    requires c.Valid()
    ensures |shares| <= |c.validators| && forall i :: 0 <= i < |shares| ==> shares[i].validatorIndex == i
  {
    Shares(EmissionAt(c.emission, height), c.Weights())
  }

  function RewardNote(c: Config, height: u64, i: nat, amount: u64): Note
    requires c.Valid() && i < |c.validators|
  {
    Note(amount, c.validators[i].addrTag, RhoMint(height, i as byte), RhoMint(height, (128 + i) as byte))
  }

  function RewardNotes(c: Config, height: u64): (notes: seq<Note>)
    requires c.Valid()
    ensures |notes| == |Rewards(c, height)|
  {
    var shares := Rewards(c, height);
    seq(|shares|, i requires 0 <= i < |shares| => RewardNote(c, height, i, shares[i].amount))
  }

  function Minted(c: Config, height: u64): int
    requires c.Valid()
  {
    Sum(Amounts(Rewards(c, height)))
  }

  lemma MintedExact(c: Config, height: u64)
    requires c.Valid()
    ensures Minted(c, height) == if Sum(c.Weights()) > 0 then EmissionAt(c.emission, height) else 0
  {
    hide EmissionAt, Sum, Shares;
    SharesExact(EmissionAt(c.emission, height), c.Weights());
  }

  /** What is left of a state once it went through a snapshot: one anchor, no quota slots. */
  function Restored(s: LedgerState): LedgerState {
    s.(anchors := [s.CurrentAnchor()], slots := map[])
  }

  // ---------- one checkpoint ----------

  function Apply(s: LedgerState, txs: seq<TxV1>, verifier: Verifier): LedgerState
    requires s.Ready()
  {
    var accepted := Accepted(s, txs, verifier);
    var height: u64 := s.height + 1;
    var leaves := s.leaves + CommitmentsOf(accepted) + NoteCommitments(RewardNotes(s.config, height));
    MintedExact(s.config, height);
    s.(leaves := leaves,
       anchors := Evict(s.anchors + [Anchor(height, RootOf(leaves))], height),
       nullifiers := s.nullifiers + Elements(NullifiersOf(accepted)),
       slots := SlotsAfter(s.slots, accepted),
       height := height,
       supply := s.supply + Minted(s.config, height))
  }

  function Positions(base: nat, count: nat): seq<nat> { seq(count, i requires 0 <= i => base + i) }

  function Summarize(s: LedgerState, txs: seq<TxV1>, verifier: Verifier): CheckpointSummary
    requires s.Ready()
  {
    var batch := Filter(s, txs, verifier);
    var after := Apply(s, txs, verifier);
    CheckpointSummary(
      after.height,
      Anchor(after.height, RootOf(after.leaves)),
      |batch.accepted|,
      batch.rejected,
      RewardDescriptor(after.height, EmissionAt(s.config.emission, after.height), Rewards(s.config, after.height)),
      after.supply,
      Positions(|s.leaves|, |CommitmentsOf(batch.accepted)|))
  }

  /** Total emission of checkpoints 1 to `height`. */
  function EmittedBy(p: EmissionParams, height: nat): nat
    requires p.Valid()
  {
    if height == 0 then 0 else EmittedBy(p, height - 1) + EmissionAt(p, height)
  }

  /** What `audit_supply` compares: the emissions are summed in 64 bits, which wraps around. */
  predicate Audits(p: EmissionParams, genesisSupply: nat, height: nat, supply: nat)
    requires p.Valid()
  {
    supply == (genesisSupply + EmittedBy(p, height)) % TWO64
  }

  // ---------- genesis ----------

  function GenesisValue(notes: seq<(Commitment, u64)>): nat {
    if notes == [] then 0 else GenesisValue(notes[..|notes| - 1]) + notes[|notes| - 1].1
  }

  function GenesisLeaves(notes: seq<(Commitment, u64)>): (cms: seq<Commitment>)
    ensures |cms| == |notes| && forall i :: 0 <= i < |cms| ==> cms[i] == notes[i].0
  {
    seq(|notes|, i requires 0 <= i < |notes| => notes[i].0)
  }

  function Genesis(c: Config, notes: seq<(Commitment, u64)>): LedgerState
    requires GenesisValue(notes) < TWO64
  {
    var leaves := GenesisLeaves(notes);
    LedgerState(c, leaves, [Anchor(0, RootOf(leaves))], {}, map[], 0, GenesisValue(notes))
  }
}
