/** The quota lane over whole runs, restarts included: the registry, the rate limit and what `admit` answers. */
module QuotaRuns {
  import opened Bytes
  import opened Counting
  import opened Hashing
  import opened Interfaces
  import opened Notes
  import opened Merkle
  import opened Tree
  import Field
  import opened Quota
  import opened Tx
  import opened Emission
  import opened Prover
  import opened Ledger
  import opened Batches
  import opened Runs

  // ---------- the proofs of accepted transactions ----------

  /** The rate proofs of the quota-lane transactions among `txs`, in order. */
  function RateProofs(txs: seq<TxV1>): seq<RateProof> {
    if txs == [] then []
    else
      var last := txs[|txs| - 1];
      RateProofs(txs[..|txs| - 1]) + LaneProof(last)
  }

  function LaneProof(tx: TxV1): seq<RateProof> { if tx.antispam.QuotaLane? then [tx.antispam.proof] else [] }

  lemma RateProofsSnoc(txs: seq<TxV1>, tx: TxV1)
    ensures RateProofs(txs + [tx]) == RateProofs(txs) + LaneProof(tx)
  {
    assert (txs + [tx])[..|txs|] == txs;
  }

  lemma NoRateProofs()
    ensures RateProofs([]) == []
  {
  }

  lemma {:induction false} RateProofsAppend(a: seq<TxV1>, b: seq<TxV1>)
    ensures RateProofs(a + b) == RateProofs(a) + RateProofs(b)
  {
    hide RateProofs, LaneProof;
    if b == [] {
      assert a + b == a;
      NoRateProofs();
    } else {
      var init, last := b[..|b| - 1], b[|b| - 1];
      RateProofsAppend(a, init);
      RateProofsSnoc(init, last);
      RateProofsSnoc(a + init, last);
      assert b == init + [last] && a + b == (a + init) + [last];
    }
  }

  /** The registry entries are exactly the shares of these proofs, one slot each. */
  ghost predicate Registers(slots: Slots, proofs: seq<RateProof>) {
    && DistinctSlots(proofs)
    && (forall i :: 0 <= i < |proofs| ==>
          SlotOf(proofs[i]) in slots && slots[SlotOf(proofs[i])] == (proofs[i].x, proofs[i].y))
    && (forall k :: k in slots ==> exists i :: 0 <= i < |proofs| && SlotOf(proofs[i]) == k)
  }

  lemma RegistersSnoc(slots: Slots, proofs: seq<RateProof>, p: RateProof)
    requires Registers(slots, proofs) && AdmitResult(slots, p) == Admitted
    ensures Registers(AdmitSlots(slots, p), proofs + [p])
  {
    var all, after := proofs + [p], AdmitSlots(slots, p);
    forall k | k in after
      ensures exists i :: 0 <= i < |all| && SlotOf(all[i]) == k
    {
      if k == SlotOf(p) {
        assert all[|proofs|] == p;
      } else {
        var i :| 0 <= i < |proofs| && SlotOf(proofs[i]) == k;
        assert all[i] == proofs[i];
      }
    }
  }

  lemma {:induction false} BatchRegisters(s: LedgerState, txs: seq<TxV1>, verifier: Verifier, proofs: seq<RateProof>)
    requires Registers(s.slots, proofs)
    ensures Registers(SlotsAfter(s.slots, Accepted(s, txs, verifier)), proofs + RateProofs(Accepted(s, txs, verifier)))
  {
    hide Registers, AdmitResult, AdmitSlots, ValidateStateless, Conflicts;
    if txs == [] {
      assert proofs + [] == proofs;
    } else {
      var i := |txs| - 1;
      var tx := txs[i];
      var before := Accepted(s, txs[..i], verifier);
      BatchRegisters(s, txs[..i], verifier, proofs);
      if Verdict(s, before, tx, verifier).None? {
        assert (before + [tx])[..|before|] == before;
        if tx.antispam.QuotaLane? {
          RegistersSnoc(SlotsAfter(s.slots, before), proofs + RateProofs(before), tx.antispam.proof);
          assert proofs + (RateProofs(before) + [tx.antispam.proof])
                   == (proofs + RateProofs(before)) + [tx.antispam.proof];
        } else {
          assert RateProofs(before) + [] == RateProofs(before);
        }
      }
    }
  }

  /** The transactions accepted since the last restart before state n. */
  function Recent(run: Run, n: nat): seq<TxV1>
    requires n <= |run.batches| && |run.states| == |run.batches| + 1
  {
    run.AcceptedFrom(run.Since(n), n)
  }

  /** After every run the registry is exactly the quota-lane proofs accepted since the last restart. */
  lemma {:induction false} RegistryExactly(run: Run, c: Config, notes: seq<(Commitment, u64)>, n: nat)
    requires run.From(c, notes) && n <= |run.batches|
    ensures Registers(run.states[n].slots, RateProofs(Recent(run, n)))
  {
    hide Apply, Filter, NullifiersOf, CommitmentsOf, SlotsAfter, RootOf, EmissionAt, Evict, RewardNotes,
         NoteCommitments, Minted, Registers, RateProofs;
    if n == 0 {
      NoRateProofs();
      NothingRegistered();
    } else {
      var before := run.AcceptedFrom(run.Since(n), n - 1);
      if n - 1 in run.restarts {
        NoRateProofs();
        NothingRegistered();
      } else {
        RegistryExactly(run, c, notes, n - 1);
      }
      assert Registers(run.Start(n - 1).slots, RateProofs(before));
      StepFacts(run, n - 1);
      BatchRegisters(run.Start(n - 1), run.batches[n - 1], run.verifier, RateProofs(before));
      RateProofsAppend(before, run.AcceptedIn(n - 1));
    }
  }

  /** In a run without restarts nothing accepted is forgotten. */
  lemma RecentIsAll(run: Run, n: nat)
    requires run.restarts == {} && n <= |run.batches| && |run.states| == |run.batches| + 1
    ensures Recent(run, n) == run.AcceptedBy(n)
  {
    NeverRestarted(run, n);
  }

  lemma NothingRegistered()
    ensures Registers(map[], [])
  {
  }

  /** `proof` is what `note` signs in some slot of its epoch, for some message. */
  ghost predicate Signed(proof: RateProof, note: QuotaNote) {
    exists k: u64 :: SignedBy(proof, note, k)
  }

  ghost predicate SignedBy(proof: RateProof, note: QuotaNote, k: u64) {
    exists message :: note.Signal(proof.epoch, k, message) == Ok(proof)
  }

  ghost function SlotNumber(proof: RateProof, note: QuotaNote): u64
    requires Signed(proof, note)
  {
    var k: u64 :| SignedBy(proof, note, k);
    k
  }

  lemma SlotNumberSigns(proof: RateProof, note: QuotaNote)
    requires Signed(proof, note)
    ensures SlotNumber(proof, note) < note.Quota()
    ensures SlotOf(proof) == (proof.epoch, note.RateNullifier(proof.epoch, SlotNumber(proof, note)))
  {
    var k := SlotNumber(proof, note);
    var m :| note.Signal(proof.epoch, k, m) == Ok(proof);
  }

  /** All these proofs are signatures of the note in this epoch. */
  ghost predicate AllSigned(proofs: seq<RateProof>, note: QuotaNote, epoch: u64) {
    forall j :: 0 <= j < |proofs| ==> proofs[j].epoch == epoch && Signed(proofs[j], note)
  }

  ghost function SlotNumbers(proofs: seq<RateProof>, note: QuotaNote, epoch: u64): (numbers: seq<int>)
    requires AllSigned(proofs, note, epoch)
    ensures |numbers| == |proofs| && forall j :: 0 <= j < |proofs| ==> numbers[j] == SlotNumber(proofs[j], note) + 1
  {
    seq(|proofs|, j requires 0 <= j < |proofs| => SlotNumber(proofs[j], note) + 1)
  }

  /** Proofs in pairwise different slots have pairwise different slot numbers, so there are few of them. */
  lemma SlotsPerNote(proofs: seq<RateProof>, note: QuotaNote, epoch: u64)
    requires AllSigned(proofs, note, epoch)
    requires DistinctSlots(proofs)
    ensures |proofs| <= note.Quota()
  {
    hide Signed, SlotNumber, HashParts;
    var numbers := SlotNumbers(proofs, note, epoch);
    forall j | 0 <= j < |proofs|
      ensures 1 <= numbers[j] <= note.Quota()
      ensures SlotOf(proofs[j]) == (epoch, note.RateNullifier(epoch, numbers[j] - 1))
    {
      SlotNumberSigns(proofs[j], note);
    }
    Pigeonhole(numbers, note.Quota());
  }

  // ---------- the rate limit ----------

  /** Those of the proofs that the note signed in this epoch. */
  ghost function SignedIn(proofs: seq<RateProof>, note: QuotaNote, epoch: u64): seq<RateProof> {
    if proofs == [] then []
    else
      var last := proofs[|proofs| - 1];
      SignedIn(proofs[..|proofs| - 1], note, epoch) + OneSigned(last, note, epoch)
  }

  ghost function OneSigned(p: RateProof, note: QuotaNote, epoch: u64): seq<RateProof> {
    if p.epoch == epoch && Signed(p, note) then [p] else []
  }

  lemma SignedInSnoc(proofs: seq<RateProof>, p: RateProof, note: QuotaNote, epoch: u64)
    ensures SignedIn(proofs + [p], note, epoch) == SignedIn(proofs, note, epoch) + OneSigned(p, note, epoch)
  {
    hide OneSigned;
    assert (proofs + [p])[..|proofs|] == proofs;
  }

  lemma NothingSigned(note: QuotaNote, epoch: u64)
    ensures SignedIn([], note, epoch) == []
  {
  }

  lemma {:induction false} SignedInAppend(a: seq<RateProof>, b: seq<RateProof>, note: QuotaNote, epoch: u64)
    ensures SignedIn(a + b, note, epoch) == SignedIn(a, note, epoch) + SignedIn(b, note, epoch)
  {
    hide SignedIn, OneSigned;
    if b == [] {
      assert a + b == a;
      NothingSigned(note, epoch);
    } else {
      var init, last := b[..|b| - 1], b[|b| - 1];
      SignedInAppend(a, init, note, epoch);
      SignedInSnoc(init, last, note, epoch);
      SignedInSnoc(a + init, last, note, epoch);
      assert b == init + [last] && a + b == (a + init) + [last];
    }
  }

  ghost predicate DistinctSlots(proofs: seq<RateProof>) {
    forall i, j :: 0 <= i < j < |proofs| ==> SlotOf(proofs[i]) != SlotOf(proofs[j])
  }

  /** Picking some of the proofs keeps their slots apart. */
  lemma {:induction false} SignedInFacts(proofs: seq<RateProof>, note: QuotaNote, epoch: u64)
    requires DistinctSlots(proofs)
    ensures var mine := SignedIn(proofs, note, epoch);
            && AllSigned(mine, note, epoch) && DistinctSlots(mine)
            && forall p :: p in mine ==> p in proofs
  {
    hide Signed;
    if proofs == [] {
    } else {
      var init, last := proofs[..|proofs| - 1], proofs[|proofs| - 1];
      SignedInFacts(init, note, epoch);
      var before := SignedIn(init, note, epoch);
      forall i | 0 <= i < |before|
        ensures SlotOf(before[i]) != SlotOf(last)
      {
        assert before[i] in init;
      }
    }
  }

  lemma {:induction false} NoneSignedIn(proofs: seq<RateProof>, note: QuotaNote, epoch: u64)
    requires forall p :: p in proofs ==> p.epoch != epoch
    ensures SignedIn(proofs, note, epoch) == []
  {
    hide Signed;
    if proofs == [] {
    } else {
      NoneSignedIn(proofs[..|proofs| - 1], note, epoch);
    }
  }

  lemma {:induction false} RateProofOrigin(txs: seq<TxV1>, p: RateProof)
    requires p in RateProofs(txs)
    ensures exists tx :: tx in txs && tx.antispam == QuotaLane(p)
  {
    var init, last := txs[..|txs| - 1], txs[|txs| - 1];
    if p in RateProofs(init) {
      RateProofOrigin(init, p);
    } else {
      assert last in txs;
    }
  }

  /** Proofs accepted in batches m to n - 1 carry epochs from that of height m + 1 to that of height n. */
  lemma {:induction false} AcceptedEpochs(run: Run, c: Config, notes: seq<(Commitment, u64)>, m: nat, n: nat,
                                          p: RateProof)
    requires run.From(c, notes) && n <= |run.batches| && p in RateProofs(run.AcceptedFrom(m, n))
    ensures m < n && (m + 1) / EPOCH_LENGTH <= p.epoch <= n / EPOCH_LENGTH
    decreases n
  {
    hide Apply, Genesis, Filter, RateProofs, RootOf;
    if n <= m {
      NoRateProofs();
    } else {
      RateProofsAppend(run.AcceptedFrom(m, n - 1), run.AcceptedIn(n - 1));
      if p in RateProofs(run.AcceptedFrom(m, n - 1)) {
        AcceptedEpochs(run, c, notes, m, n - 1, p);
      } else {
        RateProofOrigin(run.AcceptedIn(n - 1), p);
        var tx :| tx in run.AcceptedIn(n - 1) && tx.antispam == QuotaLane(p);
        AcceptedEpoch(run.Start(n - 1), run.batches[n - 1], run.verifier, tx);
        HeightAndConfig(run, c, notes, n - 1);
      }
    }
  }

  lemma {:induction false} AcceptedSplit(run: Run, m: nat, n: nat)
    requires m <= n <= |run.batches| && |run.states| == |run.batches| + 1
    ensures run.AcceptedBy(n) == run.AcceptedBy(m) + run.AcceptedFrom(m, n)
    decreases n
  {
    hide Filter;
    if n == m {
    } else {
      AcceptedSplit(run, m, n - 1);
      assert run.AcceptedFrom(0, n) == run.AcceptedFrom(0, n - 1) + run.AcceptedIn(n - 1);
    }
  }

  /** The restarts within an epoch, before state n: between two heights of it. */
  function Disruptions(run: Run, epoch: u64, n: nat): set<nat> {
    set i | i in run.restarts && 0 < i < n && i / EPOCH_LENGTH == (i + 1) / EPOCH_LENGTH == epoch
  }

  /** Since the last restart a note got at most `quota()` transactions accepted per epoch. */
  lemma RecentLimit(run: Run, c: Config, notes: seq<(Commitment, u64)>, note: QuotaNote, epoch: u64, n: nat)
    requires run.From(c, notes) && n <= |run.batches|
    ensures |SignedIn(RateProofs(Recent(run, n)), note, epoch)| <= note.Quota()
  {
    hide RateProofs, Signed, Genesis, Apply, SignedIn, Recent;
    RegistryExactly(run, c, notes, n);
    SignedInFacts(RateProofs(Recent(run, n)), note, epoch);
    SlotsPerNote(SignedIn(RateProofs(Recent(run, n)), note, epoch), note, epoch);
  }

  /** Rate limit: over a whole run a note gets at most `quota()` accepted transactions per epoch, and as many
      again for every restart within the epoch. */
  lemma {:induction false} RateLimit(run: Run, c: Config, notes: seq<(Commitment, u64)>, note: QuotaNote, epoch: u64,
                                     n: nat)
    requires run.From(c, notes) && n <= |run.batches|
    ensures |SignedIn(RateProofs(run.AcceptedBy(n)), note, epoch)|
              <= note.Quota() * (1 + |Disruptions(run, epoch, n)|)
    ensures run.restarts == {} ==> |SignedIn(RateProofs(run.AcceptedBy(n)), note, epoch)| <= note.Quota()
    decreases n
  {
    hide RateProofs, SignedIn, Genesis, Apply, Filter, RootOf;
    var m := run.Since(n);
    var q, d: nat := note.Quota(), |Disruptions(run, epoch, n)|;
    RecentLimit(run, c, notes, note, epoch, n);
    AcceptedSplit(run, m, n);
    RateProofsAppend(run.AcceptedBy(m), run.AcceptedFrom(m, n));
    SignedInAppend(RateProofs(run.AcceptedBy(m)), RateProofs(run.AcceptedFrom(m, n)), note, epoch);
    if m == 0 || m / EPOCH_LENGTH < epoch {
      EarlierEpochs(run, c, notes, note, epoch, m);
      MulAtLeast(q, 1, 1 + d);
    } else {
      RateLimit(run, c, notes, note, epoch, m);
      DisruptionsGrow(run, epoch, m, n);
      var e: nat := |Disruptions(run, epoch, m)|;
      if (m + 1) / EPOCH_LENGTH > epoch {
        LaterEpochs(run, c, notes, note, epoch, m, n);
        MulAtLeast(q, 1 + e, 1 + d);
      } else {
        MulAtLeast(q, 2 + e, 1 + d);
      }
    }
  }

  /** In terms of stake: without restarts, a thousand units stand behind each accepted transaction of an
      epoch, or there is at most one. */
  lemma RateLimitByStake(run: Run, c: Config, notes: seq<(Commitment, u64)>, note: QuotaNote, epoch: u64)
    requires run.From(c, notes) && run.restarts == {}
    ensures var n := |SignedIn(RateProofs(run.AllAccepted()), note, epoch)|;
            n <= 1 || 1000 * n <= note.stake
  {
    hide RateProofs, SignedIn, Genesis, Apply, Filter;
    var n := |SignedIn(RateProofs(run.AllAccepted()), note, epoch)|;
    RateLimit(run, c, notes, note, epoch, |run.batches|);
    if n > 1 {
      SignalExactly(note, epoch, n - 1, []);
    }
  }

  lemma MulAtLeast(q: nat, a: nat, b: nat)
    requires 1 <= a <= b
    ensures q * a <= q * b && q * a == q * (a - 1) + q
  {
  }

  lemma EarlierEpochs(run: Run, c: Config, notes: seq<(Commitment, u64)>, note: QuotaNote, epoch: u64, m: nat)
    requires run.From(c, notes) && m <= |run.batches| && (m == 0 || m / EPOCH_LENGTH < epoch)
    ensures SignedIn(RateProofs(run.AcceptedBy(m)), note, epoch) == []
  {
    hide RateProofs, SignedIn, Genesis, Apply, Filter;
    var proofs := RateProofs(run.AcceptedBy(m));
    forall p | p in proofs
      ensures p.epoch != epoch
    {
      AcceptedEpochs(run, c, notes, 0, m, p);
    }
    NoneSignedIn(proofs, note, epoch);
  }

  lemma LaterEpochs(run: Run, c: Config, notes: seq<(Commitment, u64)>, note: QuotaNote, epoch: u64, m: nat, n: nat)
    requires run.From(c, notes) && m <= n <= |run.batches| && (m + 1) / EPOCH_LENGTH > epoch
    ensures SignedIn(RateProofs(run.AcceptedFrom(m, n)), note, epoch) == []
  {
    hide RateProofs, SignedIn, Genesis, Apply, Filter;
    var proofs := RateProofs(run.AcceptedFrom(m, n));
    forall p | p in proofs
      ensures p.epoch != epoch
    {
      AcceptedEpochs(run, c, notes, m, n, p);
    }
    NoneSignedIn(proofs, note, epoch);
  }

  lemma DisruptionsGrow(run: Run, epoch: u64, m: nat, n: nat)
    requires 0 < m < n && m in run.restarts
    ensures |Disruptions(run, epoch, m)| <= |Disruptions(run, epoch, n)|
    ensures m / EPOCH_LENGTH == (m + 1) / EPOCH_LENGTH == epoch ==>
              |Disruptions(run, epoch, m)| + 1 <= |Disruptions(run, epoch, n)|
  {
    var a, b := Disruptions(run, epoch, m), Disruptions(run, epoch, n);
    SubsetSize(a, b);
    if m / EPOCH_LENGTH == (m + 1) / EPOCH_LENGTH == epoch {
      assert m !in a && a + {m} <= b;
      SubsetSize(a + {m}, b);
    }
  }

  // ---------- what the registry answers ----------

  /** Who signed an accepted proof: the note, the slot number and the message. */
  datatype Signing = Signing(note: QuotaNote, k: u64, message: seq<byte>)

  /** Each proof is the signature its signing stands for, and the hashes behind the slots are logged. */
  ghost predicate SignedAs(proofs: seq<RateProof>, signings: seq<Signing>, log: set<Preimage>) {
    && |signings| == |proofs|
    && forall i :: 0 <= i < |proofs| ==>
         var s := signings[i];
         && s.note.Signal(proofs[i].epoch, s.k, s.message) == Ok(proofs[i])
         && RateNullifierHash(s.note, proofs[i].epoch, s.k) in log
  }

  /** Among the signings of this epoch, the key signed no other message in slot k. */
  ghost predicate OneMessage(proofs: seq<RateProof>, signings: seq<Signing>, own: Signing, epoch: u64)
    requires |signings| == |proofs|
  {
    forall i :: 0 <= i < |signings| && proofs[i].epoch == epoch
                && signings[i].note.quotaKey == own.note.quotaKey && signings[i].k == own.k ==>
                  signings[i].message == own.message
  }

  /** One of the proofs fills the slot of `p` with this x. */
  ghost predicate Filled(proofs: seq<RateProof>, p: RateProof, sameX: bool) {
    exists i :: 0 <= i < |proofs| && SlotOf(proofs[i]) == SlotOf(p) && (proofs[i].x == p.x) == sameX
  }

  /** What `admit` answers after a run, whoever made the proofs: `Slash` exactly when a proof accepted since
      the last restart filled the slot with another x, `Duplicate` exactly when one did with the same x. */
  lemma AdmitExactly(run: Run, c: Config, notes: seq<(Commitment, u64)>, p: RateProof)
    requires run.From(c, notes)
    ensures var proofs, r := RateProofs(Recent(run, |run.batches|)), AdmitResult(run.Last().slots, p);
            && (r.Slash? <==> Filled(proofs, p, false))
            && (r.Duplicate? <==> Filled(proofs, p, true))
  {
    hide RateProofs, Registers, Genesis, Apply, AdmitResult, Filled, Recent;
    RegistryExactly(run, c, notes, |run.batches|);
    AdmitRegistered(run.Last().slots, RateProofs(Recent(run, |run.batches|)), p);
  }

  lemma AdmitRegistered(slots: Slots, proofs: seq<RateProof>, p: RateProof)
    requires Registers(slots, proofs)
    ensures AdmitResult(slots, p).Slash? <==> Filled(proofs, p, false)
    ensures AdmitResult(slots, p).Duplicate? <==> Filled(proofs, p, true)
  {
    hide Field.Interpolate;
    if SlotOf(p) in slots {
      var i :| 0 <= i < |proofs| && SlotOf(proofs[i]) == SlotOf(p);
      assert slots[SlotOf(p)] == (proofs[i].x, proofs[i].y);
    }
  }

  /** A note that signs one message per slot is never slashed, whatever other notes do, as long as accepted
      proofs are signatures and the rate nullifiers of the run do not collide. */
  lemma HonestNeverSlashed(run: Run, c: Config, notes: seq<(Commitment, u64)>, log: set<Preimage>,
                           signings: seq<Signing>, own: Signing, epoch: u64)
    requires run.From(c, notes) && own.k < own.note.Quota()
    requires CollisionFree(log) && RateNullifierHash(own.note, epoch, own.k) in log
    requires SignedAs(RateProofs(Recent(run, |run.batches|)), signings, log)
    requires OneMessage(RateProofs(Recent(run, |run.batches|)), signings, own, epoch)
    ensures !AdmitResult(run.Last().slots, own.note.Signal(epoch, own.k, own.message).value).Slash?
  {
    hide RateProofs, Genesis, Apply, CollisionFree, SignedAs, OneMessage, Filled, AdmitResult, Recent;
    var proofs := RateProofs(Recent(run, |run.batches|));
    AdmitExactly(run, c, notes, own.note.Signal(epoch, own.k, own.message).value);
    OneMessageFills(proofs, log, signings, own, epoch);
  }

  /** Signatures of one message per slot never fill a slot with another x. */
  lemma OneMessageFills(proofs: seq<RateProof>, log: set<Preimage>, signings: seq<Signing>, own: Signing, epoch: u64)
    requires own.k < own.note.Quota()
    requires CollisionFree(log) && RateNullifierHash(own.note, epoch, own.k) in log
    requires SignedAs(proofs, signings, log) && OneMessage(proofs, signings, own, epoch)
    ensures !Filled(proofs, own.note.Signal(epoch, own.k, own.message).value, false)
  {
    hide CollisionFree, HashParts, MessageX, PartsPreimage, Field.Share;
    var p := own.note.Signal(epoch, own.k, own.message).value;
    forall i | 0 <= i < |proofs| && SlotOf(proofs[i]) == SlotOf(p)
      ensures proofs[i].x == p.x
    {
      var s := signings[i];
      assert s.note.Signal(proofs[i].epoch, s.k, s.message) == Ok(proofs[i]);
      RateNullifierBinds(log, s.note, epoch, s.k, own.note, epoch, own.k);
    }
  }

  /** A transaction whose rate proof its note signed over the transaction's own binding digest is accepted
      exactly when it passes the other checks, its epoch is current and the slot is unused. */
  lemma SignedAccepted(s: LedgerState, accepted: seq<TxV1>, tx: TxV1, verifier: Verifier, note: QuotaNote, epoch: u64,
                       k: u64, proof: RateProof)
    requires note.Signal(epoch, k, tx.BindingDigest()) == Ok(proof) && tx.antispam == QuotaLane(proof)
    ensures Verdict(s, accepted, tx, verifier).None? <==>
              && tx.anchor in s.anchors && |tx.proof| == 192 && Less(tx.nullifiers[0], tx.nullifiers[1])
              && verifier(tx.ToPublicInputs(), tx.proof) && !Conflicts(s, accepted, tx)
              && epoch == (s.height + 1) / 100
              && (epoch, note.RateNullifier(epoch, k)) !in SlotsAfter(s.slots, accepted)
  {
    hide HashParts, MessageX, Less, ValidateStateless, SlotsAfter, NullifiersOf, Field.Share, Field.Interpolate;
    SignalExactly(note, epoch, k, tx.BindingDigest());
    StatelessMeans(tx, verifier, s.config.difficultyBits);
    LessTrichotomy(tx.nullifiers[0], tx.nullifiers[1]);
  }

  // ---------- transactions anyone can make ----------

  /** A quota-lane transaction around a given rate nullifier and an arbitrary y, with the development proof
      for its public inputs. */
  function QuotaTx(anchor: Anchor, nullifiers: DigestPair, epoch: u64, rateNullifier: Digest, y: u64): TxV1 {
    var body := TxV1(anchor, nullifiers, [ZERO_DIGEST, ZERO_DIGEST], [Zeros(1273), Zeros(1273)], PowLane(0),
                     Zeros(PROOF_BUCKET));
    body.(antispam := QuotaLane(RateProof(epoch, rateNullifier, MessageX(body.BindingDigest()), y)),
          proof := ProofFor(body.ToPublicInputs()))
  }

  lemma QuotaTxShape(anchor: Anchor, nullifiers: DigestPair, epoch: u64, rateNullifier: Digest, y: u64)
    ensures var tx := QuotaTx(anchor, nullifiers, epoch, rateNullifier, y);
            && tx.anchor == anchor && tx.nullifiers == nullifiers
            && |tx.proof| == PROOF_BUCKET && DevVerifier(tx.ToPublicInputs(), tx.proof)
            && tx.antispam.QuotaLane? && tx.antispam.proof.y == y
            && SlotOf(tx.antispam.proof) == (epoch, rateNullifier)
            && tx.antispam.proof.x == MessageX(tx.BindingDigest())
  {
    hide HashParts, MessageX, EncodePublicInputs, DevVerify;
    var tx := QuotaTx(anchor, nullifiers, epoch, rateNullifier, y);
    OneProof(tx.ToPublicInputs(), tx.proof);
  }

  /** The development verifier takes such a transaction, so a ledger that has seen neither its nullifiers nor
      its slot accepts it. */
  lemma QuotaTxVerdict(s: LedgerState, nullifiers: DigestPair, epoch: u64, rateNullifier: Digest, y: u64)
    requires s.CurrentAnchor() in s.anchors && Less(nullifiers[0], nullifiers[1])
    requires epoch == (s.height + 1) / EPOCH_LENGTH && forall nf :: nf in nullifiers ==> nf !in s.nullifiers
    ensures Verdict(s, [], QuotaTx(s.CurrentAnchor(), nullifiers, epoch, rateNullifier, y), DevVerifier)
         == if (epoch, rateNullifier) in s.slots then Some(QuotaRejected) else None
  {
    hide HashParts, MessageX, Less, RootOf, ValidateStateless, QuotaTx, DevVerify;
    var tx := QuotaTx(s.CurrentAnchor(), nullifiers, epoch, rateNullifier, y);
    QuotaTxShape(s.CurrentAnchor(), nullifiers, epoch, rateNullifier, y);
    StatelessMeans(tx, DevVerifier, s.config.difficultyBits);
    LessTrichotomy(nullifiers[0], nullifiers[1]);
    assert !Conflicts(s, [], tx);
  }

  /** What a one-transaction checkpoint on genesis leaves: the accepted transaction's slot. */
  lemma FirstQuotaTx(c: Config, notes: seq<(Commitment, u64)>, nullifiers: DigestPair, rateNullifier: Digest, y: u64)
    requires GenesisValue(notes) < TWO64 && Genesis(c, notes).Ready() && Less(nullifiers[0], nullifiers[1])
    ensures var tx := QuotaTx(Genesis(c, notes).CurrentAnchor(), nullifiers, 0, rateNullifier, y);
            var run := OneStep(c, notes, [tx], DevVerifier);
            && run.From(c, notes) && run.AllAccepted() == [tx]
            && run.Last().slots == map[(0, rateNullifier) := (MessageX(tx.BindingDigest()), y)]
            && run.Last().nullifiers == Elements(nullifiers) && run.Last().height == 1
  {
    hide HashParts, MessageX, Less, RootOf, GenesisValue, Minted, Apply, QuotaTx, SlotsWith, SlotsAfter, NullifiersOf,
         CommitmentsOf, RewardNotes, NoteCommitments, Evict, Filter, Elements;
    var s := Genesis(c, notes);
    var tx := QuotaTx(s.CurrentAnchor(), nullifiers, 0, rateNullifier, y);
    var run := OneStep(c, notes, [tx], DevVerifier);
    OneStepRuns(c, notes, [tx], DevVerifier);
    FirstAccepted(c, notes, nullifiers, rateNullifier, y);
    QuotaTxShape(s.CurrentAnchor(), nullifiers, 0, rateNullifier, y);
    assert run.AcceptedBy(0) == [] && run.AllAccepted() == run.AcceptedBy(0) + run.AcceptedIn(0);
    StepFacts(run, 0);
    OneTxEffects(s.slots, tx);
    FirstSlot(tx);
  }

  lemma FirstAccepted(c: Config, notes: seq<(Commitment, u64)>, nullifiers: DigestPair, rateNullifier: Digest, y: u64)
    requires GenesisValue(notes) < TWO64 && Less(nullifiers[0], nullifiers[1])
    ensures var tx := QuotaTx(Genesis(c, notes).CurrentAnchor(), nullifiers, 0, rateNullifier, y);
            Accepted(Genesis(c, notes), [tx], DevVerifier) == [tx]
  {
    hide HashParts, MessageX, Less, RootOf, GenesisValue, Verdict, QuotaTx, Filter;
    var s := Genesis(c, notes);
    assert s.CurrentAnchor() in s.anchors;
    QuotaTxVerdict(s, nullifiers, 0, rateNullifier, y);
    OneAccepted(s, QuotaTx(s.CurrentAnchor(), nullifiers, 0, rateNullifier, y), DevVerifier);
  }

  lemma FirstSlot(tx: TxV1)
    requires tx.antispam.QuotaLane?
    ensures SlotsWith(map[], tx) == map[SlotOf(tx.antispam.proof) := (tx.antispam.proof.x, tx.antispam.proof.y)]
    ensures {} + Elements(tx.nullifiers) == Elements(tx.nullifiers)
  {
  }

  lemma OneAccepted(s: LedgerState, tx: TxV1, verifier: Verifier)
    requires Verdict(s, [], tx, verifier).None?
    ensures Accepted(s, [tx], verifier) == [tx]
  {
    hide Verdict;
    assert [tx][..0] == [] && Filter(s, [], verifier).accepted == [];
  }

  lemma OneTxEffects(slots: Slots, tx: TxV1)
    ensures NullifiersOf([tx]) == tx.nullifiers && SlotsAfter(slots, [tx]) == SlotsWith(slots, tx)
  {
    assert [tx][..0] == [] && NullifiersOf([]) == [] && SlotsAfter(slots, []) == slots;
  }

  /** Nothing ties a rate nullifier to who uses it. Copied into a transaction of one's own, with any y, it
      fills its owner's slot, and the owner's first and only signature there is answered with `Slash`. */
  lemma CopiedNullifierSlashes(c: Config, notes: seq<(Commitment, u64)>, own: Signing, nullifiers: DigestPair, y: u64)
    requires GenesisValue(notes) < TWO64 && Genesis(c, notes).Ready()
    requires own.k < own.note.Quota() && Less(nullifiers[0], nullifiers[1])
    requires var tx := QuotaTx(Genesis(c, notes).CurrentAnchor(), nullifiers, 0, own.note.RateNullifier(0, own.k), y);
             MessageX(tx.BindingDigest()) != MessageX(own.message)
    ensures var tx := QuotaTx(Genesis(c, notes).CurrentAnchor(), nullifiers, 0, own.note.RateNullifier(0, own.k), y);
            var run := OneStep(c, notes, [tx], DevVerifier);
            && run.From(c, notes) && run.AllAccepted() == [tx]
            && AdmitResult(run.Last().slots, own.note.Signal(0, own.k, own.message).value).Slash?
  {
    hide HashParts, MessageX, Less, RootOf, GenesisValue, EmissionAt, Apply, QuotaTx, Genesis,
         Field.Share, Field.Interpolate;
    FirstQuotaTx(c, notes, nullifiers, own.note.RateNullifier(0, own.k), y);
  }
}
