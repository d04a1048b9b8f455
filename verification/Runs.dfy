/** Invariants of every run from genesis, restarts included: no double spend, the anchor window, supply. */
module Runs {
  import opened Bytes
  import opened Counting
  import opened Interfaces
  import opened Notes
  import opened Merkle
  import opened Tree
  import opened Tx
  import opened Emission
  import opened Ledger
  import opened Batches

  /** A run: the states passed through, the batch applied in each, all judged by one verifier, and where the
      ledger was restarted from a snapshot before it went on. */
  datatype Run = Run(states: seq<LedgerState>, batches: seq<seq<TxV1>>, verifier: Verifier, restarts: set<nat>) {
    /** The state batch i is applied to. */
    function Start(i: nat): LedgerState
      requires i < |states|
    {
      if i in restarts then Restored(states[i]) else states[i]
    }

    ghost predicate Steps(i: nat)
      requires i < |batches| && |states| == |batches| + 1
    {
      Start(i).Ready() && states[i + 1] == Apply(Start(i), batches[i], verifier)
    }

    ghost predicate Valid() {
      |states| == |batches| + 1 && forall i :: 0 <= i < |batches| ==> Steps(i)
    }

    ghost predicate From(c: Config, notes: seq<(Commitment, u64)>) {
      Valid() && c.Valid() && GenesisValue(notes) < TWO64 && states[0] == Genesis(c, notes)
    }

    function Last(): LedgerState
      requires states != []
    {
      states[|states| - 1]
    }

    /** The transactions accepted in batch i. */
    function AcceptedIn(i: nat): seq<TxV1>
      requires i < |batches| && |states| == |batches| + 1
    {
      Accepted(Start(i), batches[i], verifier)
    }

    /** All transactions accepted in batches m to n - 1, in order. */
    function AcceptedFrom(m: nat, n: nat): seq<TxV1>
      requires n <= |batches| && |states| == |batches| + 1
      decreases n
    {
      if n <= m then [] else AcceptedFrom(m, n - 1) + AcceptedIn(n - 1)
    }

    /** All transactions accepted in the first n batches, in order. */
    function AcceptedBy(n: nat): seq<TxV1>
      requires n <= |batches| && |states| == |batches| + 1
    {
      AcceptedFrom(0, n)
    }

    /** The checkpoint of the last restart before the n-th state, or zero. */
    function Since(n: nat): (m: nat)
      ensures m <= n && (m > 0 ==> m in restarts && m < n)
    {
      if n == 0 then 0 else if n - 1 in restarts then n - 1 else Since(n - 1)
    }

    function AllAccepted(): seq<TxV1>
      requires |states| == |batches| + 1
    {
      AcceptedBy(|batches|)
    }
  }

  /** The run of a single checkpoint. */
  function OneStep(c: Config, notes: seq<(Commitment, u64)>, txs: seq<TxV1>, verifier: Verifier): Run
    requires GenesisValue(notes) < TWO64 && Genesis(c, notes).Ready()
  {
    var s := Genesis(c, notes);
    Run([s, Apply(s, txs, verifier)], [txs], verifier, {})
  }

  lemma OneStepRuns(c: Config, notes: seq<(Commitment, u64)>, txs: seq<TxV1>, verifier: Verifier)
    requires GenesisValue(notes) < TWO64 && Genesis(c, notes).Ready()
    ensures OneStep(c, notes, txs, verifier).From(c, notes)
  {
    hide Apply, EmissionAt, RootOf, GenesisValue;
    var run := OneStep(c, notes, txs, verifier);
    assert run.Steps(0);
  }

  // ---------- what one step keeps ----------

  /** The fields after step i in terms of the fields before it. */
  lemma StepFacts(run: Run, i: nat)
    requires run.Valid() && i < |run.batches|
    ensures var s, b, s' := run.states[i], run.Start(i), run.states[i + 1];
            && b.Ready() && b == s.(anchors := b.anchors, slots := b.slots)
            && s'.config == s.config && s'.height == s.height + 1
            && s'.leaves == s.leaves + CommitmentsOf(run.AcceptedIn(i))
                 + NoteCommitments(RewardNotes(s.config, s.height + 1))
            && s'.anchors == Evict(b.anchors + [Anchor(s.height + 1, RootOf(s'.leaves))], s.height + 1)
            && s'.nullifiers == s.nullifiers + Elements(NullifiersOf(run.AcceptedIn(i)))
            && s'.slots == SlotsAfter(b.slots, run.AcceptedIn(i))
            && s'.supply == s.supply + Minted(s.config, s.height + 1)
  {
    hide Filter, NullifiersOf, CommitmentsOf, SlotsAfter, RootOf, EmissionAt, Evict, Rewards, Sum, RewardNotes,
         NoteCommitments, Minted;
    assert run.Steps(i);
  }

  lemma {:induction false} HeightAndConfig(run: Run, c: Config, notes: seq<(Commitment, u64)>, i: nat)
    requires run.From(c, notes) && i < |run.states|
    ensures run.states[i].height == i && run.states[i].config == c
  {
    hide Apply, Filter, NullifiersOf, CommitmentsOf, SlotsAfter, RootOf, EmissionAt, Evict, RewardNotes,
         NoteCommitments, Minted;
    if i == 0 {
    } else {
      HeightAndConfig(run, c, notes, i - 1);
      StepFacts(run, i - 1);
    }
  }

  /** The 64-bit height bounds the length of every run. */
  lemma RunLength(run: Run, c: Config, notes: seq<(Commitment, u64)>)
    requires run.From(c, notes)
    ensures |run.states| <= TWO64
  {
    HeightAndConfig(run, c, notes, |run.batches|);
  }

  // ---------- no double spend ----------

  lemma {:induction false} NullifiersAppend(a: seq<TxV1>, b: seq<TxV1>)
    ensures NullifiersOf(a + b) == NullifiersOf(a) + NullifiersOf(b)
  {
    hide NullifiersOf;
    if b == [] {
      assert a + b == a;
      NoNullifiers();
    } else {
      var init, last := b[..|b| - 1], b[|b| - 1];
      NullifiersAppend(a, init);
      assert b == init + [last] && a + b == (a + init) + [last];
      NullifiersSnoc(a + init, last);
      NullifiersSnoc(init, last);
    }
  }

  lemma DistinctAppend<T>(s: seq<T>, t: seq<T>)
    requires Distinct(s) && Distinct(t) && forall x :: x in t ==> x !in s
    ensures Distinct(s + t)
  {
    forall i, j | 0 <= i < j < |s + t|
      ensures (s + t)[i] != (s + t)[j]
    {
      if i < |s| <= j {
        assert t[j - |s|] in t;
      }
    }
  }

  /** Over a whole run no nullifier is ever accepted twice, within a transaction, a checkpoint or across
      checkpoints, and the ledger's set holds exactly the accepted ones. */
  lemma {:induction false} NoDoubleSpend(run: Run, c: Config, notes: seq<(Commitment, u64)>, n: nat)
    requires run.From(c, notes) && n <= |run.batches|
    ensures Distinct(NullifiersOf(run.AcceptedBy(n)))
    ensures run.states[n].nullifiers == Elements(NullifiersOf(run.AcceptedBy(n)))
  {
    hide Apply, Filter, NullifiersOf, CommitmentsOf, SlotsAfter, RootOf, EmissionAt, Evict, RewardNotes,
         NoteCommitments, Minted;
    if n == 0 {
      NoNullifiers();
    } else {
      NoDoubleSpend(run, c, notes, n - 1);
      StepFacts(run, n - 1);
      BatchNullifiersFresh(run.Start(n - 1), run.batches[n - 1], run.verifier);
      NullifiersAppend(run.AcceptedBy(n - 1), run.AcceptedIn(n - 1));
      DistinctAppend(NullifiersOf(run.AcceptedBy(n - 1)), NullifiersOf(run.AcceptedIn(n - 1)));
    }
  }

  lemma {:induction false} SharedTwice(txs: seq<TxV1>, i: nat, j: nat, nf: Nullifier)
    requires i < j < |txs| && nf in txs[i].nullifiers && nf in txs[j].nullifiers
    ensures !Distinct(NullifiersOf(txs))
  {
    hide NullifiersOf, Distinct;
    var init, last := txs[..|txs| - 1], txs[|txs| - 1];
    assert txs == init + [last];
    NullifiersSnoc(init, last);
    if j == |txs| - 1 {
      NullifierOrigin(init, nf);
      assert init[i] in init;
      MeetingLists(NullifiersOf(init), last.nullifiers, nf);
    } else {
      SharedTwice(init, i, j, nf);
      DistinctPrefix(NullifiersOf(init), last.nullifiers);
    }
  }

  lemma MeetingLists<T>(s: seq<T>, t: seq<T>, x: T)
    requires x in s && x in t
    ensures !Distinct(s + t)
  {
    var i :| 0 <= i < |s| && s[i] == x;
    var j :| 0 <= j < |t| && t[j] == x;
    assert (s + t)[i] == (s + t)[|s| + j];
  }

  lemma DistinctPrefix<T>(s: seq<T>, t: seq<T>)
    ensures Distinct(s + t) ==> Distinct(s)
  {
    assert forall i :: 0 <= i < |s| ==> (s + t)[i] == s[i];
  }

  /** No two transactions accepted anywhere in a run reveal a common nullifier. */
  lemma NoSharedNullifier(run: Run, c: Config, notes: seq<(Commitment, u64)>, i: nat, j: nat, nf: Nullifier)
    requires run.From(c, notes) && i < j < |run.AllAccepted()|
    ensures !(nf in run.AllAccepted()[i].nullifiers && nf in run.AllAccepted()[j].nullifiers)
  {
    hide NullifiersOf, Distinct, Genesis, Apply;
    NoDoubleSpend(run, c, notes, |run.batches|);
    if nf in run.AllAccepted()[i].nullifiers && nf in run.AllAccepted()[j].nullifiers {
      SharedTwice(run.AllAccepted(), i, j, nf);
    }
  }

  // ---------- the anchor window ----------

  function WindowStart(height: nat): nat { if height >= 1023 then height - 1023 else 0 }

  /** The anchors sealed at heights lo to hi. */
  function SealedAnchors(run: Run, lo: nat, hi: nat): (s: seq<Anchor>)
    requires lo <= hi < |run.states| && |run.states| <= TWO64
    ensures |s| == hi + 1 - lo
    ensures forall i :: 0 <= i < |s| ==> s[i] == Anchor(lo + i, RootOf(run.states[lo + i].leaves))
  {
    seq(hi + 1 - lo, i requires 0 <= i < hi + 1 - lo => Anchor(lo + i, RootOf(run.states[lo + i].leaves)))
  }

  lemma EvictWindow(anchors: seq<Anchor>, height: u64)
    requires 0 < |anchors| <= 1025
    requires forall i :: 0 <= i < |anchors| ==> anchors[i].height == height + 1 - |anchors| + i
    ensures Evict(anchors, height) == if |anchors| == 1025 then anchors[1..] else anchors
  {
  }

  function Later(a: nat, b: nat): nat { if a < b then b else a }

  /** The first height in the queue of state n: the window's, or that of the last restart. */
  function Oldest(run: Run, n: nat): (lo: nat)
    ensures lo <= n
  {
    Later(WindowStart(n), run.Since(n))
  }

  /** The queue holds exactly the anchors sealed since the last restart at the last 1024 heights, each the
      root of the leaves then. */
  lemma {:induction false} AnchorWindow(run: Run, c: Config, notes: seq<(Commitment, u64)>, n: nat)
    requires run.From(c, notes) && n < |run.states|
    ensures |run.states| <= TWO64
    ensures run.states[n].anchors == SealedAnchors(run, Oldest(run, n), n)
  {
    hide Apply, RootOf;
    RunLength(run, c, notes);
    if n == 0 {
    } else {
      AnchorWindow(run, c, notes, n - 1);
      SealExtendsWindow(run, c, notes, n - 1);
    }
  }

  lemma SealedShift(run: Run, lo: nat, m: nat)
    requires lo <= m && m + 1 < |run.states| <= TWO64
    ensures SealedAnchors(run, lo, m) + [Anchor(m + 1, RootOf(run.states[m + 1].leaves))]
              == SealedAnchors(run, lo, m + 1)
    ensures SealedAnchors(run, lo, m + 1)[1..] == SealedAnchors(run, lo + 1, m + 1)
  {
    hide RootOf;
  }

  lemma SealExtendsWindow(run: Run, c: Config, notes: seq<(Commitment, u64)>, m: nat)
    requires run.From(c, notes) && m < |run.batches| && |run.states| <= TWO64
    requires run.states[m].anchors == SealedAnchors(run, Oldest(run, m), m)
    ensures run.states[m + 1].anchors == SealedAnchors(run, Oldest(run, m + 1), m + 1)
  {
    hide Apply, Genesis, RootOf, Evict, RewardNotes, NoteCommitments, NullifiersOf, CommitmentsOf, SlotsAfter, Minted,
         SealedAnchors;
    HeightAndConfig(run, c, notes, m);
    StepFacts(run, m);
    var lo := if m in run.restarts then m else Oldest(run, m);
    assert run.Start(m).anchors == SealedAnchors(run, lo, m) by { OneSealed(run, m); }
    SealedStep(run, lo, m);
    assert Oldest(run, m + 1) == Later(lo, WindowStart(m + 1));
  }

  /** After a restart the queue is the current anchor. */
  lemma OneSealed(run: Run, m: nat)
    requires m < |run.states| <= TWO64 && run.states[m].height == m
    ensures [run.states[m].CurrentAnchor()] == SealedAnchors(run, m, m)
  {
    hide RootOf;
  }

  /** Sealing the next height and evicting moves a window on by one, or lets it grow. */
  lemma SealedStep(run: Run, lo: nat, m: nat)
    requires WindowStart(m) <= lo <= m && m + 1 < |run.states| <= TWO64
    ensures Evict(SealedAnchors(run, lo, m) + [Anchor(m + 1, RootOf(run.states[m + 1].leaves))], m + 1)
         == SealedAnchors(run, Later(lo, WindowStart(m + 1)), m + 1)
  {
    hide RootOf, Evict;
    SealedShift(run, lo, m);
    EvictWindow(SealedAnchors(run, lo, m + 1), m + 1);
  }

  lemma {:induction false} NeverRestarted(run: Run, n: nat)
    requires run.restarts == {}
    ensures run.Since(n) == 0
  {
    if n == 0 {
    } else {
      NeverRestarted(run, n - 1);
    }
  }

  /** An anchor is valid exactly when it was sealed, since the last restart, at some height less than 1024
      checkpoints ago; the current anchor always is. */
  lemma AnchorValidExactly(run: Run, c: Config, notes: seq<(Commitment, u64)>, n: nat, a: Anchor)
    requires run.From(c, notes) && n < |run.states|
    ensures a in run.states[n].anchors <==>
              run.Since(n) <= a.height <= n && n - a.height < ANCHOR_WINDOW
              && a.root == RootOf(run.states[a.height].leaves)
    ensures run.restarts == {} ==> run.Since(n) == 0
    ensures run.states[n].CurrentAnchor() in run.states[n].anchors
  {
    hide RootOf, SealedAnchors, Genesis, Apply;
    AnchorWindow(run, c, notes, n);
    HeightAndConfig(run, c, notes, n);
    if run.restarts == {} {
      NeverRestarted(run, n);
    }
    SealedMember(run, Oldest(run, n), n, a);
    SealedMember(run, Oldest(run, n), n, run.states[n].CurrentAnchor());
  }

  lemma SealedMember(run: Run, lo: nat, n: nat, a: Anchor)
    requires lo <= n < |run.states| <= TWO64
    ensures a in SealedAnchors(run, lo, n) <==>
              lo <= a.height <= n && a.root == RootOf(run.states[a.height].leaves)
  {
    hide RootOf;
    var w := SealedAnchors(run, lo, n);
    if lo <= a.height <= n && a.root == RootOf(run.states[a.height].leaves) {
      assert w[a.height - lo] == a;
    }
  }

  /** The anchors a batch is judged by are valid ones of the state before it. */
  lemma StartAnchors(run: Run, c: Config, notes: seq<(Commitment, u64)>, n: nat, a: Anchor)
    requires run.From(c, notes) && n < |run.states| && a in run.Start(n).anchors
    ensures a in run.states[n].anchors
  {
    hide RootOf, Genesis, Apply;
    AnchorValidExactly(run, c, notes, n, run.states[n].CurrentAnchor());
  }

  /** The tree only grows: every earlier leaf list is a prefix of every later one. */
  lemma {:induction false} LeavesGrow(run: Run, i: nat, j: nat)
    requires run.Valid() && i <= j < |run.states|
    ensures run.states[i].leaves <= run.states[j].leaves
    decreases j
  {
    hide Apply, Filter, NullifiersOf, CommitmentsOf, SlotsAfter, RootOf, EmissionAt, Evict, RewardNotes,
         NoteCommitments, Minted;
    if i == j {
    } else {
      LeavesGrow(run, i, j - 1);
      StepFacts(run, j - 1);
    }
  }

  // ---------- supply and its audit ----------

  /** Supply after n checkpoints: the genesis value plus all emission, or nothing at zero weight. */
  lemma {:induction false} SupplyAfter(run: Run, c: Config, notes: seq<(Commitment, u64)>, n: nat)
    requires run.From(c, notes) && n < |run.states|
    ensures run.states[n].supply
         == GenesisValue(notes) + if Sum(c.Weights()) > 0 then EmittedBy(c.emission, n) else 0
  {
    hide Apply, Filter, NullifiersOf, CommitmentsOf, SlotsAfter, RootOf, EmissionAt, Evict, RewardNotes,
         NoteCommitments, Minted, Sum;
    if n == 0 {
    } else {
      SupplyAfter(run, c, notes, n - 1);
      HeightAndConfig(run, c, notes, n - 1);
      StepFacts(run, n - 1);
      MintedExact(c, n);
    }
  }

  /** `audit_supply` against the genesis value succeeds exactly when the weights sum to something or what
      was emitted is nothing modulo 2^64. */
  lemma AuditExactly(run: Run, c: Config, notes: seq<(Commitment, u64)>)
    requires run.From(c, notes)
    ensures Audits(c.emission, GenesisValue(notes), run.Last().height, run.Last().supply) <==>
              Sum(c.Weights()) > 0 || EmittedBy(c.emission, |run.batches|) % TWO64 == 0
  {
    hide Apply, Genesis, GenesisValue, EmittedBy, Sum;
    SupplyAfter(run, c, notes, |run.batches|);
    HeightAndConfig(run, c, notes, |run.batches|);
  }

  /** One empty checkpoint at zero weight emits on paper, mints nothing, and fails the audit. */
  lemma AuditFailsAtZeroWeight(verifier: Verifier) returns (c: Config, run: Run)
    ensures run.From(c, []) && run.verifier == verifier && run.batches == [[]]
    ensures c.validators == [ValidatorInfo(0, ZERO_DIGEST)] && EmittedBy(c.emission, 1) == 1
    ensures !Audits(c.emission, 0, run.Last().height, run.Last().supply)
  {
    hide Apply, EmissionAt, RootOf, Minted;
    c := Config(EmissionParams(1, 1, 1), [ValidatorInfo(0, ZERO_DIGEST)], 0);
    var w := c.Weights();
    assert w[..0] == [] && Sum(w) == Sum(w[..0]) + w[0];
    assert EmittedBy(c.emission, 1) == EmittedBy(c.emission, 0) + 1;
    hide Sum, EmittedBy;
    MintedExact(c, 1);
    assert GenesisValue([]) == 0 && Genesis(c, []).Ready();
    run := OneStep(c, [], [], verifier);
    OneStepRuns(c, [], [], verifier);
    AuditExactly(run, c, []);
  }
}
