/** crates/storage and the persistence half of crates/state: snapshots, reloading, and what a restored
    ledger does next. Tables are finite maps iterated in key order. */
module Storage {
  import opened Bytes
  import opened Counting
  import opened Interfaces
  import opened Merkle
  import opened Tree
  import opened Notes
  import Field
  import opened Quota
  import opened Emission
  import opened Tx
  import opened Prover
  import opened Ledger
  import opened LedgerMachine
  import opened Batches
  import opened Runs
  import opened QuotaRuns

  // ---------- key order ----------

  /** The keys of a table in ascending order, each once. */
  ghost predicate Ascending(keys: seq<nat>, all: set<nat>) {
    && (forall i, j :: 0 <= i < j < |keys| ==> keys[i] < keys[j])
    && (forall k :: k in all <==> k in keys)
  }

  ghost predicate Dense(all: set<nat>, n: nat) { forall k: nat :: k in all <==> k < n }

  ghost predicate Covers(keys: seq<nat>, n: nat) {
    && (forall i, j :: 0 <= i < j < |keys| ==> keys[i] < keys[j])
    && (forall k: nat :: k in keys <==> k < n)
  }

  lemma LastCovered(keys: seq<nat>, n: nat)
    requires Covers(keys, n)
    ensures keys == [] <==> n == 0
    ensures keys != [] ==> keys[|keys| - 1] == n - 1 && keys == keys[..|keys| - 1] + [n - 1]
  {
    if keys != [] {
      assert keys[|keys| - 1] in keys;
    }
    if n > 0 {
      assert n - 1 in keys;
      var i :| 0 <= i < |keys| && keys[i] == n - 1;
    }
  }

  lemma InitCovers(init: seq<nat>, n: nat)
    requires n > 0 && Covers(init + [n - 1], n)
    ensures Covers(init, n - 1)
  {
    var keys := init + [n - 1];
    forall i, j | 0 <= i < j < |init|
      ensures init[i] < init[j]
    {
      assert keys[i] < keys[j];
    }
    forall k: nat
      ensures k in init <==> k < n - 1
    {
      assert k in keys <==> k < n;
      if k in init {
        var i :| 0 <= i < |init| && init[i] == k;
        assert keys[i] < keys[|init|];
      }
    }
  }

  /** Ascending keys that are exactly 0 to n - 1 come as 0, 1, 2, ... */
  lemma {:induction false} DenseKeys(keys: seq<nat>, n: nat)
    requires Covers(keys, n)
    ensures |keys| == n && forall i :: 0 <= i < n ==> keys[i] == i
  {
    hide Covers;
    LastCovered(keys, n);
    if n == 0 {
    } else {
      var init := keys[..|keys| - 1];
      InitCovers(init, n);
      DenseKeys(init, n - 1);
    }
  }

  ghost predicate IsLeast(k: nat, s: set<nat>) { k in s && forall j :: j in s ==> k <= j }

  lemma {:induction false} LeastExists(s: set<nat>)
    requires s != {}
    ensures exists k :: IsLeast(k, s)
  {
    var x :| x in s;
    var rest := s - {x};
    if rest == {} {
      assert s == {x};
      assert IsLeast(x, s);
    } else {
      LeastExists(rest);
      var k :| IsLeast(k, rest);
      LeastOfTwo(x, k, s);
    }
  }

  lemma LeastOfTwo(x: nat, k: nat, s: set<nat>)
    requires x in s && IsLeast(k, s - {x})
    ensures IsLeast(if x < k then x else k, s)
  {
    forall j | j in s
      ensures (if x < k then x else k) <= j
    {
      if j != x {
        assert j in s - {x};
      }
    }
  }

  /** Everything in `done` lies below everything in `rest`. */
  ghost predicate Below(done: set<nat>, rest: set<nat>) { forall j, k :: j in done && k in rest ==> j < k }

  lemma AscendingPush(keys: seq<nat>, done: set<nat>, k: nat)
    requires Ascending(keys, done) && forall j :: j in done ==> j < k
    ensures Ascending(keys + [k], done + {k})
  {
    var all := keys + [k];
    forall i, j | 0 <= i < j < |all|
      ensures all[i] < all[j]
    {
      if j == |keys| {
        assert keys[i] in keys;
      }
    }
  }

  /** Of a table's keys all but `rest` were taken, in ascending order and below what is left. */
  ghost predicate Taken(all: set<nat>, rest: set<nat>, keys: seq<nat>) {
    Ascending(keys, all - rest) && Below(all - rest, rest)
  }

  lemma TakeNext(all: set<nat>, rest: set<nat>, keys: seq<nat>, k: nat)
    requires rest <= all && Taken(all, rest, keys) && k in rest && IsLeast(k, rest)
    ensures Taken(all, rest - {k}, keys + [k])
  {
    hide Ascending;
    AscendingPush(keys, all - rest, k);
    assert all - (rest - {k}) == (all - rest) + {k};
  }

  lemma AllTaken(all: set<nat>, keys: seq<nat>)
    requires Taken(all, {}, keys)
    ensures Ascending(keys, all)
  {
    hide Ascending, Below;
    assert all - {} == all;
  }

  /** `out` lists the values at `keys`. */
  ghost predicate Rows(table: map<nat, Digest>, keys: seq<nat>, out: seq<Digest>) {
    |out| == |keys| && forall i :: 0 <= i < |out| ==> keys[i] in table && out[i] == table[keys[i]]
  }

  lemma RowsPush(table: map<nat, Digest>, keys: seq<nat>, out: seq<Digest>, k: nat)
    requires Rows(table, keys, out) && k in table
    ensures Rows(table, keys + [k], out + [table[k]])
  {
  }

  lemma NothingTaken(table: map<nat, Digest>)
    ensures Taken(table.Keys, table.Keys, []) && Rows(table, [], [])
  {
  }

  // ---------- tables ----------

  /** Row by row insertion, later rows winning. */
  function PutAll(table: map<nat, Digest>, rows: seq<(nat, Commitment)>): map<nat, Digest> {
    if rows == [] then table else PutAll(table, rows[..|rows| - 1])[rows[|rows| - 1].0 := rows[|rows| - 1].1]
  }

  function MarkAll(table: map<Nullifier, u64>, nfs: seq<Nullifier>, height: u64): map<Nullifier, u64> {
    if nfs == [] then table else MarkAll(table, nfs[..|nfs| - 1], height)[nfs[|nfs| - 1] := height]
  }

  lemma {:induction false} MarkedKeys(table: map<Nullifier, u64>, nfs: seq<Nullifier>, height: u64)
    ensures MarkAll(table, nfs, height).Keys == table.Keys + Elements(nfs)
  {
    if nfs == [] {
    } else {
      var init, last := nfs[..|nfs| - 1], nfs[|nfs| - 1];
      MarkedKeys(table, init, height);
      assert nfs == init + [last];
      ElementsPush(init, last);
    }
  }

  function NumberedRows(leaves: seq<Digest>): (rows: seq<(nat, Commitment)>)
    ensures |rows| == |leaves| && forall i :: 0 <= i < |rows| ==> rows[i] == (i, leaves[i])
  {
    seq(|leaves|, i requires 0 <= i < |leaves| => (i, leaves[i]))
  }

  /** After inserting all leaves at their positions the table holds them there, and its other rows. */
  lemma {:induction false} PutNumbered(table: map<nat, Digest>, leaves: seq<Digest>, k: nat)
    ensures k in PutAll(table, NumberedRows(leaves)) <==> k in table || k < |leaves|
    ensures k < |leaves| ==> PutAll(table, NumberedRows(leaves))[k] == leaves[k]
  {
    if leaves == [] {
    } else {
      var n := |leaves| - 1;
      PutNumbered(table, leaves[..n], k);
      assert NumberedRows(leaves)[..n] == NumberedRows(leaves[..n]);
    }
  }

  class Store {
    var nullifierTable: map<Nullifier, u64>
    var leafTable: map<nat, Digest>
    var meta: map<string, u64>

    constructor ()
      ensures nullifierTable == map[] && leafTable == map[] && meta == map[]
    {
      nullifierTable, leafTable, meta := map[], map[], map[];
    }

    /** `commit_checkpoint`: insert the rows, then both meta entries. */
    method CommitCheckpoint(height: u64, supply: u64, newLeaves: seq<(nat, Commitment)>, newNullifiers: seq<Nullifier>)
      modifies this
      ensures leafTable == PutAll(old(leafTable), newLeaves)
      ensures nullifierTable == MarkAll(old(nullifierTable), newNullifiers, height)
      ensures meta == old(meta)["height" := height]["supply" := supply]
    {
      for i := 0 to |newLeaves|
        invariant leafTable == PutAll(old(leafTable), newLeaves[..i])
        invariant nullifierTable == old(nullifierTable) && meta == old(meta)
      {
        assert newLeaves[..i + 1][..i] == newLeaves[..i];
        leafTable := leafTable[newLeaves[i].0 := newLeaves[i].1];
      }
      assert newLeaves[..|newLeaves|] == newLeaves;
      for i := 0 to |newNullifiers|
        invariant leafTable == PutAll(old(leafTable), newLeaves) && meta == old(meta)
        invariant nullifierTable == MarkAll(old(nullifierTable), newNullifiers[..i], height)
      {
        assert newNullifiers[..i + 1][..i] == newNullifiers[..i];
        nullifierTable := nullifierTable[newNullifiers[i] := height];
      }
      assert newNullifiers[..|newNullifiers|] == newNullifiers;
      meta := meta["height" := height];
      meta := meta["supply" := supply];
    }

    /** `load_leaves`: the rows in key order. */
    method LoadLeaves() returns (out: seq<Digest>, ghost keys: seq<nat>)
      ensures Ascending(keys, leafTable.Keys) && Rows(leafTable, keys, out)
    {
      hide Taken, Rows, IsLeast, Ascending;
      var table := leafTable;
      out, keys := [], [];
      var rest := table.Keys;
      NothingTaken(table);
      while rest != {}
        invariant rest <= table.Keys && Taken(table.Keys, rest, keys) && Rows(table, keys, out)
        decreases |rest|
      {
        var k := TakeLeast(rest);
        TakeNext(table.Keys, rest, keys, k);
        RowsPush(table, keys, out, k);
        out := out + [table[k]];
        keys := keys + [k];
        rest := rest - {k};
      }
      AllTaken(table.Keys, keys);
    }

    /** `load_nullifiers`: every row's key. */
    method LoadNullifiers() returns (out: seq<Nullifier>)
      ensures Elements(out) == nullifierTable.Keys
    {
      out := ListOf(nullifierTable.Keys);
    }
  }

  /** The smallest remaining key. */
  method TakeLeast(s: set<nat>) returns (k: nat)
    requires s != {}
    ensures k in s && IsLeast(k, s)
  {
    LeastExists(s);
    k :| k in s && forall j :: j in s ==> k <= j;
  }

  /** The members of a set in some order. */
  method ListOf(s: set<Nullifier>) returns (out: seq<Nullifier>)
    ensures Elements(out) == s
  {
    out := [];
    var rest := s;
    while rest != {}
      invariant rest <= s && Elements(out) == s - rest
      decreases |rest|
    {
      var x :| x in rest;
      ElementsPush(out, x);
      out := out + [x];
      rest := rest - {x};
    }
  }

  // ---------- persist and restore ----------

  /** The store is empty or holds an earlier snapshot of a run that led to `s`. */
  ghost predicate HoldsEarlier(store: Store, s: LedgerState)
    reads store
  {
    && store.nullifierTable.Keys <= s.nullifiers
    && forall k :: k in store.leafTable ==> k < |s.leaves|
  }

  /** The store holds exactly this state's leaves, nullifiers, height and supply. */
  ghost predicate HoldsExactly(store: Store, s: LedgerState)
    reads store
  {
    && store.nullifierTable.Keys == s.nullifiers
    && Dense(store.leafTable.Keys, |s.leaves|)
    && (forall k :: 0 <= k < |s.leaves| ==> store.leafTable[k] == s.leaves[k])
    && "height" in store.meta && store.meta["height"] == s.height
    && "supply" in store.meta && store.meta["supply"] == s.supply
  }

  /** A fresh store, and the store of an earlier state of the run, can take the next snapshot. */
  lemma SnapshotsChain(store: Store, run: Run, i: nat, j: nat)
    requires run.Valid() && i <= j < |run.states|
    requires HoldsExactly(store, run.states[i])
    ensures HoldsEarlier(store, run.states[j])
  {
    hide Apply;
    LeavesGrow(run, i, j);
    NullifiersGrow(run, i, j);
  }

  lemma {:induction false} NullifiersGrow(run: Run, i: nat, j: nat)
    requires run.Valid() && i <= j < |run.states|
    ensures run.states[i].nullifiers <= run.states[j].nullifiers
    decreases j
  {
    hide Apply, NullifiersOf, CommitmentsOf, RootOf, Evict, SlotsAfter, RewardNotes;
    if i == j {
    } else {
      NullifiersGrow(run, i, j - 1);
      StepFacts(run, j - 1);
    }
  }

  /** `persist`: every leaf at its position and every nullifier over what the store held. It then holds
      exactly this state if and only if it held nothing foreign before. */
  method Persist(ledger: LedgerObject, store: Store)
    modifies store
    ensures store.leafTable == PutAll(old(store.leafTable), NumberedRows(ledger.tree.leaves))
    ensures store.nullifierTable.Keys == old(store.nullifierTable.Keys) + ledger.nullifiers
    ensures store.meta == old(store.meta)["height" := ledger.height]["supply" := ledger.supply]
    ensures HoldsExactly(store, ledger.State()) <==> old(HoldsEarlier(store, ledger.State()))
  {
    hide PutAll;
    var rows: seq<(nat, Commitment)> := [];
    for i := 0 to |ledger.tree.leaves|
      invariant rows == NumberedRows(ledger.tree.leaves)[..i]
    {
      rows := rows + [(i, ledger.tree.leaves[i])];
    }
    assert rows == NumberedRows(ledger.tree.leaves);
    var nullifiers := ListOf(ledger.nullifiers);
    MarkedKeys(store.nullifierTable, nullifiers, ledger.height);
    store.CommitCheckpoint(ledger.height, ledger.supply, rows, nullifiers);
    PutNumberedDense(old(store.leafTable), ledger.tree.leaves);
  }

  /** The leaf table is dense afterwards exactly when no older row lay beyond the leaves. */
  lemma PutNumberedDense(table: map<nat, Digest>, leaves: seq<Digest>)
    ensures var after := PutAll(table, NumberedRows(leaves));
            && (Dense(after.Keys, |leaves|) <==> forall k :: k in table ==> k < |leaves|)
            && (forall k :: 0 <= k < |leaves| ==> k in after && after[k] == leaves[k])
  {
    hide PutAll, NumberedRows;
    var after := PutAll(table, NumberedRows(leaves));
    forall k: nat
      ensures k in after <==> k in table || k < |leaves|
      ensures k < |leaves| ==> after[k] == leaves[k]
    {
      PutNumbered(table, leaves, k);
    }
  }

  function MetaOr(meta: map<string, u64>, key: string, default: u64): u64 {
    if key in meta then meta[key] else default
  }

  /** `restore` on any store: the leaves in key order, the stored nullifiers, height and supply or zero, one
      anchor and no quota slots. A store that holds exactly `s` gives back `s` up to anchors and slots. */
  method Restore(store: Store, c: Config) returns (ledger: LedgerObject, ghost keys: seq<nat>)
    ensures ledger.Valid() && fresh(ledger) && fresh(ledger.tree) && fresh(ledger.quota)
    ensures var s, height := ledger.State(), MetaOr(store.meta, "height", 0);
            && Ascending(keys, store.leafTable.Keys) && Rows(store.leafTable, keys, s.leaves)
            && s == LedgerState(c, s.leaves, [Anchor(height, RootOf(s.leaves))], store.nullifierTable.Keys, map[],
                                height, MetaOr(store.meta, "supply", 0))
    ensures "height" !in store.meta ==> ledger.height == 0
    ensures "supply" !in store.meta ==> ledger.supply == 0
    ensures forall s :: HoldsExactly(store, s) && s.config == c ==> ledger.State() == Restored(s)
  {
    hide RootOf, Ascending, Rows, HoldsExactly;
    var leaves;
    leaves, keys := store.LoadLeaves();
    var tree := new CommitmentTree.FromRawLeaves(leaves);
    var height := MetaOr(store.meta, "height", 0);
    var supply := MetaOr(store.meta, "supply", 0);
    var _ := tree.Seal(height);
    var nullifiers := store.LoadNullifiers();
    ledger := new LedgerObject.Load(c, tree, Elements(nullifiers), height, supply);
    forall s | HoldsExactly(store, s) && s.config == c
      ensures ledger.State() == Restored(s)
    {
      ExactRows(store, s, keys, leaves);
    }
  }

  /** The rows of an exact store, read in key order, are the leaves. */
  lemma ExactRows(store: Store, s: LedgerState, keys: seq<nat>, leaves: seq<Digest>)
    requires HoldsExactly(store, s) && Ascending(keys, store.leafTable.Keys) && Rows(store.leafTable, keys, leaves)
    ensures leaves == s.leaves && store.nullifierTable.Keys == s.nullifiers
    ensures MetaOr(store.meta, "height", 0) == s.height && MetaOr(store.meta, "supply", 0) == s.supply
  {
    DenseKeys(keys, |s.leaves|);
  }

  /** Snapshot and reload: the new ledger is the old one with a single anchor and no quota slots. */
  method PersistThenRestore(ledger: LedgerObject, store: Store) returns (back: LedgerObject)
    requires HoldsEarlier(store, ledger.State())
    modifies store
    ensures back.Valid() && fresh(back) && back.State() == Restored(ledger.State())
    ensures ledger.State() == old(ledger.State()) && HoldsExactly(store, ledger.State())
  {
    hide RootOf;
    Persist(ledger, store);
    ghost var keys;
    back, keys := Restore(store, ledger.config);
  }

  // ---------- a restored ledger behaves like the original ----------

  /** Consecutive heights ending at `height`, at most the window. */
  ghost predicate Window(anchors: seq<Anchor>, height: u64) {
    && 0 < |anchors| <= ANCHOR_WINDOW
    && forall i :: 0 <= i < |anchors| ==> anchors[i].height == height + 1 - |anchors| + i
  }

  /** The small registry is the big one without the slots `lost`. */
  ghost predicate Lacks(big: Slots, small: Slots, lost: set<Slot>) {
    big.Keys == small.Keys + lost && small.Keys !! lost
  }

  /** `r` differs from `s` only in lacking the quota slots `lost` and the anchors sealed before `from`. */
  ghost predicate Simulates(s: LedgerState, r: LedgerState, from: nat, lost: set<Slot>) {
    && r == s.(anchors := r.anchors, slots := r.slots) && Lacks(s.slots, r.slots, lost)
    && Window(s.anchors, s.height) && Window(r.anchors, r.height) && Trails(s.anchors, r.anchors, from)
  }

  /** The small window is the end of the big one, from `from` on if it is shorter. */
  ghost predicate Trails(big: seq<Anchor>, small: seq<Anchor>, from: nat) {
    && 0 < |small| <= |big| && small == big[|big| - |small|..]
    && small[0].height >= from && (|small| == |big| || small[0].height == from)
  }

  /** Reusing one of the lost slots is all that is wrong with the transaction. */
  ghost predicate OnlyReuses(s: LedgerState, accepted: seq<TxV1>, tx: TxV1, verifier: Verifier, lost: set<Slot>) {
    && ValidateStateless(tx, verifier, s.config.difficultyBits).Ok? && !Conflicts(s, accepted, tx)
    && tx.antispam.QuotaLane? && tx.antispam.proof.epoch == (s.height + 1) / EPOCH_LENGTH
    && SlotOf(tx.antispam.proof) in lost
  }

  /** The restart matters to this transaction: it uses an anchor or reuses a slot that was forgotten. */
  ghost predicate Affected(s: LedgerState, accepted: seq<TxV1>, tx: TxV1, verifier: Verifier, from: nat,
                           lost: set<Slot>) {
    tx.anchor in s.anchors && (tx.anchor.height < from || OnlyReuses(s, accepted, tx, verifier, lost))
  }

  ghost predicate NoneAffected(s: LedgerState, txs: seq<TxV1>, verifier: Verifier, from: nat, lost: set<Slot>) {
    forall i :: 0 <= i < |txs| ==> !Affected(s, Accepted(s, txs[..i], verifier), txs[i], verifier, from, lost)
  }

  lemma SameAnchors(s: LedgerState, r: LedgerState, from: nat, lost: set<Slot>, a: Anchor)
    requires Simulates(s, r, from, lost)
    ensures a in r.anchors <==> a in s.anchors && a.height >= from
  {
    hide Lacks;
    var d := |s.anchors| - |r.anchors|;
    if a in s.anchors && a.height >= from {
      var i :| 0 <= i < |s.anchors| && s.anchors[i] == a;
      assert i >= d && r.anchors[i - d] == a;
    }
    if a in r.anchors {
      var i :| 0 <= i < |r.anchors| && r.anchors[i] == a;
      assert s.anchors[i + d] == a;
    }
  }

  /** The two ledgers judge a transaction differently exactly when the restart matters to it. */
  lemma VerdictExactly(s: LedgerState, r: LedgerState, from: nat, lost: set<Slot>, accepted: seq<TxV1>, tx: TxV1,
                       verifier: Verifier)
    requires Simulates(s, r, from, lost) && Lacks(SlotsAfter(s.slots, accepted), SlotsAfter(r.slots, accepted), lost)
    ensures Verdict(s, accepted, tx, verifier) != Verdict(r, accepted, tx, verifier) <==>
              Affected(s, accepted, tx, verifier, from, lost)
  {
    hide ValidateStateless, NullifiersOf, SlotsAfter, Simulates, Lacks, AdmitResult;
    SameAnchors(s, r, from, lost, tx.anchor);
    SameFields(s, r, from, lost);
    assert Conflicts(s, accepted, tx) == Conflicts(r, accepted, tx);
    if tx.antispam.QuotaLane? {
      LostExactly(SlotsAfter(s.slots, accepted), SlotsAfter(r.slots, accepted), lost, tx.antispam.proof);
    }
  }

  lemma SameFields(s: LedgerState, r: LedgerState, from: nat, lost: set<Slot>)
    requires Simulates(s, r, from, lost)
    ensures r.config == s.config && r.nullifiers == s.nullifiers && r.height == s.height
  {
    hide Lacks, Window, Trails;
  }

  lemma LostExactly(big: Slots, small: Slots, lost: set<Slot>, proof: RateProof)
    requires Lacks(big, small, lost)
    ensures AdmitResult(big, proof) == Admitted ==> AdmitResult(small, proof) == Admitted
    ensures (AdmitResult(big, proof) == Admitted) != (AdmitResult(small, proof) == Admitted) <==> SlotOf(proof) in lost
  {
    hide Field.Interpolate;
  }

  // ---------- equal rejections are equal verdicts ----------

  /** Two ledgers reject the same from a batch exactly when they did so up to its last transaction and
      judge that one alike; the listed positions leave no other way. */
  lemma RejectedSnoc(s: LedgerState, r: LedgerState, init: seq<TxV1>, tx: TxV1, verifier: Verifier)
    ensures Filter(s, init + [tx], verifier).rejected == Filter(r, init + [tx], verifier).rejected <==>
              && Filter(s, init, verifier).rejected == Filter(r, init, verifier).rejected
              && Verdict(s, Accepted(s, init, verifier), tx, verifier)
                   == Verdict(r, Accepted(r, init, verifier), tx, verifier)
  {
    FilterSnoc(s, init, tx, verifier);
    FilterSnoc(r, init, tx, verifier);
    RejectedBelow(s, init, verifier);
    RejectedBelow(r, init, verifier);
    hide Filter, Verdict;
    RowAppended(Filter(s, init, verifier).rejected, Verdict(s, Accepted(s, init, verifier), tx, verifier),
                Filter(r, init, verifier).rejected, Verdict(r, Accepted(r, init, verifier), tx, verifier), |init|);
  }

  lemma RowAppended(a: seq<(nat, RejectReason)>, v: Option<RejectReason>, b: seq<(nat, RejectReason)>,
                    w: Option<RejectReason>, n: nat)
    requires forall e :: e in a || e in b ==> e.0 < n
    ensures WithRow(a, v, n) == WithRow(b, w, n) <==> a == b && v == w
  {
    var x, y := WithRow(a, v, n), WithRow(b, w, n);
    if x == y {
      LastRow(a, v, n);
      LastRow(b, w, n);
    }
  }

  lemma LastRow(a: seq<(nat, RejectReason)>, v: Option<RejectReason>, n: nat)
    requires forall e :: e in a ==> e.0 < n
    ensures var x := WithRow(a, v, n);
            && (v.Some? <==> x != [] && x[|x| - 1].0 == n)
            && (v.Some? ==> x[|x| - 1].1 == v.value && x[..|x| - 1] == a)
  {
  }

  lemma NoneAffectedSnoc(s: LedgerState, init: seq<TxV1>, tx: TxV1, verifier: Verifier, from: nat, lost: set<Slot>)
    ensures NoneAffected(s, init + [tx], verifier, from, lost) <==>
              NoneAffected(s, init, verifier, from, lost)
              && !Affected(s, Accepted(s, init, verifier), tx, verifier, from, lost)
  {
    hide Affected, Filter;
    var txs := init + [tx];
    assert txs[..|init|] == init && txs[|init|] == tx;
    assert forall i :: 0 <= i < |init| ==> txs[i] == init[i] && txs[..i] == init[..i];
  }

  lemma LacksWith(big: Slots, small: Slots, lost: set<Slot>, tx: TxV1)
    requires Lacks(big, small, lost)
    requires tx.antispam.QuotaLane? ==> AdmitResult(big, tx.antispam.proof) == Admitted
    ensures Lacks(SlotsWith(big, tx), SlotsWith(small, tx), lost)
  {
    hide Field.Interpolate;
    if tx.antispam.QuotaLane? {
      var slot := SlotOf(tx.antispam.proof);
      assert slot !in big && slot !in small && slot !in lost;
      assert SlotsWith(big, tx).Keys == big.Keys + {slot} && SlotsWith(small, tx).Keys == small.Keys + {slot};
    }
  }

  lemma NothingFiltered(s: LedgerState, verifier: Verifier, from: nat, lost: set<Slot>)
    ensures Filter(s, [], verifier) == Batch([], []) && SlotsAfter(s.slots, []) == s.slots
    ensures NoneAffected(s, [], verifier, from, lost)
  {
  }

  lemma SameRegistry(s: LedgerState, r: LedgerState, from: nat, lost: set<Slot>)
    requires Simulates(s, r, from, lost)
    ensures Lacks(s.slots, r.slots, lost)
  {
    hide Lacks, Window, Trails;
  }

  /** Both ledgers reject the same from a batch exactly when the restart matters to none of it; they then
      also accept the same, and the registries stay as they were to one another. */
  lemma {:induction false} FilterExactly(s: LedgerState, r: LedgerState, from: nat, lost: set<Slot>, txs: seq<TxV1>,
                                         verifier: Verifier)
    requires Simulates(s, r, from, lost)
    ensures Filter(s, txs, verifier).rejected == Filter(r, txs, verifier).rejected <==>
              NoneAffected(s, txs, verifier, from, lost)
    ensures NoneAffected(s, txs, verifier, from, lost) ==>
              && Filter(s, txs, verifier) == Filter(r, txs, verifier)
              && var accepted := Accepted(s, txs, verifier);
                 Lacks(SlotsAfter(s.slots, accepted), SlotsAfter(r.slots, accepted), lost)
  {
    hide Verdict, Simulates, Filter, NoneAffected, Affected, SlotsAfter, Lacks, AdmitResult, SlotsWith;
    if txs == [] {
      NothingFiltered(s, verifier, from, lost);
      NothingFiltered(r, verifier, from, lost);
      SameRegistry(s, r, from, lost);
    } else {
      var init, tx := txs[..|txs| - 1], txs[|txs| - 1];
      assert txs == init + [tx];
      FilterExactly(s, r, from, lost, init, verifier);
      RejectedSnoc(s, r, init, tx, verifier);
      NoneAffectedSnoc(s, init, tx, verifier, from, lost);
      FilterSnoc(s, init, tx, verifier);
      FilterSnoc(r, init, tx, verifier);
      if NoneAffected(s, init, verifier, from, lost) {
        var accepted := Accepted(s, init, verifier);
        VerdictExactly(s, r, from, lost, accepted, tx, verifier);
        if Verdict(s, accepted, tx, verifier).None? {
          AcceptedAdmits(s, accepted, tx, verifier);
          LacksWith(SlotsAfter(s.slots, accepted), SlotsAfter(r.slots, accepted), lost, tx);
          SlotsSnoc(s.slots, accepted, tx);
          SlotsSnoc(r.slots, accepted, tx);
        }
      }
    }
  }

  // ---------- the anchors ----------

  lemma WindowStep(anchors: seq<Anchor>, a: Anchor, height: u64)
    requires Window(anchors, height) && height + 1 < TWO64 && a.height == height + 1
    ensures Window(Evict(anchors + [a], height + 1), height + 1)
    ensures Evict(anchors + [a], height + 1) == if |anchors| == ANCHOR_WINDOW then anchors[1..] + [a] else anchors + [a]
  {
  }

  lemma TrailStep(big: seq<Anchor>, small: seq<Anchor>, a: Anchor, height: u64, from: nat)
    requires Window(big, height) && Window(small, height) && height + 1 < TWO64 && a.height == height + 1
    requires Trails(big, small, from)
    ensures var big', small' := Evict(big + [a], height + 1), Evict(small + [a], height + 1);
            Window(big', height + 1) && Window(small', height + 1) && Trails(big', small', from)
  {
    hide Evict;
    WindowStep(big, a, height);
    WindowStep(small, a, height);
    var big', small' := Evict(big + [a], height + 1), Evict(small + [a], height + 1);
    assert small' == big'[|big'| - |small'|..];
  }

  // ---------- one checkpoint ----------

  /** Equal filters and equal leaves give equal summaries and equal states up to anchors and slots. */
  lemma SameEffect(s: LedgerState, r: LedgerState, txs: seq<TxV1>, verifier: Verifier)
    requires r == s.(anchors := r.anchors, slots := r.slots) && s.Ready()
    requires Filter(s, txs, verifier) == Filter(r, txs, verifier)
    ensures r.Ready() && Summarize(s, txs, verifier) == Summarize(r, txs, verifier)
    ensures var s', r' := Apply(s, txs, verifier), Apply(r, txs, verifier);
            r' == s'.(anchors := r'.anchors, slots := r'.slots)
  {
    hide Filter, NullifiersOf, CommitmentsOf, SlotsAfter, RootOf, EmissionAt, Evict, RewardNotes, NoteCommitments,
         Minted, Rewards;
  }

  lemma SealedAnchor(s: LedgerState, txs: seq<TxV1>, verifier: Verifier)
    requires s.Ready()
    ensures var s' := Apply(s, txs, verifier);
            && s'.height == s.height + 1 && s'.slots == SlotsAfter(s.slots, Accepted(s, txs, verifier))
            && s'.anchors == Evict(s.anchors + [Anchor(s.height + 1, RootOf(s'.leaves))], s.height + 1)
    ensures Summarize(s, txs, verifier).rejected == Filter(s, txs, verifier).rejected
  {
    hide Filter, NullifiersOf, CommitmentsOf, SlotsAfter, RootOf, EmissionAt, Evict, RewardNotes, NoteCommitments,
         Minted, Rewards;
  }

  /** A batch gives both ledgers the same summary exactly when the restart matters to none of it, and then
      keeps the simulation. */
  lemma SimulationStep(s: LedgerState, r: LedgerState, from: nat, lost: set<Slot>, txs: seq<TxV1>, verifier: Verifier)
    requires Simulates(s, r, from, lost) && s.Ready()
    ensures r.Ready()
    ensures Summarize(s, txs, verifier) == Summarize(r, txs, verifier) <==> NoneAffected(s, txs, verifier, from, lost)
    ensures NoneAffected(s, txs, verifier, from, lost) ==>
              Simulates(Apply(s, txs, verifier), Apply(r, txs, verifier), from, lost)
  {
    hide Filter, Apply, Summarize, RootOf, EmissionAt, Evict, Window, Trails, NoneAffected, Lacks, SlotsAfter;
    FilterExactly(s, r, from, lost, txs, verifier);
    SealedAnchor(s, txs, verifier);
    SealedAnchor(r, txs, verifier);
    if NoneAffected(s, txs, verifier, from, lost) {
      SameEffect(s, r, txs, verifier);
      TrailStep(s.anchors, r.anchors, Anchor(s.height + 1, RootOf(Apply(s, txs, verifier).leaves)), s.height, from);
    }
  }

  // ---------- whole runs ----------

  lemma RestoredSimulates(run: Run, c: Config, notes: seq<(Commitment, u64)>, n: nat)
    requires run.From(c, notes) && n < |run.states|
    ensures Simulates(run.states[n], Restored(run.states[n]), n, run.states[n].slots.Keys)
  {
    hide Apply, RootOf, Genesis;
    AnchorWindow(run, c, notes, n);
    HeightAndConfig(run, c, notes, n);
    var s := run.states[n];
    assert s.anchors[|s.anchors| - 1] == s.CurrentAnchor();
    assert Restored(s).anchors == s.anchors[|s.anchors| - 1..];
  }

  /** `back` is the run of the ledger restored after checkpoint n, fed the batches that followed; the original
      went on without a restart. */
  ghost predicate Resumes(run: Run, n: nat, back: Run) {
    && (forall i :: i in run.restarts ==> i < n) && back.restarts == {}
    && run.Valid() && n < |run.states| && back.Valid() && back.states[0] == Restored(run.states[n])
    && back.batches == run.batches[n..] && back.verifier == run.verifier
  }

  /** The j-th summaries after the restart agree. */
  ghost predicate SameSummary(run: Run, n: nat, back: Run, j: nat)
    requires Resumes(run, n, back) && j < |back.batches|
  {
    assert run.Steps(n + j) && back.Steps(j);
    Summarize(run.states[n + j], run.batches[n + j], run.verifier)
    == Summarize(back.states[j], back.batches[j], back.verifier)
  }

  /** The restart after checkpoint n matters to nothing in the j-th batch after it. */
  ghost predicate Unaffected(run: Run, n: nat, j: nat)
    requires run.Valid() && n + j < |run.batches|
  {
    NoneAffected(run.states[n + j], run.batches[n + j], run.verifier, n, run.states[n].slots.Keys)
  }

  /** A ledger restored after checkpoint n reports the same summaries as the original for k checkpoints
      exactly when the restart matters to nothing in them, and then holds the same leaves, nullifiers,
      height and supply. */
  lemma {:induction false} RestoreSimulates(run: Run, c: Config, notes: seq<(Commitment, u64)>, n: nat, back: Run,
                                            k: nat)
    requires run.From(c, notes) && Resumes(run, n, back) && k <= |back.batches|
    ensures (forall j :: 0 <= j < k ==> SameSummary(run, n, back, j)) <==>
              forall j :: 0 <= j < k ==> Unaffected(run, n, j)
    ensures (forall j :: 0 <= j < k ==> Unaffected(run, n, j)) ==>
              Simulates(run.states[n + k], back.states[k], n, run.states[n].slots.Keys)
  {
    hide Apply, Summarize, Simulates, Restored, Genesis, NoneAffected;
    if k == 0 {
      RestoredSimulates(run, c, notes, n);
    } else {
      RestoreSimulates(run, c, notes, n, back, k - 1);
      if forall j :: 0 <= j < k - 1 ==> Unaffected(run, n, j) {
        assert run.Steps(n + k - 1) && back.Steps(k - 1);
        SimulationStep(run.states[n + k - 1], back.states[k - 1], n, run.states[n].slots.Keys, run.batches[n + k - 1],
                       run.verifier);
        assert SameSummary(run, n, back, k - 1) <==> Unaffected(run, n, k - 1);
      }
    }
  }

  // ---------- when a restart no longer matters ----------

  /** Every slot of the batch's registry was there before or belongs to the epoch of the next height. */
  lemma {:induction false} BatchEpochs(s: LedgerState, txs: seq<TxV1>, verifier: Verifier, slot: Slot)
    requires slot in SlotsAfter(s.slots, Accepted(s, txs, verifier))
    ensures slot in s.slots || slot.0 == (s.height + 1) / EPOCH_LENGTH
  {
    if txs == [] {
      assert SlotsAfter(s.slots, []) == s.slots;
    } else {
      hide Verdict, Filter, SlotsAfter, AdmitResult;
      var init, tx := txs[..|txs| - 1], txs[|txs| - 1];
      assert txs == init + [tx];
      var accepted := Accepted(s, init, verifier);
      FilterSnoc(s, init, tx, verifier);
      if Verdict(s, accepted, tx, verifier).None? {
        SlotsSnoc(s.slots, accepted, tx);
        AcceptedAdmits(s, accepted, tx, verifier);
      }
      if slot in SlotsAfter(s.slots, accepted) {
        BatchEpochs(s, init, verifier, slot);
      }
    }
  }

  /** After n checkpoints no slot belongs to an epoch later than that of height n. */
  lemma {:induction false} RegisteredEpochs(run: Run, c: Config, notes: seq<(Commitment, u64)>, n: nat, slot: Slot)
    requires run.From(c, notes) && n < |run.states| && slot in run.states[n].slots
    ensures slot.0 <= n / EPOCH_LENGTH
  {
    hide Apply, Filter, SlotsAfter, RootOf, Evict, NullifiersOf, CommitmentsOf, RewardNotes, NoteCommitments, Minted;
    if n == 0 {
    } else {
      StepFacts(run, n - 1);
      HeightAndConfig(run, c, notes, n - 1);
      BatchEpochs(run.Start(n - 1), run.batches[n - 1], run.verifier, slot);
      if slot in run.states[n - 1].slots {
        RegisteredEpochs(run, c, notes, n - 1, slot);
      }
    }
  }

  /** From the next epoch on no quota transaction is affected, and after 1023 checkpoints no anchor is. */
  lemma LaterUnaffected(run: Run, c: Config, notes: seq<(Commitment, u64)>, n: nat, j: nat)
    requires run.From(c, notes) && n + j < |run.batches|
    requires (n + j + 1) / EPOCH_LENGTH > n / EPOCH_LENGTH
    requires j < ANCHOR_WINDOW - 1 ==> forall tx :: tx in run.batches[n + j] ==> tx.anchor.height >= n
    ensures Unaffected(run, n, j)
  {
    hide Apply, Genesis, Filter, RootOf, ValidateStateless, Conflicts;
    var s, txs := run.states[n + j], run.batches[n + j];
    HeightAndConfig(run, c, notes, n + j);
    forall i | 0 <= i < |txs|
      ensures !Affected(s, Accepted(s, txs[..i], run.verifier), txs[i], run.verifier, n, run.states[n].slots.Keys)
    {
      var tx := txs[i];
      AnchorValidExactly(run, c, notes, n + j, tx.anchor);
      if tx.antispam.QuotaLane? && SlotOf(tx.antispam.proof) in run.states[n].slots {
        RegisteredEpochs(run, c, notes, n, SlotOf(tx.antispam.proof));
      }
    }
  }

  /** Proof-of-work transactions on anchors sealed since are never affected. */
  lemma PowUnaffected(run: Run, n: nat, j: nat)
    requires run.Valid() && n + j < |run.batches|
    requires forall tx :: tx in run.batches[n + j] ==> tx.antispam.PowLane? && tx.anchor.height >= n
    ensures Unaffected(run, n, j)
  {
    hide Filter, ValidateStateless, Conflicts;
  }

  /** A restart fades: if nothing in the first 1023 checkpoints after it was affected, nothing ever is, and
      the restored ledger reports what the original would have for the rest of the run. */
  lemma RestartFades(run: Run, c: Config, notes: seq<(Commitment, u64)>, n: nat, back: Run)
    requires run.From(c, notes) && Resumes(run, n, back)
    requires forall j :: 0 <= j < |back.batches| && j < ANCHOR_WINDOW - 1 ==> Unaffected(run, n, j)
    ensures forall j :: 0 <= j < |back.batches| ==> Unaffected(run, n, j) && SameSummary(run, n, back, j)
  {
    hide Apply, Genesis, Unaffected, SameSummary, Restored;
    forall j | 0 <= j < |back.batches|
      ensures Unaffected(run, n, j)
    {
      if j >= ANCHOR_WINDOW - 1 {
        LaterUnaffected(run, c, notes, n, j);
      }
    }
    RestoreSimulates(run, c, notes, n, back, |back.batches|);
  }

  // ---------- single verdicts, right after a restart ----------

  lemma {:induction false} SlotsAfterKeys(slots: Slots, txs: seq<TxV1>, slot: Slot)
    ensures slot in SlotsAfter(slots, txs) <==> slot in slots || slot in SlotsAfter(map[], txs)
  {
    if txs == [] {
    } else {
      SlotsAfterKeys(slots, txs[..|txs| - 1], slot);
    }
  }

  /** Whatever was accepted before in the batch, a restart changes the verdict on a transaction exactly when
      its anchor is a valid one other than the current, or the current one is not valid, or reusing a
      forgotten slot not used again since was all that was wrong with it. */
  lemma RestoreVerdictExactly(s: LedgerState, accepted: seq<TxV1>, tx: TxV1, verifier: Verifier)
    ensures Verdict(Restored(s), accepted, tx, verifier) != Verdict(s, accepted, tx, verifier) <==>
              || (tx.anchor in s.anchors) != (tx.anchor == s.CurrentAnchor())
              || (tx.anchor in s.anchors && OnlyReuses(s, accepted, tx, verifier, s.slots.Keys)
                  && SlotOf(tx.antispam.proof) !in SlotsAfter(map[], accepted))
  {
    hide ValidateStateless, RootOf, NullifiersOf, SlotsAfter, Field.Interpolate;
    assert Restored(s).anchors == [s.CurrentAnchor()];
    assert Conflicts(Restored(s), accepted, tx) == Conflicts(s, accepted, tx);
    if tx.antispam.QuotaLane? {
      SlotsAfterKeys(s.slots, accepted, SlotOf(tx.antispam.proof));
    }
  }

  /** A quota transaction rejected before a restart for reusing a slot, and accepted after it. */
  lemma RestartReadmits(c: Config, notes: seq<(Commitment, u64)>, rateNullifier: Digest, y: u64, first: DigestPair,
                        second: DigestPair)
    requires GenesisValue(notes) < TWO64 && Genesis(c, notes).Ready()
    requires Less(first[0], first[1]) && Less(second[0], second[1]) && forall nf :: nf in first ==> nf !in second
    ensures var t := QuotaTx(Genesis(c, notes).CurrentAnchor(), first, 0, rateNullifier, y);
            var s := OneStep(c, notes, [t], DevVerifier).Last();
            var u := QuotaTx(s.CurrentAnchor(), second, 0, rateNullifier, y);
            Verdict(s, [], u, DevVerifier) == Some(QuotaRejected) && Verdict(Restored(s), [], u, DevVerifier) == None
  {
    hide Less, RootOf, GenesisValue, EmissionAt, Apply, QuotaTx, Genesis, Verdict;
    var t := QuotaTx(Genesis(c, notes).CurrentAnchor(), first, 0, rateNullifier, y);
    var run := OneStep(c, notes, [t], DevVerifier);
    var s := run.Last();
    FirstQuotaTx(c, notes, first, rateNullifier, y);
    AnchorValidExactly(run, c, notes, 1, s.CurrentAnchor());
    QuotaTxVerdict(s, second, 0, rateNullifier, y);
    QuotaTxVerdict(Restored(s), second, 0, rateNullifier, y);
  }
}
