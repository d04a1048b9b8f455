/** crates/consensus: the canonical commit order and replicas in lockstep. */
module Consensus {
  import opened Bytes
  import opened Counting
  import opened Interfaces
  import opened Tx
  import opened Ledger
  import opened LedgerMachine
  import opened Merkle
  import opened Emission
  import opened Runs

  function Key(tx: TxV1): Digest { tx.BindingDigest() }

  // ---------- the canonical order ----------

  predicate StrictlySorted(txs: seq<TxV1>) {
    forall i, j :: 0 <= i < j < |txs| ==> Less(Key(txs[i]), Key(txs[j]))
  }

  predicate HasKey(txs: seq<TxV1>, d: Digest) { exists i :: 0 <= i < |txs| && Key(txs[i]) == d }

  /** `tx` is the first submitted transaction with its digest. */
  ghost predicate IsFirst(submitted: seq<TxV1>, tx: TxV1) {
    exists k :: 0 <= k < |submitted| && submitted[k] == tx && !HasKey(submitted[..k], Key(tx))
  }

  /** Sorted by digest, one transaction per submitted digest, and the first one submitted. */
  ghost predicate Canonical(submitted: seq<TxV1>, ordered: seq<TxV1>) {
    && StrictlySorted(ordered)
    && (forall i :: 0 <= i < |ordered| ==> IsFirst(submitted, ordered[i]))
    && (forall i :: 0 <= i < |submitted| ==> HasKey(ordered, Key(submitted[i])))
  }

  /** `BTreeMap::entry(..).or_insert`: the entries in key order, an occupied key left alone. */
  function Insert(entries: seq<TxV1>, tx: TxV1): seq<TxV1> {
    if entries == [] then [tx]
    else
      var n := |entries| - 1;
      if Key(tx) == Key(entries[n]) then entries
      else if Less(Key(tx), Key(entries[n])) then Insert(entries[..n], tx) + [entries[n]]
      else entries + [tx]
  }

  function CommitOrder(submitted: seq<TxV1>): seq<TxV1> {
    if submitted == [] then [] else Insert(CommitOrder(submitted[..|submitted| - 1]), submitted[|submitted| - 1])
  }

  method ComputeCommitOrder(submitted: seq<TxV1>) returns (ordered: seq<TxV1>)
    ensures ordered == CommitOrder(submitted)
  {
    ordered := [];
    for i := 0 to |submitted|
      invariant ordered == CommitOrder(submitted[..i])
    {
      assert submitted[..i + 1][..i] == submitted[..i];
      ordered := Insert(ordered, submitted[i]);
    }
    assert submitted[..|submitted|] == submitted;
  }

  // ---------- inserting keeps the order and the first of each key ----------

  lemma {:induction false} InsertMembers(entries: seq<TxV1>, tx: TxV1, t: TxV1)
    ensures t in Insert(entries, tx) ==> t in entries || (t == tx && (StrictlySorted(entries) ==>
              !HasKey(entries, Key(tx))))
    ensures t in entries ==> t in Insert(entries, tx)
  {
    hide Key, Less;
    if entries == [] {
    } else {
      var n := |entries| - 1;
      assert entries == entries[..n] + [entries[n]];
      InsertMembers(entries[..n], tx, t);
      if t in Insert(entries, tx) && t !in entries {
        AbsentKey(entries, tx);
      }
    }
  }

  /** A key unlike the last one and not among the earlier ones, or above the last one, is absent. */
  lemma AbsentKey(entries: seq<TxV1>, tx: TxV1)
    requires entries != []
    requires var n := |entries| - 1;
             Key(tx) != Key(entries[n])
             && (Less(Key(tx), Key(entries[n])) ==> StrictlySorted(entries[..n]) ==> !HasKey(entries[..n], Key(tx)))
    ensures StrictlySorted(entries) ==> !HasKey(entries, Key(tx))
  {
  }

  lemma {:induction false} InsertHasKey(entries: seq<TxV1>, tx: TxV1)
    ensures HasKey(Insert(entries, tx), Key(tx))
  {
    hide Key, Less;
    if entries == [] {
      assert Key([tx][0]) == Key(tx);
    } else {
      var n := |entries| - 1;
      if Key(tx) != Key(entries[n]) && Less(Key(tx), Key(entries[n])) {
        InsertHasKey(entries[..n], tx);
        var inner := Insert(entries[..n], tx);
        var i :| 0 <= i < |inner| && Key(inner[i]) == Key(tx);
        assert (inner + [entries[n]])[i] == inner[i];
      } else if Key(tx) != Key(entries[n]) {
        assert (entries + [tx])[n + 1] == tx;
      }
    }
  }

  /** Every key of the list is below `bound`. */
  predicate AllBelow(txs: seq<TxV1>, bound: Digest) {
    forall i :: 0 <= i < |txs| ==> Less(Key(txs[i]), bound)
  }

  lemma SortedSnoc(txs: seq<TxV1>, tx: TxV1)
    ensures StrictlySorted(txs + [tx]) <==> StrictlySorted(txs) && AllBelow(txs, Key(tx))
  {
    hide Key, Less;
    var all := txs + [tx];
    assert forall i :: 0 <= i < |txs| ==> all[i] == txs[i];
    if StrictlySorted(all) {
      assert all[|txs|] == tx;
    }
  }

  lemma {:induction false} InsertSorted(entries: seq<TxV1>, tx: TxV1)
    requires StrictlySorted(entries)
    ensures StrictlySorted(Insert(entries, tx))
    ensures forall b: Digest :: AllBelow(entries, b) && Less(Key(tx), b) ==> AllBelow(Insert(entries, tx), b)
  {
    hide Key, Less;
    if entries == [] {
    } else {
      var init, last := entries[..|entries| - 1], entries[|entries| - 1];
      assert entries == init + [last];
      SortedSnoc(init, last);
      if Key(tx) != Key(last) {
        if Less(Key(tx), Key(last)) {
          InsertSorted(init, tx);
          SortedSnoc(Insert(init, tx), last);
        } else {
          LessTrichotomy(Key(tx), Key(last));
          BelowHigher(init, last, Key(tx));
          SortedSnoc(entries, tx);
        }
      }
    }
  }

  lemma BelowHigher(init: seq<TxV1>, last: TxV1, b: Digest)
    requires AllBelow(init, Key(last)) && Less(Key(last), b)
    ensures AllBelow(init + [last], b)
  {
    hide Key, Less;
    forall i | 0 <= i < |init + [last]|
      ensures Less(Key((init + [last])[i]), b)
    {
      if i < |init| {
        LessTransitive(Key(init[i]), Key(last), b);
      }
    }
  }

  lemma FirstGrows(submitted: seq<TxV1>, tx: TxV1, more: TxV1)
    requires IsFirst(submitted, tx)
    ensures IsFirst(submitted + [more], tx)
  {
    hide Key, HasKey;
    var k :| 0 <= k < |submitted| && submitted[k] == tx && !HasKey(submitted[..k], Key(tx));
    assert (submitted + [more])[k] == tx && (submitted + [more])[..k] == submitted[..k];
  }

  lemma NewIsFirst(submitted: seq<TxV1>, tx: TxV1)
    requires !HasKey(submitted, Key(tx))
    ensures IsFirst(submitted + [tx], tx)
  {
    hide Key, HasKey;
    var all := submitted + [tx];
    assert all[|submitted|] == tx && all[..|submitted|] == submitted;
  }

  /** The commit order is canonical: sorted, complete, first submission wins. */
  lemma {:induction false} CommitOrderCanonical(submitted: seq<TxV1>)
    ensures Canonical(submitted, CommitOrder(submitted))
  {
    hide Key, Less, Insert, IsFirst, HasKey, StrictlySorted;
    if submitted == [] {
      assert StrictlySorted([]) by { NoneSorted(); }
    } else {
      var init, tx := submitted[..|submitted| - 1], submitted[|submitted| - 1];
      CommitOrderCanonical(init);
      assert submitted == init + [tx];
      InsertCanonical(init, CommitOrder(init), tx);
    }
  }

  lemma NoneSorted()
    ensures StrictlySorted([])
  {
  }

  lemma InsertCanonical(submitted: seq<TxV1>, ordered: seq<TxV1>, tx: TxV1)
    requires Canonical(submitted, ordered)
    ensures Canonical(submitted + [tx], Insert(ordered, tx))
  {
    hide Key, Less, Insert, IsFirst, HasKey, StrictlySorted, AllBelow;
    var all, after := submitted + [tx], Insert(ordered, tx);
    InsertSorted(ordered, tx);
    forall i | 0 <= i < |after|
      ensures IsFirst(all, after[i])
    {
      InsertMembers(ordered, tx, after[i]);
      if after[i] in ordered {
        FirstGrows(submitted, after[i], tx);
      } else {
        NotSubmitted(submitted, ordered, tx);
        NewIsFirst(submitted, tx);
      }
    }
    forall i | 0 <= i < |all|
      ensures HasKey(after, Key(all[i]))
    {
      InsertHasKey(ordered, tx);
      if i < |submitted| {
        KeyKept(ordered, tx, Key(submitted[i]));
      }
    }
  }

  lemma NotSubmitted(submitted: seq<TxV1>, ordered: seq<TxV1>, tx: TxV1)
    requires Canonical(submitted, ordered) && !HasKey(ordered, Key(tx))
    ensures !HasKey(submitted, Key(tx))
  {
  }

  lemma KeyKept(entries: seq<TxV1>, tx: TxV1, d: Digest)
    requires HasKey(entries, d)
    ensures HasKey(Insert(entries, tx), d)
  {
    hide Key, Insert;
    var i :| 0 <= i < |entries| && Key(entries[i]) == d;
    InsertMembers(entries, tx, entries[i]);
    var j :| 0 <= j < |Insert(entries, tx)| && Insert(entries, tx)[j] == entries[i];
  }

  /** The same without abbreviations: ascending binding digests, every submitted digest there, and each
      committed transaction the first submitted under its digest. */
  lemma CommitOrderByDigest(submitted: seq<TxV1>)
    ensures var o := CommitOrder(submitted);
            && (forall i, j :: 0 <= i < j < |o| ==> Less(o[i].BindingDigest(), o[j].BindingDigest()))
            && (forall i :: 0 <= i < |submitted| ==> Committed(o, submitted[i].BindingDigest()))
            && (forall j :: 0 <= j < |o| ==> SubmittedFirst(submitted, o[j]))
  {
    hide CommitOrder, Less;
    CommitOrderCanonical(submitted);
    var o := CommitOrder(submitted);
    forall j | 0 <= j < |o|
      ensures SubmittedFirst(submitted, o[j])
    {
      assert IsFirst(submitted, o[j]);
      var i :| 0 <= i < |submitted| && submitted[i] == o[j] && !HasKey(submitted[..i], Key(o[j]));
      NoKeyBefore(submitted, i, Key(o[j]));
      assert IsFirstOf(submitted, o[j], i);
    }
    forall i | 0 <= i < |submitted|
      ensures Committed(o, submitted[i].BindingDigest())
    {
      assert HasKey(o, Key(submitted[i]));
      var j := PlaceOfKey(o, Key(submitted[i]));
      assert o[j].BindingDigest() == submitted[i].BindingDigest();
    }
  }

  ghost predicate Committed(o: seq<TxV1>, d: Digest) { exists j :: 0 <= j < |o| && o[j].BindingDigest() == d }

  ghost predicate SubmittedFirst(submitted: seq<TxV1>, tx: TxV1) { exists i :: IsFirstOf(submitted, tx, i) }

  /** `tx` was submitted in place i, and nothing with its digest before. */
  ghost predicate IsFirstOf(submitted: seq<TxV1>, tx: TxV1, i: int) {
    0 <= i < |submitted| && submitted[i] == tx
    && forall k :: 0 <= k < i ==> submitted[k].BindingDigest() != tx.BindingDigest()
  }

  // ---------- the canonical order is unique ----------

  lemma FirstUnique(submitted: seq<TxV1>, t: TxV1, u: TxV1)
    requires IsFirst(submitted, t) && IsFirst(submitted, u) && Key(t) == Key(u)
    ensures t == u
  {
    hide Key;
    var i :| 0 <= i < |submitted| && submitted[i] == t && !HasKey(submitted[..i], Key(t));
    var j :| 0 <= j < |submitted| && submitted[j] == u && !HasKey(submitted[..j], Key(u));
    NoKeyBefore(submitted, i, Key(t));
    NoKeyBefore(submitted, j, Key(u));
  }

  lemma NoKeyBefore(txs: seq<TxV1>, k: nat, d: Digest)
    requires k <= |txs| && !HasKey(txs[..k], d)
    ensures forall i :: 0 <= i < k ==> Key(txs[i]) != d
  {
  }

  ghost predicate SameKeys(a: seq<TxV1>, b: seq<TxV1>) {
    && (forall i :: 0 <= i < |a| ==> HasKey(b, Key(a[i])))
    && (forall i :: 0 <= i < |b| ==> HasKey(a, Key(b[i])))
  }

  /** Strictly sorted lists with the same keys end in the same key. */
  lemma LastKeys(a: seq<TxV1>, b: seq<TxV1>)
    requires a != [] && b != [] && StrictlySorted(a) && StrictlySorted(b) && SameKeys(a, b)
    ensures Key(a[|a| - 1]) == Key(b[|b| - 1])
  {
    hide Key, Less;
    var x, y := a[|a| - 1], b[|b| - 1];
    assert HasKey(b, Key(x)) && HasKey(a, Key(y));
    var i :| 0 <= i < |b| && Key(b[i]) == Key(x);
    var j :| 0 <= j < |a| && Key(a[j]) == Key(y);
    if Key(x) != Key(y) {
      assert Less(Key(x), Key(y)) && Less(Key(y), Key(x));
      LessTrichotomy(Key(x), Key(y));
    }
  }

  lemma SameKeysInit(a: seq<TxV1>, b: seq<TxV1>)
    requires a != [] && b != [] && StrictlySorted(a) && SameKeys(a, b) && Key(a[|a| - 1]) == Key(b[|b| - 1])
    ensures forall i :: 0 <= i < |a| - 1 ==> HasKey(b[..|b| - 1], Key(a[i]))
  {
    hide Key, Less;
    forall i | 0 <= i < |a| - 1
      ensures HasKey(b[..|b| - 1], Key(a[i]))
    {
      assert HasKey(b, Key(a[i]));
      var j :| 0 <= j < |b| && Key(b[j]) == Key(a[i]);
      assert Less(Key(a[i]), Key(a[|a| - 1]));
      LessTrichotomy(Key(a[i]), Key(a[|a| - 1]));
      assert b[..|b| - 1][j] == b[j];
    }
  }

  lemma EmptyTogether(a: seq<TxV1>, b: seq<TxV1>)
    requires forall i :: 0 <= i < |b| ==> HasKey(a, Key(b[i]))
    ensures b != [] ==> a != []
  {
    hide Key;
    if b != [] {
      assert HasKey(a, Key(b[0]));
    }
  }

  lemma {:induction false} SortedKeysEqual(a: seq<TxV1>, b: seq<TxV1>)
    requires StrictlySorted(a) && StrictlySorted(b) && SameKeys(a, b)
    ensures |a| == |b| && forall i :: 0 <= i < |a| ==> Key(a[i]) == Key(b[i])
  {
    hide Key, Less;
    EmptyTogether(a, b);
    EmptyTogether(b, a);
    if a == [] {
    } else {
      LastKeys(a, b);
      SameKeysInit(a, b);
      SameKeysInit(b, a);
      SortedKeysEqual(a[..|a| - 1], b[..|b| - 1]);
      forall i | 0 <= i < |a|
        ensures Key(a[i]) == Key(b[i])
      {
        if i < |a| - 1 {
          assert a[..|a| - 1][i] == a[i] && b[..|b| - 1][i] == b[i];
        }
      }
    }
  }

  lemma KeyCovered(submitted: seq<TxV1>, a: seq<TxV1>, b: seq<TxV1>)
    requires Canonical(submitted, a) && Canonical(submitted, b)
    ensures forall i :: 0 <= i < |a| ==> HasKey(b, Key(a[i]))
  {
  }

  lemma CanonicalUnique(submitted: seq<TxV1>, a: seq<TxV1>, b: seq<TxV1>)
    requires Canonical(submitted, a) && Canonical(submitted, b)
    ensures a == b
  {
    hide Key, StrictlySorted, HasKey, IsFirst;
    KeyCovered(submitted, a, b);
    KeyCovered(submitted, b, a);
    SortedKeysEqual(a, b);
    forall i | 0 <= i < |a|
      ensures a[i] == b[i]
    {
      FirstUnique(submitted, a[i], b[i]);
    }
  }

  // ---------- idempotence and independence of submission order ----------

  lemma SortedFirst(txs: seq<TxV1>, i: nat)
    requires StrictlySorted(txs) && i < |txs|
    ensures IsFirst(txs, txs[i]) && HasKey(txs, Key(txs[i]))
  {
    hide Key, Less;
    if HasKey(txs[..i], Key(txs[i])) {
      var j :| 0 <= j < i && Key(txs[..i][j]) == Key(txs[i]);
      assert Less(Key(txs[j]), Key(txs[i]));
      LessTrichotomy(Key(txs[j]), Key(txs[i]));
    }
  }

  lemma CommitOrderIdempotent(submitted: seq<TxV1>)
    ensures CommitOrder(CommitOrder(submitted)) == CommitOrder(submitted)
  {
    hide Key, StrictlySorted, HasKey, IsFirst, CommitOrder;
    var o := CommitOrder(submitted);
    CommitOrderCanonical(submitted);
    forall i | 0 <= i < |o|
      ensures IsFirst(o, o[i]) && HasKey(o, Key(o[i]))
    {
      SortedFirst(o, i);
    }
    assert Canonical(o, o);
    CommitOrderCanonical(o);
    CanonicalUnique(o, CommitOrder(o), o);
  }

  /** No two different submitted transactions share a binding digest. */
  ghost predicate KeysDetermine(txs: seq<TxV1>) {
    forall t, u :: t in txs && u in txs && Key(t) == Key(u) ==> t == u
  }

  lemma FirstByKey(txs: seq<TxV1>, tx: TxV1, d: Digest)
    requires KeysDetermine(txs) && tx in txs && d == Key(tx)
    ensures IsFirst(txs, tx)
  {
    hide Key;
    var i :| 0 <= i < |txs| && txs[i] == tx;
    var k := LeastWithKey(txs, d, i);
    assert txs[k] in txs;
  }

  lemma {:induction false} LeastWithKey(txs: seq<TxV1>, d: Digest, i: nat) returns (k: nat)
    requires i < |txs| && Key(txs[i]) == d
    ensures k <= i && Key(txs[k]) == d && !HasKey(txs[..k], d)
  {
    hide Key;
    if HasKey(txs[..i], d) {
      var j :| 0 <= j < i && Key(txs[..i][j]) == d;
      k := LeastWithKey(txs, d, j);
    } else {
      k := i;
    }
  }

  /** The commit order does not depend on the order of submission. */
  lemma CommitOrderPermutes(a: seq<TxV1>, b: seq<TxV1>)
    requires multiset(a) == multiset(b) && KeysDetermine(a)
    ensures CommitOrder(a) == CommitOrder(b)
  {
    hide Key, StrictlySorted, HasKey, CommitOrder;
    assert forall t :: (t in a <==> t in multiset(a)) && (t in b <==> t in multiset(b));
    var o := CommitOrder(b);
    CommitOrderCanonical(a);
    CommitOrderCanonical(b);
    forall i | 0 <= i < |o|
      ensures IsFirst(a, o[i])
    {
      assert IsFirst(b, o[i]);
      var k :| 0 <= k < |b| && b[k] == o[i] && !HasKey(b[..k], Key(o[i]));
      assert b[k] in b;
      FirstByKey(a, o[i], Key(o[i]));
    }
    forall i | 0 <= i < |a|
      ensures HasKey(o, Key(a[i]))
    {
      assert a[i] in b;
      var k :| 0 <= k < |b| && b[k] == a[i];
    }
    CanonicalUnique(a, CommitOrder(a), o);
  }

  lemma FrontMoves(txs: seq<TxV1>, i: nat) returns (front: seq<TxV1>)
    requires i < |txs|
    ensures front != [] && front[0] == txs[i] && multiset(front) == multiset(txs)
  {
    front := [txs[i]] + (txs[..i] + txs[i + 1..]);
    RemoveOne(txs, i);
  }

  /** The first submitted transaction is always committed. */
  lemma FirstCommitted(txs: seq<TxV1>)
    requires txs != []
    ensures txs[0] in CommitOrder(txs)
  {
    hide Key, HasKey, StrictlySorted, CommitOrder;
    CommitOrderCanonical(txs);
    var o := CommitOrder(txs);
    assert HasKey(o, Key(txs[0]));
    HeadIsFirst(txs);
    var i := PlaceOfKey(o, Key(txs[0]));
    FirstUnique(txs, txs[0], o[i]);
  }

  lemma HeadIsFirst(txs: seq<TxV1>)
    requires txs != []
    ensures IsFirst(txs, txs[0])
  {
  }

  lemma PlaceOfKey(txs: seq<TxV1>, d: Digest) returns (i: nat)
    requires HasKey(txs, d)
    ensures i < |txs| && Key(txs[i]) == d
  {
    hide Key;
    i :| 0 <= i < |txs| && Key(txs[i]) == d;
  }

  lemma OnePerKey(txs: seq<TxV1>, t: TxV1, u: TxV1)
    requires StrictlySorted(txs) && t in txs && u in txs && Key(t) == Key(u)
    ensures t == u
  {
    hide Key, Less;
    var i :| 0 <= i < |txs| && txs[i] == t;
    var j :| 0 <= j < |txs| && txs[j] == u;
    LessTrichotomy(Key(t), Key(u));
  }

  /** Every permutation of the submitted transactions is committed in the same order. */
  ghost predicate OrderIrrelevant(txs: seq<TxV1>) {
    forall other :: multiset(other) == multiset(txs) ==> CommitOrder(other) == CommitOrder(txs)
  }

  /** Submission order is irrelevant exactly when no two different submitted transactions share a digest;
      the digest covers neither the proof nor the anti-spam body. */
  lemma OrderIrrelevantExactly(txs: seq<TxV1>)
    ensures KeysDetermine(txs) <==> OrderIrrelevant(txs)
  {
    hide Key, HasKey, StrictlySorted, CommitOrder, IsFirst;
    if KeysDetermine(txs) {
      forall other | multiset(other) == multiset(txs)
        ensures CommitOrder(other) == CommitOrder(txs)
      {
        CommitOrderPermutes(txs, other);
      }
    }
    if OrderIrrelevant(txs) {
      forall t, u | t in txs && u in txs && Key(t) == Key(u)
        ensures t == u
      {
        var i :| 0 <= i < |txs| && txs[i] == t;
        var j :| 0 <= j < |txs| && txs[j] == u;
        var a := FrontMoves(txs, i);
        var b := FrontMoves(txs, j);
        FirstCommitted(a);
        FirstCommitted(b);
        CommitOrderCanonical(txs);
        OnePerKey(CommitOrder(txs), t, u);
      }
    }
  }

  /** The digest leaves the proof out, so of two transactions that differ there only the first submitted
      is committed, and submission order decides which. */
  lemma OrderMatters(t: TxV1, proof: seq<byte>)
    requires proof != t.proof
    ensures var u := t.(proof := proof);
            && Key(t) == Key(u) && CommitOrder([t, u]) == [t] && CommitOrder([u, t]) == [u]
            && CommitOrder([t, u]) != CommitOrder([u, t])
  {
    var u := t.(proof := proof);
    SecondIgnored(t, u);
    SecondIgnored(u, t);
  }

  lemma SecondIgnored(t: TxV1, u: TxV1)
    requires Key(t) == Key(u)
    ensures CommitOrder([t, u]) == [t]
  {
    hide Key;
    assert [t, u][..1] == [t] && [t][..0] == [] && CommitOrder([]) == [];
    assert CommitOrder([t]) == Insert([], t) == [t];
  }

  // ---------- replicas ----------

  datatype RoundOutcome = RoundOutcome(
    height: u64,
    root: Digest,
    accepted: nat,
    rejected: seq<(nat, RejectReason)>,
    totalSupply: u64,
    agreed: bool)

  /** Do two summaries match in everything `commit_round` compares? */
  predicate Matches(a: CheckpointSummary, b: CheckpointSummary) {
    a.anchor.root == b.anchor.root && a.accepted == b.accepted && a.totalSupply == b.totalSupply && a.height == b.height
  }

  method AllMatch(summaries: seq<CheckpointSummary>) returns (agreed: bool)
    requires summaries != []
    ensures agreed <==> forall i :: 0 <= i < |summaries| ==> Matches(summaries[i], summaries[0])
  {
    agreed := true;
    for i := 0 to |summaries|
      invariant agreed <==> forall j :: 0 <= j < i ==> Matches(summaries[j], summaries[0])
    {
      agreed := agreed && Matches(summaries[i], summaries[0]);
    }
  }

  class Cluster {
    var replicas: seq<LedgerObject>
    const genesisSupply: nat

    /** Replicas are valid and share no mutable part. */
    ghost predicate Valid()
      reads this, replicas, set r | r in replicas :: r.tree
    {
      && (forall r :: r in replicas ==> r.Valid())
      && forall i, j :: 0 <= i < j < |replicas| ==>
           && replicas[i] != replicas[j]
           && replicas[i].tree != replicas[j].tree && replicas[i].quota != replicas[j].quota
    }

    /** All replicas hold this state. */
    ghost predicate AllAt(s: LedgerState)
      reads this, replicas, set r | r in replicas :: r.tree, set r | r in replicas :: r.quota
    {
      forall i :: 0 <= i < |replicas| ==> replicas[i].State() == s
    }

    constructor (n: nat, c: Config, notes: seq<(Commitment, u64)>)
      requires GenesisValue(notes) < TWO64
      ensures Valid() && |replicas| == n && AllAt(Genesis(c, notes)) && genesisSupply == GenesisValue(notes)
      ensures forall r :: r in replicas ==> r.config == c && fresh(r) && fresh(r.tree) && fresh(r.quota)
    {
      hide Genesis;
      genesisSupply := GenesisValue(notes);
      var made: seq<LedgerObject> := [];
      for i := 0 to n
        invariant |made| == i
        invariant forall r :: r in made ==> r.Valid() && r.config == c && fresh(r) && fresh(r.tree) && fresh(r.quota)
        invariant forall j :: 0 <= j < i ==> made[j].State() == Genesis(c, notes)
        invariant forall j, k :: 0 <= j < k < i ==>
                    made[j] != made[k] && made[j].tree != made[k].tree && made[j].quota != made[k].quota
      {
        var r := new LedgerObject(c, notes);
        made := made + [r];
      }
      replicas := made;
    }

    /** The replicas hold these states, one each. */
    ghost predicate At(states: seq<LedgerState>)
      reads this, replicas, set r | r in replicas :: r.tree, set r | r in replicas :: r.quota
    {
      |states| == |replicas| && forall i :: 0 <= i < |replicas| ==> replicas[i].State() == states[i]
    }

    /** One replica takes the batch; the others share nothing with it and stay. */
    method ApplyOne(i: nat, ordered: seq<TxV1>, verifier: Verifier, ghost states: seq<LedgerState>)
      returns (summary: CheckpointSummary)
      requires Valid() && At(states) && i < |replicas| && states[i].Ready()
      modifies replicas[i], replicas[i].tree, replicas[i].quota
      ensures Valid() && At(states[i := Apply(states[i], ordered, verifier)])
      ensures summary == Summarize(states[i], ordered, verifier)
    {
      hide Apply, Summarize;
      summary := replicas[i].ApplyCheckpoint(ordered, verifier);
    }

    /** The loop over the replicas. */
    method ApplyAll(ordered: seq<TxV1>, verifier: Verifier, ghost states: seq<LedgerState>)
      returns (summaries: seq<CheckpointSummary>)
      requires Valid() && At(states) && forall i :: 0 <= i < |states| ==> states[i].Ready()
      modifies replicas, set r | r in replicas :: r.tree, set r | r in replicas :: r.quota
      ensures Valid() && replicas == old(replicas) && |summaries| == |replicas|
      ensures forall i :: 0 <= i < |replicas| ==> replicas[i].State() == Apply(states[i], ordered, verifier)
      ensures forall i :: 0 <= i < |summaries| ==> summaries[i] == Summarize(states[i], ordered, verifier)
    {
      hide Apply, Summarize;
      summaries := [];
      ghost var now := states;
      for i := 0 to |replicas|
        invariant Valid() && At(now) && |summaries| == i
        invariant forall j :: 0 <= j < |now| ==>
                    now[j] == if j < i then Apply(states[j], ordered, verifier) else states[j]
        invariant forall j :: 0 <= j < i ==> summaries[j] == Summarize(states[j], ordered, verifier)
      {
        var summary := ApplyOne(i, ordered, verifier, now);
        now := now[i := Apply(states[i], ordered, verifier)];
        summaries := summaries + [summary];
      }
    }

    /** Whatever states the replicas are in, each moves on by the canonical batch, and the round reports
        agreement exactly when all summaries match the first in root, count, supply and height. */
    method CommitRound(submitted: seq<TxV1>, verifier: Verifier, ghost states: seq<LedgerState>)
      returns (outcome: RoundOutcome)
      requires Valid() && replicas != [] && At(states) && forall i :: 0 <= i < |states| ==> states[i].Ready()
      modifies replicas, set r | r in replicas :: r.tree, set r | r in replicas :: r.quota
      ensures Valid() && replicas == old(replicas)
      ensures forall i :: 0 <= i < |replicas| ==>
                replicas[i].State() == Apply(states[i], CommitOrder(submitted), verifier)
      ensures outcome.agreed <==>
                forall i :: 0 <= i < |states| ==>
                  var a, b := Summarize(states[i], CommitOrder(submitted), verifier),
                    Summarize(states[0], CommitOrder(submitted), verifier);
                  && a.anchor.root == b.anchor.root && a.accepted == b.accepted
                  && a.totalSupply == b.totalSupply && a.height == b.height
      ensures var summary := Summarize(states[0], CommitOrder(submitted), verifier);
              && outcome.height == summary.height && outcome.root == summary.anchor.root
              && outcome.accepted == summary.accepted && outcome.rejected == summary.rejected
              && outcome.totalSupply == summary.totalSupply
    {
      hide Apply, Summarize, CommitOrder;
      var ordered := ComputeCommitOrder(submitted);
      var summaries := ApplyAll(ordered, verifier, states);
      var first := summaries[0];
      var agreed := AllMatch(summaries);
      outcome := RoundOutcome(first.height, first.anchor.root, first.accepted, first.rejected, first.totalSupply,
                              agreed);
    }

    /** A round of replicas in one state: they end in one state, and the round reports agreement on it. */
    method CommitTogether(submitted: seq<TxV1>, verifier: Verifier, ghost s: LedgerState)
      returns (outcome: RoundOutcome)
      requires Valid() && replicas != [] && AllAt(s) && s.Ready()
      modifies replicas, set r | r in replicas :: r.tree, set r | r in replicas :: r.quota
      ensures Valid() && replicas == old(replicas)
      ensures AllAt(Apply(s, CommitOrder(submitted), verifier))
      ensures outcome.agreed
      ensures var summary := Summarize(s, CommitOrder(submitted), verifier);
              && outcome.height == summary.height && outcome.root == summary.anchor.root
              && outcome.accepted == summary.accepted && outcome.rejected == summary.rejected
              && outcome.totalSupply == summary.totalSupply
    {
      hide Apply, Summarize, CommitOrder;
      outcome := CommitRound(submitted, verifier, seq(|replicas|, _ => s));
    }

    /** `audit`: every replica's supply audit holds. */
    method Audit() returns (ok: bool)
      requires genesisSupply < TWO64 && forall j :: 0 <= j < |replicas| ==> replicas[j].config.Valid()
      ensures ok <==> forall j :: 0 <= j < |replicas| ==>
                replicas[j].config.Valid()
                && Audits(replicas[j].config.emission, genesisSupply, replicas[j].height, replicas[j].supply)
    {
      hide EmittedBy;
      ok := true;
      for i := 0 to |replicas|
        invariant ok <==> forall j :: 0 <= j < i ==>
                    Audits(replicas[j].config.emission, genesisSupply, replicas[j].height, replicas[j].supply)
      {
        var one := replicas[i].AuditSupply(genesisSupply);
        ok := ok && one;
      }
    }
  }

  /** What one round reported is the run's next state. */
  ghost predicate Reports(outcome: RoundOutcome, s: LedgerState) {
    outcome.agreed && outcome.height == s.height && outcome.totalSupply == s.supply && outcome.root == RootOf(s.leaves)
  }

  lemma SummaryReports(run: Run, i: nat)
    requires run.Valid() && run.restarts == {} && i < |run.batches|
    ensures run.states[i].Ready() && run.states[i + 1] == Apply(run.states[i], run.batches[i], run.verifier)
    ensures var summary, s := Summarize(run.states[i], run.batches[i], run.verifier), run.states[i + 1];
            && summary.height == s.height && summary.totalSupply == s.supply && summary.anchor.root == RootOf(s.leaves)
  {
    hide Apply, RootOf, EmissionAt, Filter, CommitmentsOf, Rewards;
    assert run.Steps(i);
  }

  /** Any number of replicas through any sequence of rounds: all end in the same full state, that of the one
      run of the canonical batches, every round agrees and reports it, and the final audit says exactly
      whether the weights ever let rewards out. */
  method ClusterRun(n: nat, c: Config, notes: seq<(Commitment, u64)>, rounds: seq<seq<TxV1>>, verifier: Verifier,
                    ghost run: Run)
    returns (cluster: Cluster, outcomes: seq<RoundOutcome>, audited: bool)
    requires n >= 1 && run.From(c, notes) && run.restarts == {}
    requires run.verifier == verifier && |run.batches| == |rounds|
    requires forall i :: 0 <= i < |rounds| ==> run.batches[i] == CommitOrder(rounds[i])
    ensures cluster.Valid() && |cluster.replicas| == n && cluster.AllAt(run.Last())
    ensures |outcomes| == |rounds| && forall i :: 0 <= i < |rounds| ==> Reports(outcomes[i], run.states[i + 1])
    ensures audited <==> Sum(c.Weights()) > 0 || EmittedBy(c.emission, |rounds|) % TWO64 == 0
  {
    hide Apply, Summarize, CommitOrder, RootOf, Genesis, EmittedBy, Sum;
    cluster := new Cluster(n, c, notes);
    outcomes := [];
    for i := 0 to |rounds|
      invariant cluster.Valid() && |cluster.replicas| == n && cluster.AllAt(run.states[i])
      invariant forall r :: r in cluster.replicas ==>
                  r.config == c && fresh(r) && fresh(r.tree) && fresh(r.quota)
      invariant |outcomes| == i && forall j :: 0 <= j < i ==> Reports(outcomes[j], run.states[j + 1])
    {
      SummaryReports(run, i);
      var outcome := cluster.CommitTogether(rounds[i], verifier, run.states[i]);
      outcomes := outcomes + [outcome];
    }
    AuditExactly(run, c, notes);
    HeightAndConfig(run, c, notes, |rounds|);
    audited := cluster.Audit();
    assert cluster.replicas[0].State() == run.Last();
  }
}
