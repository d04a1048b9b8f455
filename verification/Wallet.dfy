/** crates/wallet: choosing inputs and building a transfer that the ledger will accept. */
module Wallet {
  import opened Arithmetic
  import opened Bytes
  import opened Counting
  import opened Hashing
  import opened Interfaces
  import opened Notes
  import opened Merkle
  import opened Sorting
  import opened Tx
  import opened Prover
  import opened Ledger
  import opened Runs
  import opened Book

  datatype NoteRecord = NoteRecord(note: Note, position: u64)

  datatype WalletError =
    | InsufficientFunds(have: int, need: int) | TooManyInputsNeeded
    | MissingWitness(position: u64) | ProveFailed(v: Violation)

  /** The part of an address the transfer itself uses, and its encryption keys. */
  datatype Address = Address(addrTag: Digest, keys: seq<byte>)

  type Ciphertext = c: seq<byte> | |c| == 1273 witness Zeros(1273)

  /** Note encryption and address derivation are uninterpreted: any functions of these types. */
  const EncryptNote: (Note, Address, Digest) -> Ciphertext
  const OwnAddress: SpendingKey -> Address

  function Value(records: seq<NoteRecord>): nat {
    if records == [] then 0 else Value(records[..|records| - 1]) + records[|records| - 1].note.value
  }

  // ---------- the largest notes first ----------

  /** The stable sort by decreasing value. */
  function SortRecords(records: seq<NoteRecord>): seq<NoteRecord> {
    Sort((x: NoteRecord, y: NoteRecord) => x.note.value > y.note.value, records)
  }

  lemma SortedRecords(records: seq<NoteRecord>)
    ensures var sorted := SortRecords(records);
            && |sorted| == |records| && multiset(sorted) == multiset(records)
            && forall i, j :: 0 <= i < j < |sorted| ==> sorted[i].note.value >= sorted[j].note.value
  {
    var before := (x: NoteRecord, y: NoteRecord) => x.note.value > y.note.value;
    SortSorts(before, records);
    var sorted := SortRecords(records);
    assert sorted == Sort(before, records);
    forall i, j | 0 <= i < j < |sorted|
      ensures sorted[i].note.value >= sorted[j].note.value
    {
      assert !before(sorted[j], sorted[i]);
    }
  }

  /** Some choice of at most two notes is worth `amount`. */
  ghost predicate Coverable(records: seq<NoteRecord>, amount: int) {
    || amount <= 0
    || (exists i :: 0 <= i < |records| && records[i].note.value >= amount)
    || (exists i, j :: 0 <= i < j < |records| && records[i].note.value + records[j].note.value >= amount)
  }

  /** The first two of the sorted list are worth at least any other two. */
  lemma TopTwo(records: seq<NoteRecord>, i: nat, j: nat)
    requires i < j < |records|
    ensures var top := SortRecords(records);
            |top| >= 2 && records[i].note.value + records[j].note.value <= top[0].note.value + top[1].note.value
  {
    hide SortRecords;
    var top := SortRecords(records);
    SortedRecords(records);
    var p, q := TwoPlaces(records, top, i, j);
    assert p > 0 ==> top[0].note.value >= top[p].note.value;
    assert q > 0 ==> top[0].note.value >= top[q].note.value;
    assert p > 1 ==> top[1].note.value >= top[p].note.value;
    assert q > 1 ==> top[1].note.value >= top[q].note.value;
  }

  // ---------- selection ----------

  /** One record, or two records from different places; none only for a zero amount. */
  ghost predicate Chosen(records: seq<NoteRecord>, selected: seq<NoteRecord>) {
    || selected == []
    || (exists i :: 0 <= i < |records| && selected == [records[i]])
    || (exists i, j :: 0 <= i < |records| && 0 <= j < |records| && i != j && selected == [records[i], records[j]])
  }

  /** There are notes, and each alone is worth less than the amount. */
  predicate NeedsTwo(records: seq<NoteRecord>, amount: int) {
    records != [] && forall i :: 0 <= i < |records| ==> records[i].note.value < amount
  }

  /** No earlier record covers the amount with as little. */
  ghost predicate FirstCovering(records: seq<NoteRecord>, amount: int, i: nat)
    requires i < |records|
  {
    && records[i].note.value >= amount
    && forall m :: 0 <= m < i ==> records[m].note.value < amount || records[m].note.value > records[i].note.value
  }

  /** The index of the least valued record covering the amount, first among equals, or the length. */
  method SmallestCovering(records: seq<NoteRecord>, amount: u64) returns (best: nat)
    ensures best <= |records|
    ensures best == |records| ==> forall i :: 0 <= i < |records| ==> records[i].note.value < amount
    ensures best < |records| ==> records[best].note.value >= amount
    ensures best < |records| ==> forall i :: 0 <= i < |records| && records[i].note.value >= amount ==>
              records[best].note.value < records[i].note.value
              || (records[best].note.value == records[i].note.value && best <= i)
  {
    best := |records|;
    for k := 0 to |records|
      invariant best < k || best == |records|
      invariant best == |records| ==> forall i :: 0 <= i < k ==> records[i].note.value < amount
      invariant best < |records| ==> records[best].note.value >= amount
      invariant best < |records| ==> forall i :: 0 <= i < k && records[i].note.value >= amount ==>
                  records[best].note.value < records[i].note.value
                  || (records[best].note.value == records[i].note.value && best <= i)
    {
      if records[k].note.value >= amount && (best == |records| || records[k].note.value < records[best].note.value) {
        best := k;
      }
    }
  }

  method SelectInputs(records: seq<NoteRecord>, amount: u64) returns (r: Result<seq<NoteRecord>, WalletError>)
    ensures Value(records) < amount <==> r == Err(InsufficientFunds(Value(records), amount))
    ensures Value(records) >= amount && !Coverable(records, amount) <==> r == Err(TooManyInputsNeeded)
    ensures r.Err? ==> r == Err(InsufficientFunds(Value(records), amount)) || r == Err(TooManyInputsNeeded)
    ensures r.Ok? ==> Chosen(records, r.value) && Value(r.value) >= amount
    ensures r.Ok? && |r.value| == 2 ==> r.value[0].note.value < amount && r.value[1].note.value < amount
    ensures r.Ok? ==> (|r.value| == 2 <==> NeedsTwo(records, amount)) && (r.value == [] <==> records == [])
    ensures r.Ok? && |r.value| == 1 ==>
              forall i :: 0 <= i < |records| && records[i].note.value >= amount ==>
                r.value[0].note.value <= records[i].note.value
    ensures r.Ok? && |r.value| == 2 ==>
              forall i, j :: 0 <= i < j < |records| ==>
                records[i].note.value + records[j].note.value <= Value(r.value)
    ensures r.Ok? && |r.value| == 2 ==> r.value[0].note.value >= r.value[1].note.value
    ensures r.Ok? && |r.value| == 1 ==>
              exists i :: 0 <= i < |records| && r.value == [records[i]] && FirstCovering(records, amount, i)
  {
    hide SortRecords, Value;
    var total := Balance(records);
    if total < amount {
      return Err(InsufficientFunds(total, amount));
    }
    var best := SmallestCovering(records, amount);
    if best < |records| {
      ValueOfOne(records[best]);
      assert FirstCovering(records, amount, best);
      return Ok([records[best]]);
    }
    var sorted := SortRecords(records);
    SortedRecords(records);
    var pair := sorted[..if |sorted| < TX_INPUTS then |sorted| else TX_INPUTS];
    var worth := Balance(pair);
    PairChosen(records, sorted, pair, amount);
    if worth < amount {
      return Err(TooManyInputsNeeded);
    }
    r := Ok(pair);
  }

  method Balance(records: seq<NoteRecord>) returns (sum: nat)
    ensures sum == Value(records)
  {
    sum := 0;
    for i := 0 to |records|
      invariant sum == Value(records[..i])
    {
      assert records[..i + 1][..i] == records[..i];
      sum := sum + records[i].note.value;
    }
    assert records[..|records|] == records;
  }

  lemma ValueOfOne(r: NoteRecord)
    ensures Value([r]) == r.note.value
  {
  }

  lemma ValueOfTwo(a: NoteRecord, b: NoteRecord)
    ensures Value([a, b]) == a.note.value + b.note.value
  {
    ValueOfOne(a);
    assert [a, b][..1] == [a];
  }

  /** When no single note covers the amount, the two largest cover it exactly if some pair does. */
  lemma PairChosen(records: seq<NoteRecord>, sorted: seq<NoteRecord>, pair: seq<NoteRecord>, amount: u64)
    requires sorted == SortRecords(records) && pair == sorted[..if |sorted| < 2 then |sorted| else 2]
    requires forall i :: 0 <= i < |records| ==> records[i].note.value < amount
    requires Value(records) >= amount
    ensures Chosen(records, pair)
    ensures Value(pair) >= amount <==> Coverable(records, amount)
    ensures |pair| == 2 ==> pair[0].note.value < amount && pair[1].note.value < amount
    ensures |pair| == 1 ==> Value(pair) < amount
    ensures |pair| == 2 <==> records != []
    ensures |pair| == 2 ==>
              forall i, j :: 0 <= i < j < |records| ==> records[i].note.value + records[j].note.value <= Value(pair)
  {
    hide SortRecords, Value;
    SortedRecords(records);
    if |sorted| >= 2 {
      var p, q := TwoPlaces(sorted, records, 0, 1);
      assert pair == [sorted[0], sorted[1]] == [records[p], records[q]];
      ValueOfTwo(sorted[0], sorted[1]);
      forall i, j | 0 <= i < j < |records|
        ensures records[i].note.value + records[j].note.value <= Value(pair)
      {
        TopTwo(records, i, j);
      }
      if Value(pair) >= amount {
        assert p < q || q < p;
      }
    } else {
      FewNotes(records, amount);
      assert pair == [] && Value([]) == 0 by { NoValue(); }
    }
  }

  lemma NoValue()
    ensures Value([]) == 0
  {
  }

  lemma FewNotes(records: seq<NoteRecord>, amount: u64)
    requires |records| < 2
    ensures Value(records) >= amount && (forall i :: 0 <= i < |records| ==> records[i].note.value < amount) ==>
              records == [] && amount == 0
  {
  }

  // ---------- spent notes ----------

  /** The records whose nullifier is not among the seen ones, in order. */
  function Kept(nk: Digest, records: seq<NoteRecord>, seen: set<Nullifier>): seq<NoteRecord> {
    if records == [] then []
    else
      var last := records[|records| - 1];
      Kept(nk, records[..|records| - 1], seen) + if last.note.Nullifier(nk) in seen then [] else [last]
  }

  /** Exactly the records with unseen nullifiers remain. */
  lemma {:induction false} KeptExactly(nk: Digest, records: seq<NoteRecord>, seen: set<Nullifier>, r: NoteRecord)
    ensures r in Kept(nk, records, seen) <==> r in records && r.note.Nullifier(nk) !in seen
  {
    hide HashParts;
    if records == [] {
    } else {
      var n := |records| - 1;
      assert records == records[..n] + [records[n]];
      KeptExactly(nk, records[..n], seen, r);
    }
  }

  /** Observing checkpoints one after the other leaves what observing them together leaves. */
  lemma {:induction false} KeptComposes(nk: Digest, records: seq<NoteRecord>, a: set<Nullifier>, b: set<Nullifier>)
    ensures Kept(nk, Kept(nk, records, a), a + b) == Kept(nk, records, a + b)
  {
    hide HashParts;
    if records == [] {
    } else {
      var init, last := records[..|records| - 1], records[|records| - 1];
      KeptComposes(nk, init, a, b);
      if last.note.Nullifier(nk) !in a {
        var k := Kept(nk, init, a);
        assert (k + [last])[..|k|] == k;
      } else {
        assert Kept(nk, init, a) + [] == Kept(nk, init, a);
      }
    }
  }

  /** The value of the records whose nullifier is among the seen ones. */
  function Dropped(nk: Digest, records: seq<NoteRecord>, seen: set<Nullifier>): nat {
    if records == [] then 0
    else
      var last := records[|records| - 1];
      Dropped(nk, records[..|records| - 1], seen) + if last.note.Nullifier(nk) in seen then last.note.value else 0
  }

  /** What is dropped and what is kept make up the balance. */
  lemma {:induction false} KeptSplits(nk: Digest, records: seq<NoteRecord>, seen: set<Nullifier>)
    ensures Value(records) == Value(Kept(nk, records, seen)) + Dropped(nk, records, seen)
  {
    hide HashParts;
    if records == [] {
    } else {
      var init, last := records[..|records| - 1], records[|records| - 1];
      KeptSplits(nk, init, seen);
      var kept := Kept(nk, init, seen);
      if last.note.Nullifier(nk) in seen {
        assert kept + [] == kept;
      } else {
        assert (kept + [last])[..|kept|] == kept;
      }
    }
  }

  lemma {:induction false} DroppedNone(nk: Digest, records: seq<NoteRecord>, seen: set<Nullifier>)
    requires forall m :: 0 <= m < |records| ==> records[m].note.Nullifier(nk) !in seen
    ensures Dropped(nk, records, seen) == 0
  {
    hide HashParts;
    if records == [] {
    } else {
      DroppedNone(nk, records[..|records| - 1], seen);
    }
  }

  lemma {:induction false} DroppedOne(nk: Digest, records: seq<NoteRecord>, seen: set<Nullifier>, i: nat)
    requires i < |records|
    requires forall m :: 0 <= m < |records| ==> (records[m].note.Nullifier(nk) in seen <==> m == i)
    ensures Dropped(nk, records, seen) == records[i].note.value
  {
    hide HashParts;
    var n := |records| - 1;
    if i == n {
      DroppedNone(nk, records[..n], seen);
    } else {
      DroppedOne(nk, records[..n], seen, i);
    }
  }

  lemma {:induction false} DroppedTwo(nk: Digest, records: seq<NoteRecord>, seen: set<Nullifier>, i: nat, j: nat)
    requires i < j < |records|
    requires forall m :: 0 <= m < |records| ==> (records[m].note.Nullifier(nk) in seen <==> m == i || m == j)
    ensures Dropped(nk, records, seen) == records[i].note.value + records[j].note.value
  {
    hide HashParts;
    var n := |records| - 1;
    if j == n {
      DroppedOne(nk, records[..n], seen, i);
    } else {
      DroppedTwo(nk, records[..n], seen, i, j);
    }
  }

  // ---------- building a transfer ----------

  type WitnessLookup = u64 -> Option<MerklePath>

  const EMPTY_PATH: MerklePath := MerklePath(0, EmptySiblings(32))

  function EmptySiblings(n: nat): (s: seq<Digest>)
    ensures |s| == n
  {
    seq(n, _ => Zeros(32))
  }

  /** The fixed entropy of the k-th dummy: 32 bytes of 0xD0 xor k. */
  function DummyEntropy(k: nat): Digest
    requires k < 2
  {
    seq(32, _ => if k == 0 then 0xD0 else 0xD1)
  }

  function DummyInput(k: nat): InputWitness
    requires k < 2
  {
    InputWitness(DummyNote(DummyEntropy(k)), EMPTY_PATH, true)
  }

  /** Every dummy among the inputs is one of the two fixed ones. */
  ghost predicate FixedDummies(inputs: seq<InputWitness>) {
    forall i :: 0 <= i < |inputs| && inputs[i].isDummy ==>
      inputs[i].note == DummyInput(0).note || inputs[i].note == DummyInput(1).note
  }

  /** Putting inputs in canonical order adds no dummies. */
  lemma FixedWhenSorted(nk: Digest, inputs: seq<InputWitness>)
    requires FixedDummies(inputs)
    ensures FixedDummies(SortInputs(nk, inputs))
  {
    hide SortInputs, DummyInput;
    SortedInputs(nk, inputs);
    var sorted := SortInputs(nk, inputs);
    forall i | 0 <= i < |sorted| && sorted[i].isDummy
      ensures sorted[i].note == DummyInput(0).note || sorted[i].note == DummyInput(1).note
    {
      var p := PlaceOf(sorted, inputs, i);
    }
  }

  lemma GatheredDummies(selected: seq<NoteRecord>, inputs: seq<InputWitness>, witnessFor: WitnessLookup)
    requires |selected| <= |inputs| == 2
    requires forall i :: 0 <= i < |selected| ==> BuiltFrom(inputs[i], selected[i], witnessFor)
    requires forall i :: |selected| <= i < 2 ==> inputs[i] == DummyInput(i - |selected|)
    ensures FixedDummies(inputs)
  {
    hide DummyInput;
    forall i | 0 <= i < |selected|
      ensures !inputs[i].isDummy
    {
      assert BuiltFrom(inputs[i], selected[i], witnessFor);
    }
  }

  /** The input built for a selected note, if its witness is known. */
  ghost predicate BuiltFrom(input: InputWitness, r: NoteRecord, witnessFor: WitnessLookup) {
    witnessFor(r.position).Some? && input == InputWitness(r.note, witnessFor(r.position).value, false)
  }

  /** Position i is the first whose witness is unknown. */
  ghost predicate FirstMissing(selected: seq<NoteRecord>, witnessFor: WitnessLookup, i: nat)
    requires i < |selected|
  {
    witnessFor(selected[i].position).None? && forall j :: 0 <= j < i ==> witnessFor(selected[j].position).Some?
  }

  method GatherInputs(selected: seq<NoteRecord>, witnessFor: WitnessLookup)
    returns (r: Result<seq<InputWitness>, WalletError>)
    requires |selected| <= TX_INPUTS
    ensures r.Err? <==> exists i :: 0 <= i < |selected| && witnessFor(selected[i].position).None?
    ensures r.Err? ==>
              exists i :: 0 <= i < |selected| && FirstMissing(selected, witnessFor, i)
                          && r.error == MissingWitness(selected[i].position)
    ensures r.Ok? ==>
              && |r.value| == TX_INPUTS
              && (forall i :: 0 <= i < |selected| ==> BuiltFrom(r.value[i], selected[i], witnessFor))
              && (forall i :: |selected| <= i < TX_INPUTS ==> r.value[i] == DummyInput(i - |selected|))
  {
    hide DummyInput;
    var inputs: seq<InputWitness> := [];
    for i := 0 to |selected|
      invariant |inputs| == i && forall j :: 0 <= j < i ==> BuiltFrom(inputs[j], selected[j], witnessFor)
    {
      var path := witnessFor(selected[i].position);
      if path.None? {
        assert FirstMissing(selected, witnessFor, i);
        return Err(MissingWitness(selected[i].position));
      }
      inputs := inputs + [InputWitness(selected[i].note, path.value, false)];
    }
    var dummies := 0;
    while |inputs| < TX_INPUTS
      invariant |inputs| == |selected| + dummies <= TX_INPUTS
      invariant forall j :: 0 <= j < |selected| ==> BuiltFrom(inputs[j], selected[j], witnessFor)
      invariant forall j :: |selected| <= j < |inputs| ==> inputs[j] == DummyInput(j - |selected|)
    {
      inputs := inputs + [DummyInput(dummies)];
      dummies := dummies + 1;
    }
    r := Ok(inputs);
  }

  function DeriveRseed(seed: Digest, index: byte): Digest { HashParts(WalletRseed, [seed, [index]]) }

  /** The payment and the change of a transfer bound to its first nullifier. */
  function TransferOutputs(sk: SpendingKey, recipient: Address, amount: u64, change: u64, first: Nullifier,
                           seed: Digest): seq<Note> {
    [Note(amount, recipient.addrTag, RhoTransfer(first, 0), DeriveRseed(seed, 0)),
     Note(change, sk.AddrTag(), RhoTransfer(first, 1), DeriveRseed(seed, 1))]
  }

  /** The notes are the wallet's own, in range, and their paths lead to the anchor. */
  ghost predicate Spendable(sk: SpendingKey, r: NoteRecord, anchor: Anchor, witnessFor: WitnessLookup) {
    && r.note.addrTag == sk.AddrTag() && r.note.value < MAX_MONEY
    && witnessFor(r.position).Some? && PathVerifies(r.note.Commitment(), witnessFor(r.position).value, anchor.root)
  }

  /** The nullifiers of the notes and of the two fixed dummies are pairwise different. */
  ghost predicate NullifiersApart(nk: Digest, records: seq<NoteRecord>) {
    && (forall i, j :: 0 <= i < j < |records| ==> records[i].note.Nullifier(nk) != records[j].note.Nullifier(nk))
    && (forall i, k :: 0 <= i < |records| && 0 <= k < 2 ==>
          records[i].note.Nullifier(nk) != DummyInput(k).note.Nullifier(nk))
    && DummyInput(0).note.Nullifier(nk) != DummyInput(1).note.Nullifier(nk)
  }

  /** The nullifiers of the two dummies, the same in every transfer of a wallet. */
  function DummyNullifier(nk: Digest, k: nat): Nullifier
    requires k < 2
  {
    DummyInput(k).note.Nullifier(nk)
  }

  /** The dummy nullifiers a transfer reveals: none from two notes, the first from one, both from none. */
  function Padding(nk: Digest, records: seq<NoteRecord>, amount: int): set<Nullifier> {
    if NeedsTwo(records, amount) then {}
    else if records != [] then {DummyNullifier(nk, 0)}
    else {DummyNullifier(nk, 0), DummyNullifier(nk, 1)}
  }

  /** These nullifiers are the padding and otherwise those of notes of the wallet. */
  ghost predicate Reveals(nk: Digest, records: seq<NoteRecord>, padding: set<Nullifier>, nfs: seq<Nullifier>) {
    && (forall nf :: nf in padding ==> nf in nfs)
    && (forall nf :: nf in nfs ==>
          nf in padding || exists i :: 0 <= i < |records| && nf == records[i].note.Nullifier(nk))
  }

  /** A transfer reveals the padding its selection calls for, and besides it only the wallet's notes; the
      first dummy is revealed exactly when fewer than two notes were selected. */
  lemma PaddingRevealed(sk: SpendingKey, records: seq<NoteRecord>, selected: seq<NoteRecord>,
                        inputs: seq<InputWitness>, witnessFor: WitnessLookup, nfs: seq<Nullifier>, amount: int)
    requires NullifiersApart(sk.Nk(), records) && Chosen(records, selected) && |inputs| == 2
    requires forall i :: 0 <= i < |selected| ==> BuiltFrom(inputs[i], selected[i], witnessFor)
    requires forall i :: |selected| <= i < 2 ==> inputs[i] == DummyInput(i - |selected|)
    requires nfs == InOrder(inputs[0].note.Nullifier(sk.Nk()), inputs[1].note.Nullifier(sk.Nk()))
    requires (|selected| == 2 <==> NeedsTwo(records, amount)) && (selected == [] <==> records == [])
    ensures Reveals(sk.Nk(), records, Padding(sk.Nk(), records, amount), nfs)
    ensures DummyNullifier(sk.Nk(), 0) in nfs <==> !NeedsTwo(records, amount)
  {
    hide HashParts, DummyInput, Less, NeedsTwo, NullifiersApart;
    var nk := sk.Nk();
    if |selected| == 0 {
      assert inputs[0] == DummyInput(0) && inputs[1] == DummyInput(1);
    } else if |selected| == 1 {
      assert inputs[1] == DummyInput(0) && BuiltFrom(inputs[0], selected[0], witnessFor);
    } else {
      var i, j :| 0 <= i < |records| && 0 <= j < |records| && i != j && selected == [records[i], records[j]];
      assert BuiltFrom(inputs[0], selected[0], witnessFor) && BuiltFrom(inputs[1], selected[1], witnessFor);
      ApartFromDummy(nk, records, i);
      ApartFromDummy(nk, records, j);
    }
  }

  /** Observing a transfer's own nullifiers takes exactly the selected value off the balance. */
  lemma SpentValue(sk: SpendingKey, records: seq<NoteRecord>, selected: seq<NoteRecord>, inputs: seq<InputWitness>,
                   witnessFor: WitnessLookup, nfs: seq<Nullifier>)
    requires NullifiersApart(sk.Nk(), records) && Chosen(records, selected) && |inputs| == 2
    requires forall i :: 0 <= i < |selected| ==> BuiltFrom(inputs[i], selected[i], witnessFor)
    requires forall i :: |selected| <= i < 2 ==> inputs[i] == DummyInput(i - |selected|)
    requires nfs == InOrder(inputs[0].note.Nullifier(sk.Nk()), inputs[1].note.Nullifier(sk.Nk()))
    ensures Value(records) == Value(Kept(sk.Nk(), records, Elements(nfs))) + Value(selected)
  {
    hide HashParts, DummyInput, Less, Value, Kept, Dropped;
    var nk, seen := sk.Nk(), Elements(nfs);
    assert seen == {inputs[0].note.Nullifier(nk), inputs[1].note.Nullifier(nk)};
    KeptSplits(nk, records, seen);
    if |selected| == 0 {
      assert inputs[0] == DummyInput(0) && inputs[1] == DummyInput(1);
      NoValue();
      DroppedNone(nk, records, seen);
    } else if |selected| == 1 {
      var i :| 0 <= i < |records| && selected == [records[i]];
      assert inputs[1] == DummyInput(0) && BuiltFrom(inputs[0], selected[0], witnessFor);
      SameNullifier(nk, records, i);
      ValueOfOne(records[i]);
      DroppedOne(nk, records, seen, i);
    } else {
      var i, j :| 0 <= i < |records| && 0 <= j < |records| && i != j && selected == [records[i], records[j]];
      assert BuiltFrom(inputs[0], selected[0], witnessFor) && BuiltFrom(inputs[1], selected[1], witnessFor);
      SameNullifier(nk, records, i);
      SameNullifier(nk, records, j);
      ValueOfTwo(records[i], records[j]);
      if i < j { DroppedTwo(nk, records, seen, i, j); } else { DroppedTwo(nk, records, seen, j, i); }
    }
  }

  lemma SameNullifier(nk: Digest, records: seq<NoteRecord>, i: nat)
    requires NullifiersApart(nk, records) && i < |records|
    ensures forall m :: 0 <= m < |records| ==>
              (records[m].note.Nullifier(nk) == records[i].note.Nullifier(nk) <==> m == i)
  {
    hide HashParts, DummyInput;
    forall m | 0 <= m < |records| && m != i
      ensures records[m].note.Nullifier(nk) != records[i].note.Nullifier(nk)
    {
      assert m < i || i < m;
    }
  }

  lemma ApartFromDummy(nk: Digest, records: seq<NoteRecord>, i: nat)
    requires NullifiersApart(nk, records) && i < |records|
    ensures records[i].note.Nullifier(nk) != DummyNullifier(nk, 0)
  {
    hide HashParts, DummyInput;
    assert records[i].note.Nullifier(nk) != DummyInput(0).note.Nullifier(nk);
  }

  /** One input meets its constraints against the anchor. */
  ghost predicate InputFits(sk: SpendingKey, input: InputWitness, anchor: Anchor) {
    && (input.isDummy ==> input.note.value == 0) && input.note.value < MAX_MONEY
    && (!input.isDummy ==>
          input.note.addrTag == sk.AddrTag() && PathVerifies(input.note.Commitment(), input.path, anchor.root))
  }

  lemma SelectedFit(sk: SpendingKey, records: seq<NoteRecord>, selected: seq<NoteRecord>, inputs: seq<InputWitness>,
                    anchor: Anchor, witnessFor: WitnessLookup)
    requires forall i :: 0 <= i < |records| ==> Spendable(sk, records[i], anchor, witnessFor)
    requires NullifiersApart(sk.Nk(), records) && Chosen(records, selected) && |inputs| == 2
    requires forall i :: 0 <= i < |selected| ==> BuiltFrom(inputs[i], selected[i], witnessFor)
    requires forall i :: |selected| <= i < 2 ==> inputs[i] == DummyInput(i - |selected|)
    ensures InputFits(sk, inputs[0], anchor) && InputFits(sk, inputs[1], anchor)
    ensures inputs[0].note.Nullifier(sk.Nk()) != inputs[1].note.Nullifier(sk.Nk())
    ensures inputs[0].note.value + inputs[1].note.value == Value(selected)
  {
    hide HashParts, PathVerifies, Value;
    assert DummyInput(0).isDummy && DummyInput(0).note.value == 0;
    assert DummyInput(1).isDummy && DummyInput(1).note.value == 0;
    if |selected| == 0 {
      NoValue();
    } else if |selected| == 1 {
      var i :| 0 <= i < |records| && selected == [records[i]];
      ValueOfOne(records[i]);
      assert Spendable(sk, records[i], anchor, witnessFor) && BuiltFrom(inputs[0], selected[0], witnessFor);
    } else {
      var i, j :| 0 <= i < |records| && 0 <= j < |records| && i != j && selected == [records[i], records[j]];
      ValueOfTwo(records[i], records[j]);
      assert Spendable(sk, records[i], anchor, witnessFor) && BuiltFrom(inputs[0], selected[0], witnessFor);
      assert Spendable(sk, records[j], anchor, witnessFor) && BuiltFrom(inputs[1], selected[1], witnessFor);
      assert i < j || j < i;
    }
  }

  /** Two different nullifiers in ascending order. */
  function InOrder(a: Nullifier, b: Nullifier): seq<Nullifier> { if Less(b, a) then [b, a] else [a, b] }

  /** Fitting inputs and balanced outputs bound to the smaller nullifier satisfy the spend statement. */
  lemma TransferHolds(sk: SpendingKey, inputs: seq<InputWitness>, recipient: Address, amount: u64, change: u64,
                      seed: Digest, anchor: Anchor, w: SpendWitness)
    requires |inputs| == 2 && InputFits(sk, inputs[0], anchor) && InputFits(sk, inputs[1], anchor)
    requires inputs[0].note.value + inputs[1].note.value == amount + change && amount < MAX_MONEY && change < MAX_MONEY
    requires var nfs := InOrder(inputs[0].note.Nullifier(sk.Nk()), inputs[1].note.Nullifier(sk.Nk()));
             w == SpendWitness(sk.Nk(), sk.AddrTag(), inputs,
                               TransferOutputs(sk, recipient, amount, change, nfs[0], seed), 0, w.bindingDigest)
    ensures var pi := PublicInputs(Canonicalize(w), anchor);
            && pi.nullifiers == InOrder(inputs[0].note.Nullifier(sk.Nk()), inputs[1].note.Nullifier(sk.Nk()))
            && SpendStatement(Canonicalize(w), pi)
  {
    hide HashParts, PathVerifies, Less, Sort, InputValue, TotalValue, RhoTransfer, DeriveRseed;
    var nk := sk.Nk();
    SortTwo((x: InputWitness, y: InputWitness) => Less(x.note.Nullifier(nk), y.note.Nullifier(nk)),
            inputs[0], inputs[1]);
    assert inputs == [inputs[0], inputs[1]];
    var c := Canonicalize(w);
    var pi := PublicInputs(c, anchor);
    assert c.inputs == [inputs[0], inputs[1]] || c.inputs == [inputs[1], inputs[0]];
    assert InputHolds(c, pi, 0) && InputHolds(c, pi, 1);
    assert OutputHolds(c, pi, 0) && OutputHolds(c, pi, 1);
    PairValue(c.inputs[0], c.inputs[1]);
    PairTotal(w.outputs[0], w.outputs[1]);
  }

  lemma OutOfRangeFails(sk: SpendingKey, recipient: Address, amount: u64, change: u64, first: Nullifier, seed: Digest,
                        w: SpendWitness, pi: SpendPublicInputs)
    requires w.outputs == TransferOutputs(sk, recipient, amount, change, first, seed) && amount >= MAX_MONEY
    ensures !SpendStatement(w, pi)
  {
    hide HashParts, PathVerifies, InputValue, TotalValue, RhoTransfer, DeriveRseed, InputHolds;
    if |pi.nullifiers| > 0 && |pi.commitments| > 0 {
      assert !OutputHolds(w, pi, 0);
    }
  }

  /** A transaction assembled from a proven transfer passes stateless validation at difficulty zero. */
  lemma AssembledValid(tx: TxV1, pi: SpendPublicInputs)
    requires tx.ToPublicInputs() == pi && tx.proof == ProofFor(pi) && tx.antispam == PowLane(0)
    requires Less(tx.nullifiers[0], tx.nullifiers[1])
    ensures ValidateStateless(tx, DevVerifier, 0).Ok?
  {
  }

  lemma InOrderIsLess(a: Nullifier, b: Nullifier)
    requires a != b
    ensures Less(InOrder(a, b)[0], InOrder(a, b)[1])
  {
    hide Less;
    LessTrichotomy(a, b);
  }

  /** The transaction pays: `pay` carries the amount under the recipient's tag and `back` returns to the own
      tag, both bound to the first nullifier and encrypted to their owners. */
  ghost predicate Pays(tx: TxV1, sk: SpendingKey, recipient: Address, amount: int, seed: Digest, pay: Note,
                       back: Note) {
    && tx.commitments == [pay.Commitment(), back.Commitment()]
    && pay.value == amount && pay.addrTag == recipient.addrTag && back.addrTag == sk.AddrTag()
    && pay.rho == RhoTransfer(tx.nullifiers[0], 0) && back.rho == RhoTransfer(tx.nullifiers[0], 1)
    && pay.rseed == HashParts(WalletRseed, [seed, [0]]) && back.rseed == HashParts(WalletRseed, [seed, [1]])
    && tx.encOutputs == [EncryptNote(pay, recipient, HashParts(WalletRseed, [seed, [10]])),
                         EncryptNote(back, OwnAddress(sk), HashParts(WalletRseed, [seed, [11]]))]
  }

  lemma PaysOut(tx: TxV1, sk: SpendingKey, recipient: Address, amount: u64, change: u64, seed: Digest,
                outputs: seq<Note>)
    requires outputs == TransferOutputs(sk, recipient, amount, change, tx.nullifiers[0], seed) && |outputs| == 2
    requires tx.commitments == [outputs[0].Commitment(), outputs[1].Commitment()]
    requires tx.encOutputs == [EncryptNote(outputs[0], recipient, DeriveRseed(seed, 10)),
                               EncryptNote(outputs[1], OwnAddress(sk), DeriveRseed(seed, 11))]
    ensures Pays(tx, sk, recipient, amount, seed, outputs[0], outputs[1]) && outputs[1].value == change
  {
    hide HashParts, RhoTransfer;
  }

  /** Two inputs meet their constraints, differ in nullifier and are worth what the outputs are. */
  ghost predicate Fitting(sk: SpendingKey, inputs: seq<InputWitness>, amount: u64, change: u64, anchor: Anchor) {
    && |inputs| == 2 && InputFits(sk, inputs[0], anchor) && InputFits(sk, inputs[1], anchor)
    && inputs[0].note.Nullifier(sk.Nk()) != inputs[1].note.Nullifier(sk.Nk())
    && inputs[0].note.value + inputs[1].note.value == amount + change
  }

  /** The second half of `build_transfer`: outputs, binding digest, proof and transaction. */
  method ProveTransfer(sk: SpendingKey, inputs: seq<InputWitness>, recipient: Address, amount: u64, change: u64,
                       anchor: Anchor, seed: Digest) returns (r: Result<TxV1, WalletError>)
    requires |inputs| == 2
    ensures r.Err? ==> r.error.ProveFailed?
    ensures amount >= MAX_MONEY ==> r.Err?
    ensures Fitting(sk, inputs, amount, change, anchor) && amount < MAX_MONEY && change < MAX_MONEY ==> r.Ok?
    ensures r.Ok? ==>
              && r.value.anchor == anchor && r.value.antispam == PowLane(0)
              && r.value.nullifiers
                   == InOrder(inputs[0].note.Nullifier(sk.Nk()), inputs[1].note.Nullifier(sk.Nk()))
              && exists pay, back :: Pays(r.value, sk, recipient, amount, seed, pay, back) && back.value == change
    ensures Fitting(sk, inputs, amount, change, anchor) && change < MAX_MONEY && r.Ok? ==>
              && ValidateStateless(r.value, DevVerifier, 0).Ok?
              && exists w: SpendWitness :: ProvenBy(r.value, Spend(w, sk)) && w.inputs == inputs
  {
    hide HashParts, SpendStatement, SpendViolation, Canonicalize, ProofFor, ValidateStateless, Less, TransferOutputs,
         InputFits, NoteCommitments, DeriveRseed;
    var nk := sk.Nk();
    var nfs := Sort((x: Nullifier, y: Nullifier) => Less(x, y),
                    [inputs[0].note.Nullifier(nk), inputs[1].note.Nullifier(nk)]);
    SortTwo((x: Nullifier, y: Nullifier) => Less(x, y), inputs[0].note.Nullifier(nk), inputs[1].note.Nullifier(nk));
    assert nfs == InOrder(inputs[0].note.Nullifier(nk), inputs[1].note.Nullifier(nk));
    var outputs := TransferOutputs(sk, recipient, amount, change, nfs[0], seed);
    assert |outputs| == 2 by { TwoOutputs(sk, recipient, amount, change, nfs[0], seed); }
    var enc0 := EncryptNote(outputs[0], recipient, DeriveRseed(seed, 10));
    var enc1 := EncryptNote(outputs[1], OwnAddress(sk), DeriveRseed(seed, 11));
    var commitments := [outputs[0].Commitment(), outputs[1].Commitment()];
    assert commitments == NoteCommitments(outputs) by { PairCommitments(outputs); }
    var partial := TxV1(anchor, nfs, commitments, [enc0, enc1], PowLane(0), Zeros(PROOF_BUCKET));
    var w := SpendWitness(nk, sk.AddrTag(), inputs, outputs, 0, partial.BindingDigest());
    var proven := Prove(w, anchor);
    ghost var fitting := Fitting(sk, inputs, amount, change, anchor) && change < MAX_MONEY;
    if amount >= MAX_MONEY {
      CanonicalKeeps(w);
      OutOfRangeFails(sk, recipient, amount, change, nfs[0], seed, Canonicalize(w),
                      PublicInputs(Canonicalize(w), anchor));
    } else if fitting {
      TransferHolds(sk, inputs, recipient, amount, change, seed, anchor, w);
    }
    if proven.Err? {
      return Err(ProveFailed(proven.error));
    }
    var tx := TxV1(anchor, nfs, commitments, [enc0, enc1], PowLane(0), proven.value.1);
    PaysOut(tx, sk, recipient, amount, change, seed, outputs);
    if fitting {
      InOrderIsLess(inputs[0].note.Nullifier(nk), inputs[1].note.Nullifier(nk));
      assert tx.ToPublicInputs() == proven.value.0 by { SamePublicInputs(tx, partial, w, anchor); }
      AssembledValid(tx, proven.value.0);
      assert ProvenBy(tx, Spend(w, sk));
    }
    r := Ok(tx);
  }

  /** The notes are the wallet's own and provable against the anchor, with different nullifiers. */
  ghost predicate HealthyRecords(sk: SpendingKey, records: seq<NoteRecord>, anchor: Anchor,
                                 witnessFor: WitnessLookup) {
    && (forall i :: 0 <= i < |records| ==> Spendable(sk, records[i], anchor, witnessFor))
    && NullifiersApart(sk.Nk(), records)
  }

  class WalletObject {
    const sk: SpendingKey
    var unspent: seq<NoteRecord>
    var seen: set<Nullifier>

    constructor (key: SpendingKey)
      ensures sk == key && unspent == [] && seen == {}
    {
      sk, unspent, seen := key, [], {};
    }

    /** `observe_nullifiers`: remember them all, then drop the notes they spend. */
    method ObserveNullifiers(nullifiers: seq<Nullifier>)
      modifies this
      ensures seen == old(seen) + Elements(nullifiers)
      ensures unspent == Kept(sk.Nk(), old(unspent), seen)
    {
      hide HashParts;
      var nk := sk.Nk();
      for i := 0 to |nullifiers|
        invariant seen == old(seen) + Elements(nullifiers[..i]) && unspent == old(unspent)
      {
        assert nullifiers[..i + 1] == nullifiers[..i] + [nullifiers[i]];
        ElementsPush(nullifiers[..i], nullifiers[i]);
        seen := seen + {nullifiers[i]};
      }
      assert nullifiers[..|nullifiers|] == nullifiers;
      var kept: seq<NoteRecord> := [];
      for i := 0 to |unspent|
        invariant kept == Kept(nk, unspent[..i], seen)
      {
        assert unspent[..i + 1][..i] == unspent[..i];
        if unspent[i].note.Nullifier(nk) !in seen {
          kept := kept + [unspent[i]];
        }
      }
      assert unspent[..|unspent|] == unspent;
      unspent := kept;
    }

    ghost predicate Healthy(anchor: Anchor, witnessFor: WitnessLookup)
      reads this
    {
      HealthyRecords(sk, unspent, anchor, witnessFor)
    }

    /** `build_transfer`: with a healthy wallet it fails only for lack of funds, for lack of two notes that
        cover the amount, or for an amount out of range, and what it builds is statelessly valid. */
    method BuildTransfer(recipient: Address, amount: u64, anchor: Anchor, witnessFor: WitnessLookup, seed: Digest)
      returns (r: Result<TxV1, WalletError>)
      requires Value(unspent) < TWO64
      ensures Value(unspent) < amount <==> r == Err(InsufficientFunds(Value(unspent), amount))
      ensures Value(unspent) >= amount && !Coverable(unspent, amount) <==> r == Err(TooManyInputsNeeded)
      ensures Healthy(anchor, witnessFor) && Value(unspent) >= amount && Coverable(unspent, amount) ==>
                (r.Ok? <==> amount < MAX_MONEY)
      ensures Healthy(anchor, witnessFor) && r.Ok? ==>
                && ValidateStateless(r.value, DevVerifier, 0).Ok? && r.value.anchor == anchor
                && r.value.antispam == PowLane(0)
                && (exists w: SpendWitness :: ProvenBy(r.value, Spend(w, sk)) && FixedDummies(w.inputs))
                && Reveals(sk.Nk(), unspent, Padding(sk.Nk(), unspent, amount), r.value.nullifiers)
                && (DummyNullifier(sk.Nk(), 0) in r.value.nullifiers <==> !NeedsTwo(unspent, amount))
                && exists pay, back ::
                     && Pays(r.value, sk, recipient, amount, seed, pay, back)
                     && Value(unspent)
                          == Value(Kept(sk.Nk(), unspent, Elements(r.value.nullifiers))) + amount + back.value
    {
      hide HashParts, SpendStatement, SpendViolation, Canonicalize, ProofFor, ValidateStateless, Less, Value, Coverable,
           Chosen, Spendable, NullifiersApart, TransferOutputs, BuiltFrom, DummyInput, InputFits, NoteCommitments,
           DeriveRseed, NeedsTwo, DummyNullifier, Padding, Reveals, FixedDummies,
           Pays, Kept;
      var chosen := SelectInputs(unspent, amount);
      if chosen.Err? {
        return Err(chosen.error);
      }
      var selected := chosen.value;
      assert |selected| <= 2 by { ChosenAtMostTwo(unspent, selected); }
      var inputValue := Balance(selected);
      assert inputValue < TWO64 by { ChosenFits(unspent, selected); }
      var change: u64 := inputValue - amount;
      var gathered := GatherInputs(selected, witnessFor);
      ghost var healthy := Healthy(anchor, witnessFor);
      if gathered.Err? {
        assert !healthy by { MissingIsUnhealthy(sk, unspent, selected, anchor, witnessFor); }
        return Err(gathered.error);
      }
      var inputs := gathered.value;
      if healthy {
        SelectedFit(sk, unspent, selected, inputs, anchor, witnessFor);
        if amount < MAX_MONEY {
          ChangeInRange(sk, unspent, selected, anchor, witnessFor, amount);
        }
      }
      r := ProveTransfer(sk, inputs, recipient, amount, change, anchor, seed);
      if healthy && r.Ok? {
        PaddingRevealed(sk, unspent, selected, inputs, witnessFor, r.value.nullifiers, amount);
        GatheredDummies(selected, inputs, witnessFor);
        SpentValue(sk, unspent, selected, inputs, witnessFor, r.value.nullifiers);
      }
    }
  }

  lemma TwoOutputs(sk: SpendingKey, recipient: Address, amount: u64, change: u64, first: Nullifier, seed: Digest)
    ensures |TransferOutputs(sk, recipient, amount, change, first, seed)| == 2
  {
  }

  lemma PairCommitments(notes: seq<Note>)
    requires |notes| == 2
    ensures [notes[0].Commitment(), notes[1].Commitment()] == NoteCommitments(notes)
  {
  }

  lemma ChosenAtMostTwo(records: seq<NoteRecord>, selected: seq<NoteRecord>)
    requires Chosen(records, selected)
    ensures |selected| <= 2
  {
  }

  lemma {:induction false} ValueOfPart(records: seq<NoteRecord>, i: nat)
    requires i < |records|
    ensures records[i].note.value <= Value(records)
  {
    if i < |records| - 1 {
      ValueOfPart(records[..|records| - 1], i);
    }
  }

  lemma {:induction false} ValueOfPair(records: seq<NoteRecord>, i: nat, j: nat)
    requires i < j < |records|
    ensures records[i].note.value + records[j].note.value <= Value(records)
  {
    if j == |records| - 1 {
      ValueOfPart(records[..j], i);
    } else {
      ValueOfPair(records[..|records| - 1], i, j);
    }
  }

  lemma ChosenFits(records: seq<NoteRecord>, selected: seq<NoteRecord>)
    requires Chosen(records, selected) && Value(records) < TWO64
    ensures Value(selected) < TWO64
  {
    hide Value;
    if |selected| == 0 {
      NoValue();
    } else if |selected| == 1 {
      var i :| 0 <= i < |records| && selected == [records[i]];
      ValueOfOne(records[i]);
      ValueOfPart(records, i);
    } else {
      var i, j :| 0 <= i < |records| && 0 <= j < |records| && i != j && selected == [records[i], records[j]];
      ValueOfTwo(records[i], records[j]);
      if i < j { ValueOfPair(records, i, j); } else { ValueOfPair(records, j, i); }
    }
  }

  /** Every selected record is one of the wallet's. */
  lemma ChosenFrom(records: seq<NoteRecord>, selected: seq<NoteRecord>, k: nat)
    requires Chosen(records, selected) && k < |selected|
    ensures selected[k] in records
  {
  }

  lemma MissingIsUnhealthy(sk: SpendingKey, records: seq<NoteRecord>, selected: seq<NoteRecord>, anchor: Anchor,
                           witnessFor: WitnessLookup)
    requires Chosen(records, selected) && exists i :: 0 <= i < |selected| && witnessFor(selected[i].position).None?
    ensures !(forall i :: 0 <= i < |records| ==> Spendable(sk, records[i], anchor, witnessFor))
  {
    hide Chosen, PathVerifies, HashParts;
    var k :| 0 <= k < |selected| && witnessFor(selected[k].position).None?;
    ChosenFrom(records, selected, k);
    var i :| 0 <= i < |records| && records[i] == selected[k];
    assert !Spendable(sk, records[i], anchor, witnessFor);
  }

  /** The change is below the range limit: a single note is, and each of two notes is below the amount. */
  lemma ChangeInRange(sk: SpendingKey, records: seq<NoteRecord>, selected: seq<NoteRecord>, anchor: Anchor,
                      witnessFor: WitnessLookup, amount: u64)
    requires Chosen(records, selected) && amount < MAX_MONEY
    requires forall i :: 0 <= i < |records| ==> Spendable(sk, records[i], anchor, witnessFor)
    requires |selected| == 2 ==> selected[0].note.value < amount && selected[1].note.value < amount
    ensures Value(selected) - amount < MAX_MONEY
  {
  }

  /** The anti-spam body and the proof do not enter the public inputs. */
  lemma SamePublicInputs(tx: TxV1, partial: TxV1, w: SpendWitness, anchor: Anchor)
    requires tx == partial.(proof := tx.proof) && w.bindingDigest == partial.BindingDigest() && w.mintValue == 0
    requires tx.anchor == anchor && tx.commitments == NoteCommitments(w.outputs)
    requires PublicInputs(Canonicalize(w), anchor).nullifiers == tx.nullifiers
    ensures tx.ToPublicInputs() == PublicInputs(Canonicalize(w), anchor)
  {
  }

  // ---------- from the wallet to the ledger ----------

  /** The ledger's own witnesses make every note at a sealed position spendable at the current anchor. */
  lemma LedgerWitnessSpendable(sk: SpendingKey, r: NoteRecord, s: LedgerState, witnessFor: WitnessLookup)
    requires r.note.addrTag == sk.AddrTag() && r.note.value < MAX_MONEY
    requires r.position < |s.leaves| && r.position < Pow2(TREE_DEPTH) && s.leaves[r.position] == r.note.Commitment()
    requires witnessFor(r.position).Some? && witnessFor(r.position).value.position == r.position
    requires IsWitness(s.leaves, r.position, witnessFor(r.position).value.siblings)
    ensures Spendable(sk, r, s.CurrentAnchor(), witnessFor)
  {
    hide PathVerifies, RootOf, HashParts;
    WitnessVerifies(s.leaves, witnessFor(r.position).value);
  }

  /** A transaction with a puzzle solution, valid but for the difficulty, is accepted exactly by the ledgers
      whose difficulty the solution meets, that still know its anchor and have seen neither nullifier. */
  lemma LedgerAccepts(s: LedgerState, accepted: seq<TxV1>, tx: TxV1, verifier: Verifier)
    requires ValidateStateless(tx, verifier, 0).Ok? && tx.antispam.PowLane?
    ensures Verdict(s, accepted, tx, verifier).None? <==>
              && tx.anchor in s.anchors
              && PowVerify(tx.BindingDigest(), tx.antispam.nonce, s.config.difficultyBits)
              && forall nf :: nf in tx.nullifiers ==> nf !in s.nullifiers && nf !in NullifiersOf(accepted)
  {
    hide ValidateStateless, NullifiersOf, SlotsAfter, PowVerify, Less;
    StatelessMeans(tx, verifier, 0);
    StatelessMeans(tx, verifier, s.config.difficultyBits);
  }

  /** The dummies' entropy is constant, so a run accepts at most one transaction of a wallet that was
      built from fewer than two notes. */
  lemma OneDummyTransfer(run: Run, c: Config, notes: seq<(Commitment, u64)>, sk: SpendingKey, i: nat, j: nat)
    requires run.From(c, notes) && i < j < |run.AllAccepted()|
    requires DummyNullifier(sk.Nk(), 0) in run.AllAccepted()[i].nullifiers
    ensures DummyNullifier(sk.Nk(), 0) !in run.AllAccepted()[j].nullifiers
  {
    hide Genesis, Apply, DummyNullifier;
    NoSharedNullifier(run, c, notes, i, j, DummyNullifier(sk.Nk(), 0));
  }
}
