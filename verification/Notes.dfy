/** crates/notes and the part of crates/keys that fixes a spender's nullifier key and address tag. */
module Notes {
  import opened Bytes
  import opened Hashing
  import opened Interfaces

  /** `SpendingKey`: nullifier key and address tag both come from the one secret. */
  datatype SpendingKey = SpendingKey(sk: Digest) {
    function Ask(): Digest { Blake3(KeyAsk, sk) }
    function Nk(): Digest { Blake3(KeyNk, sk) }
    function AddrTag(): Digest { HashParts(KeyAddrTag, [Ask()]) }

    ghost function Hashes(): set<Preimage> {
      {Preimage(KeyAsk, sk), Preimage(KeyNk, sk), PartsPreimage(KeyAddrTag, [Ask()])}
    }
  }

  datatype Note = Note(value: u64, addrTag: Digest, rho: Digest, rseed: Digest) {
    function CommitmentParts(): (p: seq<seq<byte>>)
      ensures WordSized(p)
    {
      [LE8(value), addrTag, rho, rseed]
    }

    function Commitment(): Commitment { HashParts(NoteCommitment, CommitmentParts()) }
    function Nullifier(nk: Digest): Nullifier { HashParts(NoteNullifier, [nk, rho]) }

    ghost function CommitmentHash(): Preimage { PartsPreimage(NoteCommitment, CommitmentParts()) }
    ghost function NullifierHash(nk: Digest): Preimage { PartsPreimage(NoteNullifier, [nk, rho]) }
  }

  function NoteCommitments(notes: seq<Note>): (cms: seq<Commitment>)
    ensures |cms| == |notes| && forall i :: 0 <= i < |cms| ==> cms[i] == notes[i].Commitment()
  {
    seq(|notes|, i requires 0 <= i < |notes| => notes[i].Commitment())
  }

  function DummyNote(entropy: Digest): Note {
    Note(0, HashParts(DummyTag, [entropy]), HashParts(DummyRho, [entropy]), HashParts(DummyRseed, [entropy]))
  }

  function RhoTransfer(firstNullifier: Nullifier, index: byte): Digest {
    HashParts(RhoForTransfer, [firstNullifier, [index]])
  }

  function RhoMint(height: u64, index: byte): Digest {
    HashParts(RhoForMint, [LE8(height), [index]])
  }

  ghost function RhoTransferHash(firstNullifier: Nullifier, index: byte): Preimage {
    PartsPreimage(RhoForTransfer, [firstNullifier, [index]])
  }

  ghost function RhoMintHash(height: u64, index: byte): Preimage {
    PartsPreimage(RhoForMint, [LE8(height), [index]])
  }

  // ---------- what equal digests say about what was hashed ----------

  lemma CommitmentBinds(log: set<Preimage>, m: Note, n: Note)
    requires CollisionFree(log) && m.CommitmentHash() in log && n.CommitmentHash() in log
    requires m.Commitment() == n.Commitment()
    ensures m == n
  {
    HashPartsInjective(log, NoteCommitment, m.CommitmentParts(), NoteCommitment, n.CommitmentParts());
    assert m.CommitmentParts()[0] == n.CommitmentParts()[0] && m.CommitmentParts()[1] == n.CommitmentParts()[1];
    assert m.CommitmentParts()[2] == n.CommitmentParts()[2] && m.CommitmentParts()[3] == n.CommitmentParts()[3];
    LE8Injective(m.value, n.value);
  }

  lemma NullifierBinds(log: set<Preimage>, m: Note, mk: Digest, n: Note, nk: Digest)
    requires CollisionFree(log) && m.NullifierHash(mk) in log && n.NullifierHash(nk) in log
    requires m.Nullifier(mk) == n.Nullifier(nk)
    ensures mk == nk && m.rho == n.rho
  {
    HashPartsInjective(log, NoteNullifier, [mk, m.rho], NoteNullifier, [nk, n.rho]);
    assert [mk, m.rho][0] == [nk, n.rho][0] && [mk, m.rho][1] == [nk, n.rho][1];
  }

  lemma RhoTransferBinds(log: set<Preimage>, f: Nullifier, i: byte, g: Nullifier, j: byte)
    requires CollisionFree(log) && RhoTransferHash(f, i) in log && RhoTransferHash(g, j) in log
    requires RhoTransfer(f, i) == RhoTransfer(g, j)
    ensures f == g && i == j
  {
    HashPartsInjective(log, RhoForTransfer, [f, [i]], RhoForTransfer, [g, [j]]);
    assert [f, [i]][0] == [g, [j]][0] && [f, [i]][1] == [g, [j]][1];
    assert [i][0] == [j][0];
  }

  lemma RhoMintBinds(log: set<Preimage>, f: u64, i: byte, g: u64, j: byte)
    requires CollisionFree(log) && RhoMintHash(f, i) in log && RhoMintHash(g, j) in log
    requires RhoMint(f, i) == RhoMint(g, j)
    ensures f == g && i == j
  {
    HashPartsInjective(log, RhoForMint, [LE8(f), [i]], RhoForMint, [LE8(g), [j]]);
    assert [LE8(f), [i]][0] == [LE8(g), [j]][0] && [LE8(f), [i]][1] == [LE8(g), [j]][1];
    assert [i][0] == [j][0];
    LE8Injective(f, g);
  }

  lemma RhoKindsDiffer(log: set<Preimage>, f: Nullifier, i: byte, h: u64, j: byte)
    requires CollisionFree(log) && RhoTransferHash(f, i) in log && RhoMintHash(h, j) in log
    ensures RhoTransfer(f, i) != RhoMint(h, j)
  {
  }

  /** One nullifier key, one spending key. */
  lemma NkBinds(log: set<Preimage>, k: SpendingKey, l: SpendingKey)
    requires CollisionFree(log) && k.Hashes() <= log && l.Hashes() <= log
    requires k.Nk() == l.Nk()
    ensures k == l
  {
    assert Digested(Preimage(KeyNk, k.sk)) == Digested(Preimage(KeyNk, l.sk));
  }

  /** One address tag, one spending key, hence one nullifier key. */
  lemma AddrTagBinds(log: set<Preimage>, k: SpendingKey, l: SpendingKey)
    requires CollisionFree(log) && k.Hashes() <= log && l.Hashes() <= log
    requires k.AddrTag() == l.AddrTag()
    ensures k == l
  {
    HashPartsInjective(log, KeyAddrTag, [k.Ask()], KeyAddrTag, [l.Ask()]);
    assert [k.Ask()][0] == [l.Ask()][0];
    assert Digested(Preimage(KeyAsk, k.sk)) == Digested(Preimage(KeyAsk, l.sk));
  }
}
