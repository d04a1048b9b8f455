/** crates/primitives: the domain-separated, length-prefixed multi-part hash. */
module Hashing {
  import opened Bytes

  /** One constructor per domain-separation label, those of `ds` and the ones inlined elsewhere. */
  datatype Context =
    | NoteCommitment | NoteNullifier | RhoForTransfer | RhoForMint
    | MerkleNode | MerkleEmpty | TxBinding | Pow | DevProof
    | KeyAsk | KeyNk | KeyAddrTag
    | DummyTag | DummyRho | DummyRseed
    | QuotaA0 | QuotaA1 | QuotaRn | QuotaX
    | WalletRseed

  /** BLAKE3 in derive-key mode, left uninterpreted: no value is given to this constant, so every
      statement of the project holds for every function of this type. */
  const Blake3: (Context, seq<byte>) -> Digest

  /** What one call feeds the hash: its label and the whole byte stream. */
  datatype Preimage = Preimage(context: Context, stream: seq<byte>)

  function Digested(p: Preimage): Digest { Blake3(p.context, p.stream) }

  /** No two different members of a set of hashed inputs share a digest. */
  ghost predicate CollisionFree(log: set<Preimage>) {
    forall p, q :: p in log && q in log && Digested(p) == Digested(q) ==> p == q
  }

  // ---------- length-prefixed framing ----------

  ghost predicate WordSized(parts: seq<seq<byte>>) {
    forall i :: 0 <= i < |parts| ==> |parts[i]| < TWO64
  }

  /** The byte stream `hash_parts` feeds the hasher: each part after its 64-bit length. */
  function Frame(parts: seq<seq<byte>>): seq<byte> {
    if parts == [] then [] else LE(|parts[0]|, 8) + parts[0] + Frame(parts[1..])
  }

  lemma {:induction false} FrameSnoc(parts: seq<seq<byte>>, last: seq<byte>)
    ensures Frame(parts + [last]) == Frame(parts) + LE(|last|, 8) + last
  {
    if parts == [] {
      assert [last][1..] == [];
    } else {
      assert (parts + [last])[1..] == parts[1..] + [last];
      FrameSnoc(parts[1..], last);
    }
  }

  /** The stream determines the list of parts, whatever their number and lengths. */
  lemma {:induction false} FrameInjective(p: seq<seq<byte>>, q: seq<seq<byte>>)
    requires WordSized(p) && WordSized(q)
    requires Frame(p) == Frame(q)
    ensures p == q
  {
    if p != [] && q != [] {
      assert LE(|p[0]|, 8) == Frame(p)[..8] == Frame(q)[..8] == LE(|q[0]|, 8);
      LE8Injective(|p[0]|, |q[0]|);
      var n := 8 + |p[0]|;
      assert p[0] == Frame(p)[8..n] == Frame(q)[8..n] == q[0];
      assert Frame(p[1..]) == Frame(p)[n..] == Frame(q)[n..] == Frame(q[1..]);
      FrameInjective(p[1..], q[1..]);
      assert p == [p[0]] + p[1..] && q == [q[0]] + q[1..];
    }
  }

  function HashParts(context: Context, parts: seq<seq<byte>>): Digest {
    Blake3(context, Frame(parts))
  }

  function PartsPreimage(context: Context, parts: seq<seq<byte>>): Preimage {
    Preimage(context, Frame(parts))
  }

  /** The hasher loop: state is the bytes absorbed so far. */
  method ComputeHashParts(context: Context, parts: seq<seq<byte>>) returns (digest: Digest)
    ensures digest == HashParts(context, parts)
  {
    var absorbed: seq<byte> := [];
    for i := 0 to |parts|
      invariant absorbed == Frame(parts[..i])
    {
      FrameSnoc(parts[..i], parts[i]);
      assert parts[..i + 1] == parts[..i] + [parts[i]];
      absorbed := absorbed + LE(|parts[i]|, 8);
      absorbed := absorbed + parts[i];
    }
    assert parts[..|parts|] == parts;
    digest := Blake3(context, absorbed);
  }

  /** Inside a collision-free log, equal digests mean equal label and equal parts. */
  lemma HashPartsInjective(log: set<Preimage>, c: Context, p: seq<seq<byte>>, d: Context, q: seq<seq<byte>>)
    requires CollisionFree(log) && WordSized(p) && WordSized(q)
    requires PartsPreimage(c, p) in log && PartsPreimage(d, q) in log
    requires HashParts(c, p) == HashParts(d, q)
    ensures c == d && p == q
  {
    assert Digested(PartsPreimage(c, p)) == Digested(PartsPreimage(d, q));
    FrameInjective(p, q);
  }
}
