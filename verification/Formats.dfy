/** What exactly is hashed: the byte stream behind every digest of the system, written out with its length
    words, as the specification of notes and keys lays it down. */
module Formats {
  import opened Bytes
  import opened Hashing
  import opened Interfaces
  import opened Notes
  import opened Merkle
  import opened Quota
  import opened Tx
  import opened Prover
  import opened Wallet
  import Field
  import Mersenne

  /** A length below 256 as a 64-bit little-endian word. */
  function Len(n: byte): seq<byte> { [n, 0, 0, 0, 0, 0, 0, 0] }

  lemma LenIsLE(n: byte)
    ensures LE(n as nat, 8) == Len(n)
  {
    ZeroLE(7);
    assert LE(n as nat, 8) == [n] + LE(0, 7);
  }

  lemma {:induction false} ZeroLE(k: nat)
    ensures LE(0, k) == Zeros(k)
  {
    if k == 0 {
    } else {
      ZeroLE(k - 1);
    }
  }

  function Piece(p: seq<byte>): seq<byte>
    requires |p| < 256
  {
    Len(|p| as byte) + p
  }

  lemma FrameOne(a: seq<byte>)
    requires |a| < 256
    ensures Frame([a]) == Piece(a)
  {
    LenIsLE(|a| as byte);
    assert [a][1..] == [] && Frame([]) == [];
  }

  /** One more part adds its length word and itself. */
  lemma FrameMore(parts: seq<seq<byte>>, last: seq<byte>, length: seq<byte>)
    requires LE(|last|, 8) == length
    ensures Frame(parts + [last]) == Frame(parts) + (length + last)
  {
    hide Frame, LE;
    FrameSnoc(parts, last);
    assert Frame(parts) + length + last == Frame(parts) + (length + last);
  }

  lemma FrameTwo(a: seq<byte>, b: seq<byte>)
    requires |a| < 256 && |b| < 256
    ensures Frame([a, b]) == Piece(a) + Piece(b)
  {
    hide Frame, LE;
    FrameOne(a);
    LenIsLE(|b| as byte);
    FrameMore([a], b, Len(|b| as byte));
    assert [a] + [b] == [a, b];
  }

  lemma FrameThree(a: seq<byte>, b: seq<byte>, c: seq<byte>)
    requires |a| < 256 && |b| < 256 && |c| < 256
    ensures Frame([a, b, c]) == Piece(a) + Piece(b) + Piece(c)
  {
    hide Frame, LE;
    FrameTwo(a, b);
    LenIsLE(|c| as byte);
    FrameMore([a, b], c, Len(|c| as byte));
    assert [a, b] + [c] == [a, b, c];
  }

  lemma FrameFour(a: seq<byte>, b: seq<byte>, c: seq<byte>, d: seq<byte>)
    requires |a| < 256 && |b| < 256 && |c| < 256 && |d| < 256
    ensures Frame([a, b, c, d]) == Piece(a) + Piece(b) + Piece(c) + Piece(d)
  {
    hide Frame, LE;
    FrameThree(a, b, c);
    LenIsLE(|d| as byte);
    FrameMore([a, b, c], d, Len(|d| as byte));
    assert [a, b, c] + [d] == [a, b, c, d];
  }

  /** Commitment: value, address tag, rho and rseed, in this order; nullifier: key, then rho. */
  lemma NoteStreams(note: Note, nk: Digest)
    ensures note.Commitment()
         == Blake3(NoteCommitment, Len(8) + LE8(note.value) + (Len(32) + note.addrTag)
                                     + (Len(32) + note.rho) + (Len(32) + note.rseed))
    ensures note.Nullifier(nk) == Blake3(NoteNullifier, Len(32) + nk + (Len(32) + note.rho))
  {
    hide LE8, Frame;
    FrameFour(LE8(note.value), note.addrTag, note.rho, note.rseed);
    FrameTwo(nk, note.rho);
  }

  /** The two kinds of rho: first nullifier and output index, height and output index. */
  lemma RhoStreams(first: Nullifier, height: u64, index: byte)
    ensures RhoTransfer(first, index) == Blake3(RhoForTransfer, Len(32) + first + (Len(1) + [index]))
    ensures RhoMint(height, index) == Blake3(RhoForMint, Len(8) + LE8(height) + (Len(1) + [index]))
  {
    hide LE8, Frame;
    FrameTwo(first, [index]);
    FrameTwo(LE8(height), [index]);
  }

  /** Keys: both come from the secret itself under their labels, the tag from the spend authority. */
  lemma KeyStreams(key: SpendingKey)
    ensures key.Nk() == Blake3(KeyNk, key.sk)
    ensures key.AddrTag() == Blake3(KeyAddrTag, Len(32) + Blake3(KeyAsk, key.sk))
  {
    hide Frame;
    FrameOne(key.Ask());
  }

  /** A dummy is worth nothing and its three digests come from its entropy; the wallet's two dummies use 32
      bytes of 0xD0 and of 0xD1 and an all-zero path. */
  lemma DummyStreams(entropy: Digest, k: nat)
    requires k < 2
    ensures DummyNote(entropy)
         == Note(0, Blake3(DummyTag, Len(32) + entropy), Blake3(DummyRho, Len(32) + entropy),
                 Blake3(DummyRseed, Len(32) + entropy))
    ensures var e: Digest := seq(32, _ => if k == 0 then 0xD0 else 0xD1);
            DummyInput(k).note == DummyNote(e)
    ensures DummyInput(k).path.position == 0 && forall i :: 0 <= i < 32 ==> DummyInput(k).path.siblings[i] == Zeros(32)
  {
    hide Frame;
    FrameOne(entropy);
    var e: Digest := seq(32, _ => if k == 0 then 0xD0 else 0xD1);
    assert DummyEntropy(k) == e;
  }

  /** A tree node hashes its left child, then its right; the empty leaf hashes nothing. */
  lemma TreeStreams(left: Digest, right: Digest)
    ensures NodeHash(left, right) == Blake3(MerkleNode, Len(32) + left + (Len(32) + right))
    ensures EmptyRoot(0) == Blake3(MerkleEmpty, [])
  {
    FrameTwo(left, right);
    assert Frame([]) == [];
    hide Frame;
  }

  /** A field element from a digest: its first eight bytes, little-endian, modulo P. */
  lemma FieldFromDigest(context: Context, parts: seq<seq<byte>>, n: u64)
    requires HashParts(context, parts)[..8] == LE8(n)
    ensures FieldFrom(context, parts) == n % Mersenne.P
  {
    hide HashParts, LE8;
    LE8RoundTrip(n);
  }

  /** The quota lane: secret, slope and rate nullifier from the key, x from the message. */
  lemma QuotaStreams(note: QuotaNote, epoch: u64, k: u64, message: Digest)
    ensures note.RateNullifier(epoch, k)
         == Blake3(QuotaRn, Len(32) + note.quotaKey + (Len(8) + LE8(epoch)) + (Len(8) + LE8(k)))
    ensures note.Secret() == FieldOf(Blake3(QuotaA0, Len(32) + note.quotaKey))
    ensures note.Slope(epoch) == FieldOf(Blake3(QuotaA1, Len(32) + note.quotaKey + (Len(8) + LE8(epoch))))
    ensures MessageX(message) == FieldOf(Blake3(QuotaX, Len(32) + message))
  {
    hide LE8, Frame, FromLE8;
    FrameThree(note.quotaKey, LE8(epoch), LE8(k));
    FrameTwo(note.quotaKey, LE8(epoch));
    FrameOne(note.quotaKey);
    FrameOne(message);
  }

  function FieldOf(d: Digest): Field.Residue { FromLE8(d[..8]) % Mersenne.P }

  /** The puzzle hashes the challenge and the nonce, the wallet its seed and an index. */
  lemma PuzzleAndSeedStreams(challenge: Digest, nonce: u64, seed: Digest, index: byte)
    ensures PowHash(challenge, nonce) == Blake3(Pow, Len(32) + challenge + (Len(8) + LE8(nonce)))
    ensures DeriveRseed(seed, index) == Blake3(WalletRseed, Len(32) + seed + (Len(1) + [index]))
  {
    hide LE8, Frame;
    FrameTwo(challenge, LE8(nonce));
    FrameTwo(seed, [index]);
  }

  /** The binding digest covers, in this order, anchor height and root, nullifiers, commitments, ciphertexts,
      each behind its length; a full ciphertext's length word is 1273. */
  lemma BindingStream(tx: TxV1)
    requires |tx.encOutputs[0]| == |tx.encOutputs[1]| == 1273
    ensures tx.BindingDigest()
         == Blake3(TxBinding, Len(8) + LE8(tx.anchor.height) + (Len(32) + tx.anchor.root)
                                + (Len(32) + tx.nullifiers[0]) + (Len(32) + tx.nullifiers[1])
                                + (Len(32) + tx.commitments[0]) + (Len(32) + tx.commitments[1])
                                + ([0xF9, 4, 0, 0, 0, 0, 0, 0] + tx.encOutputs[0])
                                + ([0xF9, 4, 0, 0, 0, 0, 0, 0] + tx.encOutputs[1]))
  {
    hide LE8, LE, Frame;
    var p := tx.BindingParts();
    FrameFour(p[0], p[1], p[2], p[3]);
    LenIsLE(32);
    Len1273();
    assert p[..4] == [p[0], p[1], p[2], p[3]];
    assert p[..5] == p[..4] + [p[4]] && p[..6] == p[..5] + [p[5]];
    assert p[..7] == p[..6] + [p[6]] && p == p[..7] + [p[7]];
    FrameMore(p[..4], p[4], Len(32));
    FrameMore(p[..5], p[5], Len(32));
    FrameMore(p[..6], p[6], [0xF9, 4, 0, 0, 0, 0, 0, 0]);
    FrameMore(p[..7], p[7], [0xF9, 4, 0, 0, 0, 0, 0, 0]);
  }

  lemma Len1273()
    ensures LE(1273, 8) == [0xF9, 4, 0, 0, 0, 0, 0, 0]
  {
    ZeroLE(6);
    assert LE(1273, 8) == [0xF9] + LE(4, 7) && LE(4, 7) == [4] + LE(0, 6);
  }

  /** The development tag is the hash of the encoded public inputs, 210 bytes for the fixed shape, and the
      proof is the tag followed by 160 zero bytes. */
  lemma ProofStream(pi: SpendPublicInputs)
    requires |pi.nullifiers| == |pi.commitments| == 2
    ensures ProofFor(pi)
         == Blake3(DevProof, [210, 0, 0, 0, 0, 0, 0, 0]
                               + (LE8(pi.anchor.height) + pi.anchor.root
                                  + ([2] + pi.nullifiers[0] + pi.nullifiers[1])
                                  + ([2] + pi.commitments[0] + pi.commitments[1])
                                  + pi.bindingDigest + LE8(pi.mintValue)))
              + Zeros(160)
  {
    hide LE8, Frame, Flatten;
    FlattenPair(pi.nullifiers);
    FlattenPair(pi.commitments);
    var e := EncodePublicInputs(pi);
    assert e == LE8(pi.anchor.height) + pi.anchor.root
             + ([2] + pi.nullifiers[0] + pi.nullifiers[1])
             + ([2] + pi.commitments[0] + pi.commitments[1])
             + pi.bindingDigest + LE8(pi.mintValue);
    FrameOne(e);
  }
}
