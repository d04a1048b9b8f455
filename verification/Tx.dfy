/** crates/tx and the puzzle check of crates/antispam-pow: transactions, their binding digest and
    stateless validation. */
module Tx {
  import opened Arithmetic
  import opened Bytes
  import opened Hashing
  import opened Interfaces
  import opened Quota

  const ENC_OUTPUT_LEN: nat := 1273

  datatype AntiSpam = PowLane(nonce: u64) | QuotaLane(proof: RateProof)

  type DigestPair = s: seq<Digest> | |s| == 2 witness [ZERO_DIGEST, ZERO_DIGEST]
  type CiphertextPair = s: seq<seq<byte>> | |s| == 2 witness [[], []]

  datatype TxV1 = TxV1(
    anchor: Anchor,
    nullifiers: DigestPair,
    commitments: DigestPair,
    encOutputs: CiphertextPair,
    antispam: AntiSpam,
    proof: seq<byte>)
  {
    function BindingParts(): seq<seq<byte>> {
      [LE8(anchor.height), anchor.root, nullifiers[0], nullifiers[1], commitments[0], commitments[1],
       encOutputs[0], encOutputs[1]]
    }

    function BindingDigest(): Digest { HashParts(TxBinding, BindingParts()) }

    function ToPublicInputs(): SpendPublicInputs {
      SpendPublicInputs(anchor, nullifiers, commitments, BindingDigest(), 0)
    }
  }

  /** The stream hashed into the binding digest determines every field it covers: all but the proof
      and the anti-spam body. */
  lemma BindingDetermines(t: TxV1, u: TxV1)
    requires |t.encOutputs[0]| < TWO64 && |t.encOutputs[1]| < TWO64
    requires |u.encOutputs[0]| < TWO64 && |u.encOutputs[1]| < TWO64
    requires Frame(t.BindingParts()) == Frame(u.BindingParts())
    ensures u == t.(antispam := u.antispam, proof := u.proof)
  {
    hide Frame, LE8;
    var p, q := t.BindingParts(), u.BindingParts();
    FrameInjective(p, q);
    assert p[0] == q[0] && p[1] == q[1] && p[2] == q[2] && p[3] == q[3];
    assert p[4] == q[4] && p[5] == q[5] && p[6] == q[6] && p[7] == q[7];
    LE8Injective(t.anchor.height, u.anchor.height);
    PairEquality(t.nullifiers, u.nullifiers);
    PairEquality(t.commitments, u.commitments);
    PairEquality(t.encOutputs, u.encOutputs);
  }

  method PushAll(parts: seq<seq<byte>>, more: seq<seq<byte>>) returns (all: seq<seq<byte>>)
    ensures all == parts + more
  {
    all := parts;
    for i := 0 to |more|
      invariant all == parts + more[..i]
    {
      all := all + [more[i]];
    }
  }

  /** `binding_digest`: the parts pushed one list after the other, then hashed. */
  method ComputeBindingDigest(tx: TxV1) returns (digest: Digest)
    ensures digest == tx.BindingDigest()
  {
    hide HashParts, LE8;
    var parts := [LE8(tx.anchor.height), tx.anchor.root];
    parts := PushAll(parts, tx.nullifiers);
    parts := PushAll(parts, tx.commitments);
    parts := PushAll(parts, tx.encOutputs);
    assert parts == tx.BindingParts();
    digest := ComputeHashParts(TxBinding, parts);
  }

  lemma PairEquality<T>(s: seq<T>, t: seq<T>)
    requires |s| == |t| == 2 && s[0] == t[0] && s[1] == t[1]
    ensures s == t
  {
  }

  // ---------- the proof-of-work lane ----------

  function PowHash(challenge: Digest, nonce: u64): Digest { HashParts(Pow, [challenge, LE8(nonce)]) }

  function LeadingZeros(b: byte): nat {
    if b >= 128 then 0 else if b >= 64 then 1 else if b >= 32 then 2 else if b >= 16 then 3
    else if b >= 8 then 4 else if b >= 4 then 5 else if b >= 2 then 6 else if b >= 1 then 7 else 8
  }

  function LeadingZeroBits(h: seq<byte>): nat {
    if h == [] then 0 else if h[0] == 0 then 8 + LeadingZeroBits(h[1..]) else LeadingZeros(h[0])
  }

  /** The loop of `leading_zero_bits`: whole zero bytes, then the first other byte. */
  method CountLeadingZeroBits(h: seq<byte>) returns (bits: nat)
    ensures bits == LeadingZeroBits(h)
  {
    bits := 0;
    for i := 0 to |h|
      invariant bits + LeadingZeroBits(h[i..]) == LeadingZeroBits(h)
    {
      assert h[i..][1..] == h[i + 1..];
      if h[i] == 0 {
        bits := bits + 8;
      } else {
        bits := bits + LeadingZeros(h[i]);
        return;
      }
    }
  }

  /** A byte string read as a number, most significant byte first. */
  function BigEndian(h: seq<byte>): nat {
    if h == [] then 0 else h[0] as nat * Pow2(8 * (|h| - 1)) + BigEndian(h[1..])
  }

  lemma {:induction false} BigEndianBound(h: seq<byte>)
    ensures BigEndian(h) < Pow2(8 * |h|)
  {
    if h == [] {
    } else {
      BigEndianBound(h[1..]);
      EightBits();
      hide Pow2;
      Pow2Plus(8, 8 * (|h| - 1));
      TopDigit(h[0] as int, Pow2(8), Pow2(8 * (|h| - 1)), BigEndian(h[1..]));
    }
  }

  /** A number below b^(n+1) is its top digit below b and a rest below b^n. */
  lemma TopDigit(d: int, b: int, m: int, low: int)
    requires d < b && 0 <= low < m
    ensures d * m <= d * m + low < b * m
  {
    MulMono(d + 1, b, m);
  }

  lemma EightBits()
    ensures Pow2(8) == 256 && Pow2(7) == 128 && Pow2(6) == 64 && Pow2(5) == 32 && Pow2(4) == 16
    ensures Pow2(3) == 8 && Pow2(2) == 4 && Pow2(1) == 2 && Pow2(0) == 1
  {
  }

  /** A nonzero byte with z leading zeros lies between 2^(7-z) and 2^(8-z). */
  lemma LeadingZerosBound(b: byte)
    requires b > 0
    ensures LeadingZeros(b) < 8 && Pow2(7 - LeadingZeros(b)) <= b as nat < Pow2(8 - LeadingZeros(b))
  {
    EightBits();
  }

  /** What the puzzle asks: d leading zero bits mean the hash, as a number, is below 2^(bits - d). */
  lemma {:induction false} LeadingZeroBitsExactly(h: seq<byte>, d: nat)
    requires d <= 8 * |h|
    ensures LeadingZeroBits(h) >= d <==> BigEndian(h) < Pow2(8 * |h| - d)
  {
    hide Pow2, LeadingZeros;
    if h != [] {
      var rest, n := h[1..], 8 * (|h| - 1);
      BigEndianBound(rest);
      if h[0] == 0 {
        if d <= 8 {
          Pow2Mono(n, 8 * |h| - d);
        } else {
          LeadingZeroBitsExactly(rest, d - 8);
        }
      } else {
        FirstByteDecides(h[0], BigEndian(rest), n, d);
      }
    } else {
      EightBits();
    }
  }

  lemma FirstByteDecides(b: byte, low: nat, n: nat, d: nat)
    requires b > 0 && low < Pow2(n) && d <= n + 8
    ensures LeadingZeros(b) >= d <==> b as nat * Pow2(n) + low < Pow2(n + 8 - d)
  {
    hide Pow2, LeadingZeros;
    var z := LeadingZeros(b);
    LeadingZerosBound(b);
    if d <= z {
      TopDigit(b as int, Pow2(8 - z), Pow2(n), low);
      Pow2Plus(8 - z, n);
      Pow2Mono(8 - z + n, n + 8 - d);
    } else {
      MulMono(Pow2(7 - z), b as int, Pow2(n));
      Pow2Plus(7 - z, n);
      Pow2Mono(n + 8 - d, 7 - z + n);
    }
  }

  predicate PowVerify(challenge: Digest, nonce: u64, difficultyBits: nat) {
    LeadingZeroBits(PowHash(challenge, nonce)) >= difficultyBits
  }

  // ---------- stateless validation ----------

  datatype TxError = Malformed | NullifierOrder | PowInvalid | QuotaInvalid | ProofInvalid | ProofSize

  function ValidateStateless(tx: TxV1, verifier: Verifier, difficultyBits: nat): Result<(), TxError> {
    if |tx.proof| != PROOF_BUCKET then Err(ProofSize)
    else if !Less(tx.nullifiers[0], tx.nullifiers[1]) then Err(NullifierOrder)
    else
      match tx.antispam
      case PowLane(nonce) =>
        if !PowVerify(tx.BindingDigest(), nonce, difficultyBits) then Err(PowInvalid)
        else ValidateProof(tx, verifier)
      case QuotaLane(rp) =>
        if rp.x != MessageX(tx.BindingDigest()) then Err(QuotaInvalid)
        else ValidateProof(tx, verifier)
  }

  function ValidateProof(tx: TxV1, verifier: Verifier): Result<(), TxError> {
    if verifier(tx.ToPublicInputs(), tx.proof) then Ok(()) else Err(ProofInvalid)
  }

  /** Exactly what a stateless pass guarantees. */
  lemma StatelessMeans(tx: TxV1, verifier: Verifier, difficultyBits: nat)
    ensures ValidateStateless(tx, verifier, difficultyBits).Ok? <==>
              && |tx.proof| == PROOF_BUCKET
              && tx.nullifiers[0] != tx.nullifiers[1] && Less(tx.nullifiers[0], tx.nullifiers[1])
              && (tx.antispam.PowLane? ==> PowVerify(tx.BindingDigest(), tx.antispam.nonce, difficultyBits))
              && (tx.antispam.QuotaLane? ==> tx.antispam.proof.x == MessageX(tx.BindingDigest()))
              && verifier(tx.ToPublicInputs(), tx.proof)
  {
    hide Less, PowVerify, MessageX;
    LessTrichotomy(tx.nullifiers[0], tx.nullifiers[1]);
  }

  /** Which error a transaction gets: the first failing check, in the order size, nullifiers, lane, proof. */
  lemma StatelessErrors(tx: TxV1, verifier: Verifier, difficultyBits: nat)
    ensures var r, shaped := ValidateStateless(tx, verifier, difficultyBits),
              |tx.proof| == 192 && Less(tx.nullifiers[0], tx.nullifiers[1]);
            && (r == Err(ProofSize) <==> |tx.proof| != 192)
            && (r == Err(NullifierOrder) <==> |tx.proof| == 192 && !Less(tx.nullifiers[0], tx.nullifiers[1]))
            && (r == Err(PowInvalid) <==>
                  shaped && tx.antispam.PowLane?
                  && !PowVerify(tx.BindingDigest(), tx.antispam.nonce, difficultyBits))
            && (r == Err(QuotaInvalid) <==>
                  shaped && tx.antispam.QuotaLane? && tx.antispam.proof.x != MessageX(tx.BindingDigest()))
            && (r == Err(ProofInvalid) <==>
                  shaped && !verifier(tx.ToPublicInputs(), tx.proof)
                  && (tx.antispam.PowLane? ==> PowVerify(tx.BindingDigest(), tx.antispam.nonce, difficultyBits))
                  && (tx.antispam.QuotaLane? ==> tx.antispam.proof.x == MessageX(tx.BindingDigest())))
            && r != Err(Malformed)
  {
    hide Less, PowVerify, MessageX, HashParts;
  }

  /** The puzzle at difficulty d up to 256: the hash of challenge and nonce, as a number, is below 2^(256-d). */
  lemma PowVerifyExactly(challenge: Digest, nonce: u64, difficultyBits: nat)
    ensures difficultyBits <= 256 ==>
              (PowVerify(challenge, nonce, difficultyBits) <==>
                 BigEndian(HashParts(Pow, [challenge, LE8(nonce)])) < Pow2(256 - difficultyBits))
    ensures difficultyBits > 256 ==> !PowVerify(challenge, nonce, difficultyBits)
  {
    hide HashParts, Pow2, BigEndian;
    var h := PowHash(challenge, nonce);
    LeadingZeroBitsBound(h);
    if difficultyBits <= 256 {
      LeadingZeroBitsExactly(h, difficultyBits);
    }
  }

  lemma {:induction false} LeadingZeroBitsBound(h: seq<byte>)
    ensures LeadingZeroBits(h) <= 8 * |h|
  {
    if h == [] {
    } else {
      LeadingZeroBitsBound(h[1..]);
    }
  }
}
