/** crates/interfaces: shared types and constants, and the encoding a proof is bound to. */
module Interfaces {
  import opened Bytes

  const TREE_DEPTH: nat := 32
  const ANCHOR_WINDOW: nat := 1024
  const MAX_MONEY: nat := 0x4000_0000_0000_0000
  const TX_INPUTS: nat := 2
  const TX_OUTPUTS: nat := 2
  const PROOF_BUCKET: nat := 192

  type Commitment = Digest
  type Nullifier = Digest

  const ZERO_DIGEST: Digest := Zeros(32)

  datatype Anchor = Anchor(height: u64, root: Digest)

  type Siblings = s: seq<Digest> | |s| == 32 witness seq(32, _ => ZERO_DIGEST)

  datatype MerklePath = MerklePath(position: u64, siblings: Siblings)

  datatype SpendPublicInputs = SpendPublicInputs(
    anchor: Anchor,
    nullifiers: seq<Nullifier>,
    commitments: seq<Commitment>,
    bindingDigest: Digest,
    mintValue: u64)

  /** `SpendVerifier::verify`, reduced to accept or reject. */
  type Verifier = (SpendPublicInputs, seq<byte>) -> bool

  lemma {:induction false} DigestsLength(ds: seq<Digest>)
    ensures |Flatten(ds)| == 32 * |ds|
  {
    if ds == [] {
    } else {
      DigestsLength(ds[..|ds| - 1]);
    }
  }

  lemma {:induction false} DigestsInjective(a: seq<Digest>, b: seq<Digest>)
    requires |a| == |b| && Flatten(a) == Flatten(b)
    ensures a == b
  {
    if a == [] {
    } else {
      var n := |a| - 1;
      DigestsLength(a[..n]);
      DigestsLength(b[..n]);
      assert Flatten(a)[..32 * n] == Flatten(a[..n]) && Flatten(b)[..32 * n] == Flatten(b[..n]);
      assert Flatten(a)[32 * n..] == a[n] && Flatten(b)[32 * n..] == b[n];
      DigestsInjective(a[..n], b[..n]);
      assert a == a[..n] + [a[n]] && b == b[..n] + [b[n]];
    }
  }

  function TailBytes(pi: SpendPublicInputs): seq<byte> { pi.bindingDigest + LE8(pi.mintValue) }

  /** A list's length truncated to one byte, its digests, and what follows. */
  function ListBytes(ds: seq<Digest>, rest: seq<byte>): seq<byte> {
    [(|ds| % 256) as byte] + (Flatten(ds) + rest)
  }

  /** The canonical encoding. */
  function EncodePublicInputs(pi: SpendPublicInputs): seq<byte> {
    LE8(pi.anchor.height) + (pi.anchor.root + ListBytes(pi.nullifiers, ListBytes(pi.commitments, TailBytes(pi))))
  }

  method Encode(pi: SpendPublicInputs) returns (out: seq<byte>)
    ensures out == EncodePublicInputs(pi)
  {
    hide LE8, Flatten;
    out := LE8(pi.anchor.height);
    out := out + pi.anchor.root;
    out := out + [(|pi.nullifiers| % 256) as byte];
    var withNullifiers := AppendAll(out, pi.nullifiers);
    out := withNullifiers + [(|pi.commitments| % 256) as byte];
    var withCommitments := AppendAll(out, pi.commitments);
    out := withCommitments + pi.bindingDigest;
    out := out + LE8(pi.mintValue);
    var tail := TailBytes(pi);
    assert out == withCommitments + tail;
    assert withCommitments + tail == withNullifiers + ListBytes(pi.commitments, tail);
    assert out == EncodePublicInputs(pi);
  }

  lemma ListBytesInjective(a: seq<Digest>, r: seq<byte>, b: seq<Digest>, t: seq<byte>)
    requires |a| < 256 && |b| < 256 && ListBytes(a, r) == ListBytes(b, t)
    ensures a == b && r == t
  {
    hide Flatten;
    assert ListBytes(a, r)[0] as int == |a| && ListBytes(b, t)[0] as int == |b|;
    CutAt([(|a| % 256) as byte], Flatten(a) + r, [(|b| % 256) as byte], Flatten(b) + t);
    DigestsLength(a);
    DigestsLength(b);
    CutAt(Flatten(a), r, Flatten(b), t);
    DigestsInjective(a, b);
  }

  /** A proof binds every public input as long as neither list is longer than 255. */
  lemma EncodeInjective(a: SpendPublicInputs, b: SpendPublicInputs)
    requires |a.nullifiers| < 256 && |a.commitments| < 256 && |b.nullifiers| < 256 && |b.commitments| < 256
    requires EncodePublicInputs(a) == EncodePublicInputs(b)
    ensures a == b
  {
    hide LE8, ListBytes;
    var outsA, outsB := ListBytes(a.commitments, TailBytes(a)), ListBytes(b.commitments, TailBytes(b));
    var insA, insB := ListBytes(a.nullifiers, outsA), ListBytes(b.nullifiers, outsB);
    CutAt(LE8(a.anchor.height), a.anchor.root + insA, LE8(b.anchor.height), b.anchor.root + insB);
    LE8Injective(a.anchor.height, b.anchor.height);
    CutAt(a.anchor.root, insA, b.anchor.root, insB);
    ListBytesInjective(a.nullifiers, outsA, b.nullifiers, outsB);
    ListBytesInjective(a.commitments, TailBytes(a), b.commitments, TailBytes(b));
    CutAt(a.bindingDigest, LE8(a.mintValue), b.bindingDigest, LE8(b.mintValue));
    LE8Injective(a.mintValue, b.mintValue);
  }

  lemma {:induction false} FlattenZeros(ds: seq<Digest>)
    requires forall i :: 0 <= i < |ds| ==> ds[i] == ZERO_DIGEST
    ensures forall i :: 0 <= i < |Flatten(ds)| ==> Flatten(ds)[i] == 0
  {
    if ds == [] {
    } else {
      FlattenZeros(ds[..|ds| - 1]);
    }
  }

  /** Both lists have at most n entries. */
  predicate AtMost(pi: SpendPublicInputs, n: nat) { |pi.nullifiers| <= n && |pi.commitments| <= n }

  ghost predicate InjectiveUpTo(n: nat) {
    forall a, b :: AtMost(a, n) && AtMost(b, n) && EncodePublicInputs(a) == EncodePublicInputs(b) ==> a == b
  }

  /** The encoding determines the public inputs of lists up to n exactly when n fits in one byte. */
  lemma EncodeInjectiveExactly(n: nat)
    ensures InjectiveUpTo(n) <==> n < 256
  {
    hide EncodePublicInputs;
    if n < 256 {
      forall a, b | AtMost(a, n) && AtMost(b, n) && EncodePublicInputs(a) == EncodePublicInputs(b)
        ensures a == b
      {
        EncodeInjective(a, b);
      }
    } else {
      var a, b := EncodeCollidesAt256();
      assert AtMost(a, n) && AtMost(b, n);
    }
  }

  /** A zero length byte and 256 zero digests read the same in either order. */
  lemma ListsSwap(zeros: seq<Digest>, tail: seq<byte>)
    requires |zeros| == 256 && forall i :: 0 <= i < |zeros| ==> zeros[i] == ZERO_DIGEST
    ensures ListBytes(zeros, ListBytes([], tail)) == ListBytes([], ListBytes(zeros, tail))
  {
    var body, zero := Flatten(zeros), [0 as byte];
    FlattenZeros(zeros);
    assert Flatten([]) == [];
    hide Flatten;
    ZerosCommute(body, zero);
    assert ListBytes([], tail) == zero + tail;
    assert ListBytes(zeros, zero + tail) == zero + ((body + zero) + tail);
    assert ListBytes(zeros, tail) == zero + (body + tail);
    assert ListBytes([], zero + (body + tail)) == zero + ((zero + body) + tail);
  }

  lemma ZerosCommute(a: seq<byte>, b: seq<byte>)
    requires (forall i :: 0 <= i < |a| ==> a[i] == 0) && forall i :: 0 <= i < |b| ==> b[i] == 0
    ensures a + b == b + a
  {
  }

  /** At 256 entries the one-byte length wraps to zero and two different public inputs share an encoding. */
  lemma EncodeCollidesAt256() returns (a: SpendPublicInputs, b: SpendPublicInputs)
    ensures |a.nullifiers| == |b.commitments| == 256 && a.commitments == b.nullifiers == []
    ensures a != b && EncodePublicInputs(a) == EncodePublicInputs(b)
  {
    hide ListBytes, LE8;
    var zeros: seq<Digest> := seq(256, _ => ZERO_DIGEST);
    a := SpendPublicInputs(Anchor(0, ZERO_DIGEST), zeros, [], ZERO_DIGEST, 0);
    b := SpendPublicInputs(Anchor(0, ZERO_DIGEST), [], zeros, ZERO_DIGEST, 0);
    ListsSwap(zeros, TailBytes(a));
    assert |a.nullifiers| == 256 && |b.nullifiers| == 0;
  }
}
