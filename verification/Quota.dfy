/** crates/antispam-quota: quota notes, rate proofs and the slot registry. */
module Quota {
  import opened Bytes
  import opened Hashing
  import opened Field
  import opened Mersenne
  import Modular

  const STAKE_PER_SLOT: nat := 1000
  const RATE_PROOF_LEN: nat := 56

  function FieldFrom(context: Context, parts: seq<seq<byte>>): Residue {
    Reduce(FromLE8(HashParts(context, parts)[..8]))
  }

  /** The Shamir x-coordinate of a message. */
  function MessageX(message: seq<byte>): Residue { FieldFrom(QuotaX, [message]) }

  datatype RateProof = RateProof(epoch: u64, rateNullifier: Digest, x: u64, y: u64)

  /** The 56-byte wire form of a rate proof. */
  function ToBytes(rp: RateProof): (b: seq<byte>)
    ensures |b| == RATE_PROOF_LEN
  {
    LE8(rp.epoch) + (rp.rateNullifier + (LE8(rp.x) + LE8(rp.y)))
  }

  /** A buffer with the bytes `t` written over it at `at`. */
  function Overwrite(s: seq<byte>, at: nat, t: seq<byte>): (r: seq<byte>)
    requires at + |t| <= |s|
    ensures |r| == |s|
  {
    s[..at] + t + s[at + |t|..]
  }

  lemma OverwriteNext(done: seq<byte>, rest: seq<byte>, t: seq<byte>)
    requires |t| <= |rest|
    ensures Overwrite(done + rest, |done|, t) == (done + t) + rest[|t|..]
  {
  }

  /** `copy_from_slice` into a part of a buffer. */
  method CopyInto(b: array<byte>, at: nat, s: seq<byte>)
    requires at + |s| <= b.Length
    modifies b
    ensures b[..] == Overwrite(old(b[..]), at, s)
  {
    for i := 0 to |s|
      invariant forall j :: 0 <= j < b.Length ==> b[j] == if at <= j < at + i then s[j - at] else old(b[j])
    {
      b[at + i] := s[i];
    }
  }

  /** `to_bytes`: the zeroed buffer filled field by field. */
  method WriteBytes(rp: RateProof) returns (b: array<byte>)
    ensures fresh(b) && b[..] == ToBytes(rp)
  {
    hide LE8, Overwrite;
    b := new byte[RATE_PROOF_LEN](_ => 0);
    ghost var zeros := b[..];
    CopyInto(b, 0, LE8(rp.epoch));
    CopyInto(b, 8, rp.rateNullifier);
    CopyInto(b, 40, LE8(rp.x));
    CopyInto(b, 48, LE8(rp.y));
    FourFields(zeros, LE8(rp.epoch), rp.rateNullifier, LE8(rp.x), LE8(rp.y));
  }

  lemma FourFields(zeros: seq<byte>, e: seq<byte>, n: seq<byte>, x: seq<byte>, y: seq<byte>)
    requires |zeros| == RATE_PROOF_LEN && |e| == |x| == |y| == 8 && |n| == 32
    ensures Overwrite(Overwrite(Overwrite(Overwrite(zeros, 0, e), 8, n), 40, x), 48, y) == e + (n + (x + y))
  {
    hide Overwrite;
    assert [] + zeros == zeros;
    OverwriteNext([], zeros, e);
    OverwriteNext([] + e, zeros[8..], n);
    OverwriteNext([] + e + n, zeros[8..][32..], x);
    OverwriteNext([] + e + n + x, zeros[8..][32..][8..], y);
  }

  function FromBytes(b: seq<byte>): (rp: RateProof)
    requires |b| == RATE_PROOF_LEN
    ensures ToBytes(rp) == b
  {
    RateProof(FromLE8(b[..8]), b[8..40], FromLE8(b[40..48]), FromLE8(b[48..]))
  }

  lemma RateProofRoundTrip(rp: RateProof)
    ensures FromBytes(ToBytes(rp)) == rp
  {
    hide LE8, FromLE8;
    var back := FromBytes(ToBytes(rp));
    CutAt(LE8(rp.epoch), rp.rateNullifier + (LE8(rp.x) + LE8(rp.y)),
          LE8(back.epoch), back.rateNullifier + (LE8(back.x) + LE8(back.y)));
    CutAt(rp.rateNullifier, LE8(rp.x) + LE8(rp.y), back.rateNullifier, LE8(back.x) + LE8(back.y));
    CutAt(LE8(rp.x), LE8(rp.y), LE8(back.x), LE8(back.y));
    LE8Injective(rp.epoch, back.epoch);
    LE8Injective(rp.x, back.x);
    LE8Injective(rp.y, back.y);
  }

  datatype QuotaError = QuotaExceeded(k: u64, quota: u64)

  datatype QuotaNote = QuotaNote(stake: u64, quotaKey: Digest) {
    function Quota(): u64 { if stake / STAKE_PER_SLOT >= 1 then stake / STAKE_PER_SLOT else 1 }
    function Secret(): Residue { FieldFrom(QuotaA0, [quotaKey]) }
    function Slope(epoch: u64): Residue { FieldFrom(QuotaA1, [quotaKey, LE8(epoch)]) }
    function RateNullifier(epoch: u64, k: u64): Digest { HashParts(QuotaRn, [quotaKey, LE8(epoch), LE8(k)]) }

    function Signal(epoch: u64, k: u64, message: seq<byte>): Result<RateProof, QuotaError> {
      if k >= Quota() then Err(QuotaExceeded(k, Quota()))
      else
        var x := MessageX(message);
        Ok(RateProof(epoch, RateNullifier(epoch, k), x, Share(Secret(), Slope(epoch), x)))
    }
  }

  /** What stake buys: slot k can be signed exactly when it is the first or a thousand units of stake stand
      behind each slot up to it; the refusal names the quota. */
  lemma SignalExactly(note: QuotaNote, epoch: u64, k: u64, message: seq<byte>)
    ensures var r := note.Signal(epoch, k, message);
            && (r.Ok? <==> k == 0 || 1000 * (k + 1) <= note.stake)
            && (r.Err? ==>
                  && r.error.k == k && k >= r.error.quota >= 1
                  && (r.error.quota == 1 || 1000 * r.error.quota <= note.stake)
                  && note.stake < 1000 * (r.error.quota + 1))
            && (r.Ok? ==> r.value.epoch == epoch && r.value.x == MessageX(message))
  {
    hide FieldFrom, HashParts, Share;
  }

  /** Where the fields of a rate proof lie in its 56 bytes. */
  lemma BytesLayout(rp: RateProof)
    ensures var b := ToBytes(rp);
            && |b| == 56 && b[..8] == LE8(rp.epoch) && b[8..40] == rp.rateNullifier
            && b[40..48] == LE8(rp.x) && b[48..] == LE8(rp.y)
  {
    hide LE8;
  }

  ghost function RateNullifierHash(note: QuotaNote, epoch: u64, k: u64): Preimage {
    PartsPreimage(QuotaRn, [note.quotaKey, LE8(epoch), LE8(k)])
  }

  /** A rate nullifier belongs to one key, one epoch and one slot number. */
  lemma RateNullifierBinds(log: set<Preimage>, m: QuotaNote, d: u64, j: u64, n: QuotaNote, e: u64, k: u64)
    requires CollisionFree(log) && RateNullifierHash(m, d, j) in log && RateNullifierHash(n, e, k) in log
    requires m.RateNullifier(d, j) == n.RateNullifier(e, k)
    ensures m.quotaKey == n.quotaKey && d == e && j == k
  {
    hide LE8;
    var p, q := [m.quotaKey, LE8(d), LE8(j)], [n.quotaKey, LE8(e), LE8(k)];
    HashPartsInjective(log, QuotaRn, p, QuotaRn, q);
    assert p[0] == q[0] && p[1] == q[1] && p[2] == q[2];
    LE8Injective(d, e);
    LE8Injective(j, k);
  }

  // ---------- the slot registry ----------

  datatype Admit = Admitted | Duplicate | Slash(recoveredSecret: u64)

  type Slot = (u64, Digest)
  type Slots = map<Slot, (u64, u64)>

  function SlotOf(proof: RateProof): Slot { (proof.epoch, proof.rateNullifier) }

  function AdmitResult(seen: Slots, proof: RateProof): Admit {
    if SlotOf(proof) !in seen then Admitted
    else
      var (x0, y0) := seen[SlotOf(proof)];
      if x0 == proof.x then Duplicate else Slash(Interpolate(x0, y0, proof.x, proof.y))
  }

  function AdmitSlots(seen: Slots, proof: RateProof): Slots {
    if SlotOf(proof) in seen then seen else seen[SlotOf(proof) := (proof.x, proof.y)]
  }

  class QuotaRegistry {
    var seen: Slots

    constructor ()
      ensures seen == map[]
    {
      seen := map[];
    }

    method Admit(proof: RateProof) returns (r: Admit)
      modifies this
      ensures r == AdmitResult(old(seen), proof)
      ensures seen == AdmitSlots(old(seen), proof)
    {
      hide InvSpec, Sub, Mul;
      var key := (proof.epoch, proof.rateNullifier);
      if key !in seen {
        seen := seen[key := (proof.x, proof.y)];
        return Admitted;
      }
      var (x0, y0) := seen[key];
      if x0 == proof.x {
        return Duplicate;
      }
      var dx := Sub(proof.x, x0);
      var dy := Sub(proof.y, y0);
      var inv := Inv(dx);
      var a1 := Mul(dy, inv);
      var a0 := Sub(y0, Mul(a1, x0));
      r := Slash(a0);
    }
  }

  /** Signing two messages with different x in one slot hands the registry the note's secret, whatever
      else it has seen in between. */
  lemma SlashRecoversSecret(note: QuotaNote, epoch: u64, k: u64, m0: seq<byte>, m1: seq<byte>, seen: Slots)
    requires k < note.Quota() && MessageX(m0) != MessageX(m1)
    requires var first := note.Signal(epoch, k, m0).value;
             SlotOf(first) in seen && seen[SlotOf(first)] == (first.x, first.y)
    ensures AdmitResult(seen, note.Signal(epoch, k, m1).value) == Slash(note.Secret())
  {
    hide FieldFrom, Share, Interpolate;
    SecretRecovered(note.Secret(), note.Slope(epoch), MessageX(m0), MessageX(m1));
  }

  /** The same for shares as they come over the wire, congruent to the note's line but not reduced: the
      secret is recovered exactly when the stored y is at most the new one plus P, or the stored x is 0. */
  lemma WireSlashExactly(note: QuotaNote, first: RateProof, second: RateProof, seen: Slots)
    requires SlotOf(first) == SlotOf(second) && SlotOf(first) in seen && seen[SlotOf(first)] == (first.x, first.y)
    requires first.x < P && second.x < P && first.x != second.x
    requires OnLine(note.Secret(), note.Slope(first.epoch), first.x, first.y)
    requires OnLine(note.Secret(), note.Slope(first.epoch), second.x, second.y)
    ensures AdmitResult(seen, second) == Slash(note.Secret()) <==> first.y <= second.y + P || first.x == 0
  {
    hide FieldFrom, Interpolate, OnLine;
    InterpolateExactly(note.Secret(), note.Slope(first.epoch), first.x, first.y, second.x, second.y);
  }

  /** A wire share whose y was raised by 2P is on the same line, keeps its x and fits 64 bits; stored first,
      it makes `admit` recover something else than the secret. */
  lemma RaisedShareMisses(note: QuotaNote, epoch: u64, k: u64, m0: seq<byte>, m1: seq<byte>)
    requires k < note.Quota() && MessageX(m0) != MessageX(m1) && MessageX(m0) != 0
    ensures var first := note.Signal(epoch, k, m0).value;
            && first.y + 2 * P < TWO64
            && var r := AdmitResult(AdmitSlots(map[], first.(y := first.y + 2 * P)), note.Signal(epoch, k, m1).value);
               r.Slash? && r != Slash(note.Secret())
  {
    hide FieldFrom, Share, Interpolate;
    var first, second := note.Signal(epoch, k, m0).value, note.Signal(epoch, k, m1).value;
    var raised := first.(y := first.y + 2 * P);
    ShareIsCong(note.Secret(), note.Slope(epoch), first.x);
    ShareIsCong(note.Secret(), note.Slope(epoch), second.x);
    Modular.CongBy(raised.y, first.y, 2, P);
    Modular.CongTrans(raised.y, first.y, note.Secret() + note.Slope(epoch) * first.x, P);
    WireSlashExactly(note, raised, second, AdmitSlots(map[], raised));
  }

  /** The first use of a slot is admitted and recorded; repeating the message is a duplicate. */
  lemma AdmitThenRepeat(seen: Slots, proof: RateProof)
    requires SlotOf(proof) !in seen
    ensures AdmitResult(seen, proof) == Admitted
    ensures AdmitResult(AdmitSlots(seen, proof), proof) == Duplicate
    ensures AdmitSlots(AdmitSlots(seen, proof), proof) == AdmitSlots(seen, proof)
  {
  }

  /** Only an admitted proof changes the registry, and nothing is ever forgotten or overwritten. */
  lemma AdmitMonotone(seen: Slots, proof: RateProof, slot: Slot)
    ensures AdmitSlots(seen, proof) != seen <==> AdmitResult(seen, proof) == Admitted
    ensures slot in seen ==> slot in AdmitSlots(seen, proof) && AdmitSlots(seen, proof)[slot] == seen[slot]
  {
  }
}
