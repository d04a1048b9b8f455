/** crates/tx: the fixed-length wire format, its printer and its cursor parser. */
module Codec {
  import opened Bytes
  import opened Interfaces
  import opened Quota
  import opened Tx

  const ANTISPAM_BODY_LEN: nat := RATE_PROOF_LEN
  const POW_TAG: byte := 1
  const QUOTA_TAG: byte := 2
  const ENCODED_LEN: nat := 2964

  // ---------- anti-spam lanes ----------

  function Tag(a: AntiSpam): byte { if a.PowLane? then POW_TAG else QUOTA_TAG }

  function Body(a: AntiSpam): (b: seq<byte>)
    ensures |b| == ANTISPAM_BODY_LEN
  {
    match a
    case PowLane(nonce) => LE8(nonce) + Zeros(48)
    case QuotaLane(rp) => ToBytes(rp)
  }

  /** `body`: a zeroed buffer, its head or all of it overwritten. */
  method WriteBody(a: AntiSpam) returns (b: array<byte>)
    ensures fresh(b) && b[..] == Body(a)
  {
    hide LE8, ToBytes;
    b := new byte[ANTISPAM_BODY_LEN](_ => 0);
    match a
    case PowLane(nonce) => CopyInto(b, 0, LE8(nonce));
    case QuotaLane(rp) =>
      var bytes := WriteBytes(rp);
      CopyInto(b, 0, bytes[..]);
  }

  function FromWire(tag: byte, body: seq<byte>): Result<AntiSpam, TxError>
    requires |body| == ANTISPAM_BODY_LEN
  {
    if tag == POW_TAG then
      if exists i :: 8 <= i < |body| && body[i] != 0 then Err(Malformed)
      else Ok(PowLane(FromLE8(body[..8])))
    else if tag == QUOTA_TAG then Ok(QuotaLane(FromBytes(body)))
    else Err(Malformed)
  }

  /** The wire form of a lane parses back to it, and nothing else parses to it. */
  lemma WireExact(a: AntiSpam, tag: byte, body: seq<byte>)
    requires |body| == ANTISPAM_BODY_LEN
    ensures FromWire(tag, body) == Ok(a) <==> tag == Tag(a) && body == Body(a)
  {
    hide LE8, FromLE8, ToBytes, FromBytes;
    if tag == Tag(a) && body == Body(a) {
      match a
      case PowLane(nonce) =>
        assert body[..8] == LE8(nonce);
        LE8RoundTrip(nonce);
        assert forall i :: 8 <= i < |body| ==> body[i] == Zeros(48)[i - 8];
      case QuotaLane(rp) => RateProofRoundTrip(rp);
    }
    if FromWire(tag, body) == Ok(a) && a.PowLane? {
      assert body == body[..8] + body[8..];
      assert body[8..] == Zeros(48);
    }
  }

  // ---------- transactions ----------

  predicate WellSized(tx: TxV1) {
    |tx.encOutputs[0]| == |tx.encOutputs[1]| == ENC_OUTPUT_LEN && |tx.proof| == PROOF_BUCKET
  }

  function EncodeTx(tx: TxV1): seq<byte> {
    [1] + (LE8(tx.anchor.height) + (tx.anchor.root
    + (Flatten(tx.nullifiers) + (Flatten(tx.commitments) + (Flatten(tx.encOutputs)
    + ([Tag(tx.antispam)] + (Body(tx.antispam) + tx.proof)))))))
  }

  method Encode(tx: TxV1) returns (b: seq<byte>)
    ensures b == EncodeTx(tx)
  {
    hide Body, LE8;
    b := [1];
    b := b + LE8(tx.anchor.height);
    b := b + tx.anchor.root;
    var nullifiers := AppendAll(b, tx.nullifiers);
    var commitments := AppendAll(nullifiers, tx.commitments);
    b := AppendAll(commitments, tx.encOutputs);
    b := b + [Tag(tx.antispam)];
    var body := WriteBody(tx.antispam);
    b := b + body[..];
    b := b + tx.proof;
    assert b == EncodeTx(tx);
  }

  // ---------- what the bytes of a transaction are ----------

  /** Where each field of a well-sized transaction lies. */
  ghost predicate Layout(b: seq<byte>, tx: TxV1) {
    && |b| == ENCODED_LEN
    && b[0] == 1
    && b[1..9] == LE8(tx.anchor.height)
    && b[9..41] == tx.anchor.root
    && b[41..73] == tx.nullifiers[0] && b[73..105] == tx.nullifiers[1]
    && b[105..137] == tx.commitments[0] && b[137..169] == tx.commitments[1]
    && b[169..1442] == tx.encOutputs[0] && b[1442..2715] == tx.encOutputs[1]
    && b[2715] == Tag(tx.antispam)
    && b[2716..2772] == Body(tx.antispam)
    && b[2772..] == tx.proof
  }

  lemma CutPair(pair: seq<seq<byte>>, rest: seq<byte>, b: seq<byte>, at: nat, n: nat)
    requires |pair| == 2 && |pair[0]| == |pair[1]| == n && at + 2 * n <= |b|
    requires Flatten(pair) + rest == b[at..]
    ensures b[at..at + n] == pair[0] && b[at + n..at + 2 * n] == pair[1] && b[at + 2 * n..] == rest
  {
    FlattenPair(pair);
    assert b[at..] == b[at..at + n] + (b[at + n..at + 2 * n] + b[at + 2 * n..]);
    assert Flatten(pair) + rest == pair[0] + (pair[1] + rest);
    CutAt(pair[0], pair[1] + rest, b[at..at + n], b[at + n..at + 2 * n] + b[at + 2 * n..]);
    CutAt(pair[1], rest, b[at + n..at + 2 * n], b[at + 2 * n..]);
  }

  lemma CutField(field: seq<byte>, rest: seq<byte>, b: seq<byte>, at: nat, to: nat)
    requires at <= to <= |b| && |field| == to - at
    requires field + rest == b[at..]
    ensures b[at..to] == field && b[to..] == rest
  {
  }

  lemma JoinPair(pair: seq<seq<byte>>, b: seq<byte>, at: nat, n: nat)
    requires |pair| == 2 && at + 2 * n <= |b|
    requires b[at..at + n] == pair[0] && b[at + n..at + 2 * n] == pair[1]
    ensures Flatten(pair) + b[at + 2 * n..] == b[at..]
  {
    FlattenPair(pair);
  }

  lemma EncodedLength(tx: TxV1)
    requires WellSized(tx)
    ensures |EncodeTx(tx)| == ENCODED_LEN
  {
    hide LE8, Flatten, Body;
    FlattenPair(tx.nullifiers);
    FlattenPair(tx.commitments);
    FlattenPair(tx.encOutputs);
  }

  lemma EncodeHasLayout(tx: TxV1, b: seq<byte>)
    requires WellSized(tx) && b == EncodeTx(tx)
    ensures Layout(b, tx)
  {
    hide LE8, Flatten, Body, Tag;
    EncodedLength(tx);
    var tail := [Tag(tx.antispam)] + (Body(tx.antispam) + tx.proof);
    var outs := Flatten(tx.commitments) + (Flatten(tx.encOutputs) + tail);
    var ins := Flatten(tx.nullifiers) + outs;
    assert b[0..] == b;
    CutField([1], LE8(tx.anchor.height) + (tx.anchor.root + ins), b, 0, 1);
    CutField(LE8(tx.anchor.height), tx.anchor.root + ins, b, 1, 9);
    CutField(tx.anchor.root, ins, b, 9, 41);
    CutPair(tx.nullifiers, outs, b, 41, 32);
    CutPair(tx.commitments, Flatten(tx.encOutputs) + tail, b, 105, 32);
    CutPair(tx.encOutputs, tail, b, 169, ENC_OUTPUT_LEN);
    CutField([Tag(tx.antispam)], Body(tx.antispam) + tx.proof, b, 2715, 2716);
    CutField(Body(tx.antispam), tx.proof, b, 2716, 2772);
    assert b[0] == b[0..1][0] && b[2715] == b[2715..2716][0];
  }

  /** The lane inside an encoded transaction, byte by byte. */
  lemma LaneLayout(tx: TxV1, b: seq<byte>)
    requires WellSized(tx) && b == EncodeTx(tx)
    ensures |b| == 2964
    ensures tx.antispam.PowLane? ==>
              && b[2715] == 1 && b[2716..2724] == LE8(tx.antispam.nonce)
              && forall i :: 2724 <= i < 2772 ==> b[i] == 0
    ensures tx.antispam.QuotaLane? ==>
              var rp := tx.antispam.proof;
              && b[2715] == 2 && b[2716..2724] == LE8(rp.epoch) && b[2724..2756] == rp.rateNullifier
              && b[2756..2764] == LE8(rp.x) && b[2764..2772] == LE8(rp.y)
  {
    EncodeHasLayout(tx, b);
    hide LE8, EncodeTx, ToBytes;
    var body := b[2716..2772];
    match tx.antispam
    case PowLane(nonce) =>
      assert body == LE8(nonce) + Zeros(48);
      assert forall i :: 2724 <= i < 2772 ==> b[i] == body[i - 2716] == Zeros(48)[i - 2724];
      assert b[2716..2724] == body[..8];
    case QuotaLane(rp) =>
      BytesLayout(rp);
      assert b[2716..2724] == body[..8] && b[2724..2756] == body[8..40];
      assert b[2756..2764] == body[40..48] && b[2764..2772] == body[48..];
  }

  lemma LayoutIsEncode(tx: TxV1, b: seq<byte>)
    requires Layout(b, tx)
    ensures WellSized(tx) && b == EncodeTx(tx)
  {
    hide LE8, Flatten, Body, Tag;
    JoinPair(tx.nullifiers, b, 41, 32);
    JoinPair(tx.commitments, b, 105, 32);
    JoinPair(tx.encOutputs, b, 169, ENC_OUTPUT_LEN);
    assert b[2715..] == [b[2715]] + (b[2716..2772] + b[2772..]);
    assert b[1..] == b[1..9] + (b[9..41] + b[41..]);
    assert b == [b[0]] + b[1..];
  }

  /** `encode` is injective on transactions of the fixed shape. */
  lemma EncodeTxInjective(t: TxV1, u: TxV1)
    requires WellSized(t) && WellSized(u) && EncodeTx(t) == EncodeTx(u)
    ensures t == u
  {
    hide LE8, Body, Tag, EncodeTx;
    var b := EncodeTx(t);
    EncodeHasLayout(t, b);
    EncodeHasLayout(u, b);
    LE8Injective(t.anchor.height, u.anchor.height);
    PairEquality(t.nullifiers, u.nullifiers);
    PairEquality(t.commitments, u.commitments);
    PairEquality(t.encOutputs, u.encOutputs);
    WireExact(t.antispam, b[2715], b[2716..2772]);
    WireExact(u.antispam, b[2715], b[2716..2772]);
  }

  // ---------- the parser ----------

  /** No transaction of the fixed shape has this encoding. */
  ghost predicate Foreign(bytes: seq<byte>) {
    forall tx: TxV1 :: WellSized(tx) ==> EncodeTx(tx) != bytes
  }

  lemma ForeignWhen(bytes: seq<byte>)
    requires || |bytes| != ENCODED_LEN || bytes[0] != 1 || FromWire(bytes[2715], bytes[2716..2772]).Err?
    ensures Foreign(bytes)
  {
    hide LE8, Body, Tag, EncodeTx, FromWire;
    forall tx: TxV1 | WellSized(tx)
      ensures EncodeTx(tx) != bytes
    {
      if EncodeTx(tx) == bytes {
        EncodeHasLayout(tx, bytes);
        WireExact(tx.antispam, bytes[2715], bytes[2716..2772]);
      }
    }
  }

  method Take(bytes: seq<byte>, cur: nat, n: nat) returns (slice: Option<seq<byte>>, next: nat)
    ensures slice.Some? <==> cur + n <= |bytes|
    ensures slice.Some? ==> slice.value == bytes[cur..cur + n] && next == cur + n
  {
    if cur + n > |bytes| {
      return None, cur;
    }
    return Some(bytes[cur..cur + n]), cur + n;
  }

  /** `decode` accepts exactly the image of `encode` on well-sized transactions, and inverts it. */
  method Decode(bytes: seq<byte>) returns (r: Result<TxV1, TxError>)
    ensures r.Ok? ==> WellSized(r.value) && EncodeTx(r.value) == bytes
    ensures r.Err? ==> r.error == Malformed && Foreign(bytes)
  {
    hide LE8, FromLE8, EncodeTx, FromWire, Foreign, WellSized, Tag, Body;
    var cur := 0;
    var s;
    s, cur := Take(bytes, cur, 1);
    if s.None? || s.value[0] != 1 { ForeignWhen(bytes); return Err(Malformed); }
    s, cur := Take(bytes, cur, 8);
    if s.None? { ForeignWhen(bytes); return Err(Malformed); }
    var height := FromLE8(s.value);
    s, cur := Take(bytes, cur, 32);
    if s.None? { ForeignWhen(bytes); return Err(Malformed); }
    var root: Digest := s.value;
    var nullifiers: seq<Digest> := [];
    for i := 0 to TX_INPUTS
      invariant |nullifiers| == i && cur == 41 + 32 * i && cur <= |bytes|
      invariant forall j :: 0 <= j < i ==> nullifiers[j] == bytes[41 + 32 * j..73 + 32 * j]
    {
      s, cur := Take(bytes, cur, 32);
      if s.None? { ForeignWhen(bytes); return Err(Malformed); }
      nullifiers := nullifiers + [s.value];
    }
    var commitments: seq<Digest> := [];
    for i := 0 to TX_OUTPUTS
      invariant |commitments| == i && cur == 105 + 32 * i && cur <= |bytes|
      invariant forall j :: 0 <= j < i ==> commitments[j] == bytes[105 + 32 * j..137 + 32 * j]
    {
      s, cur := Take(bytes, cur, 32);
      if s.None? { ForeignWhen(bytes); return Err(Malformed); }
      commitments := commitments + [s.value];
    }
    s, cur := Take(bytes, cur, ENC_OUTPUT_LEN);
    if s.None? { ForeignWhen(bytes); return Err(Malformed); }
    var enc0 := s.value;
    s, cur := Take(bytes, cur, ENC_OUTPUT_LEN);
    if s.None? { ForeignWhen(bytes); return Err(Malformed); }
    var enc1 := s.value;
    s, cur := Take(bytes, cur, 1);
    if s.None? { ForeignWhen(bytes); return Err(Malformed); }
    var tag := s.value[0];
    s, cur := Take(bytes, cur, ANTISPAM_BODY_LEN);
    if s.None? { ForeignWhen(bytes); return Err(Malformed); }
    var body := s.value;
    var antispam := FromWire(tag, body);
    if antispam.Err? { ForeignWhen(bytes); return Err(Malformed); }
    s, cur := Take(bytes, cur, PROOF_BUCKET);
    if s.None? || cur != |bytes| { ForeignWhen(bytes); return Err(Malformed); }
    var tx := TxV1(Anchor(height, root), nullifiers, commitments, [enc0, enc1], antispam.value, s.value);
    WireExact(antispam.value, tag, body);
    assert Layout(bytes, tx);
    LayoutIsEncode(tx, bytes);
    r := Ok(tx);
  }

  /** Round trip through the wire. */
  method EncodeThenDecode(tx: TxV1) returns (r: Result<TxV1, TxError>)
    requires WellSized(tx)
    ensures r == Ok(tx)
  {
    var b := Encode(tx);
    r := Decode(b);
    if r.Ok? {
      EncodeTxInjective(tx, r.value);
    }
  }
}
