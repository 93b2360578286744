/** The three attestation payloads and their fixed wire layouts (crates/ciel-signer/src/attestation.rs). */
module Attestation {
  import opened Prelude

  type Bytes4 = b: Bytes | |b| == 4 witness [0, 0, 0, 0]
  type Bytes32 = b: Bytes | |b| == 32 witness seq(32, i => 0)
  type Bytes64 = b: Bytes | |b| == 64 witness seq(64, i => 0)

  const CIEL_MAGIC: Bytes4 := [0x43, 0x49, 0x45, 0x4C]
  const POLICY_MAGIC: Bytes4 := [0x43, 0x49, 0x4C, 0x50]
  const OVERRIDE_MAGIC: Bytes4 := [0x43, 0x4C, 0x4F, 0x56]
  const ATTESTATION_VERSION: U8 := 1
  const TIMEOUT_SENTINEL: U16 := 0xFFFF
  const EXPIRY_SLOTS := 2

  datatype Verdict = Approve | Warn | Block | Timeout
  {
    function Code(): (c: U8)
    {
      match this
      case Approve => 0
      case Warn => 1
      case Block => 2
      case Timeout => 3
    }
  }

  datatype CielAttestation = CielAttestation(
    magic: Bytes4, version: U8, txHash: Bytes32, verdict: U8, safetyScore: U16, optimalityScore: U16,
    outputsHash: Bytes32, slot: U64, expirySlot: U64, signer: Bytes32, timestamp: I64, timeoutAtMs: U16)

  datatype PolicyAttestation = PolicyAttestation(
    magic: Bytes4, version: U8, policyHash: Bytes32, signer: Bytes32, issuedSlot: U64, expiresAt: I64, revoked: bool)

  datatype OverrideAttestation = OverrideAttestation(
    magic: Bytes4, version: U8, originalHash: Bytes32, overrideType: U8, overrider: Bytes32, slot: U64, timestamp: I64)

  /* ---------- constructors ---------- */

  /** `slot + 2` in u64 arithmetic without overflow checks. */
  function ExpirySlot(slot: U64): (e: U64)
  {
    (slot + EXPIRY_SLOTS) % TWO_64
  }

  function NewAttestation(txHash: Bytes32, verdict: Verdict, safety: U16, optimality: U16, outputsHash: Bytes32,
                          slot: U64, signer: Bytes32, timestamp: I64, timeoutAtMs: U16): (a: CielAttestation)
  {
    CielAttestation(CIEL_MAGIC, ATTESTATION_VERSION, txHash, verdict.Code(), safety, optimality, outputsHash,
                    slot, ExpirySlot(slot), signer, timestamp, timeoutAtMs)
  }

  function NewTimeout(txHash: Bytes32, outputsHash: Bytes32, slot: U64, signer: Bytes32,
                      timestamp: I64, timeoutAtMs: U16): (a: CielAttestation)
  {
    NewAttestation(txHash, Timeout, TIMEOUT_SENTINEL, TIMEOUT_SENTINEL, outputsHash, slot, signer, timestamp,
      timeoutAtMs)
  }

  function NewPolicy(policyHash: Bytes32, signer: Bytes32, issuedSlot: U64, expiresAt: I64): (a: PolicyAttestation)
  {
    PolicyAttestation(POLICY_MAGIC, ATTESTATION_VERSION, policyHash, signer, issuedSlot, expiresAt, false)
  }

  function NewOverride(originalHash: Bytes32, overrideType: U8, overrider: Bytes32, slot: U64,
                       timestamp: I64): (a: OverrideAttestation)
  {
    OverrideAttestation(OVERRIDE_MAGIC, ATTESTATION_VERSION, originalHash, overrideType, overrider, slot, timestamp)
  }

  /* ---------- fixed-width fields ---------- */

  function EncodeI64(i: I64): (b: Bytes)
    ensures |b| == 8
  {
    LeBytes(AsU64(i), 8)
  }

  function DecodeU16(b: Bytes): (n: U16)
    requires |b| == 2
  {
    MachineWidths();
    LeBytesOfLeNat(b);
    LeNat(b)
  }

  function DecodeU64(b: Bytes): (n: U64)
    requires |b| == 8
  {
    MachineWidths();
    LeBytesOfLeNat(b);
    LeNat(b)
  }

  function DecodeI64(b: Bytes): (i: I64)
    requires |b| == 8
  {
    AsI64(DecodeU64(b))
  }

  lemma U16RoundTrip(n: U16)
    ensures DecodeU16(LeBytes(n, 2)) == n
  {
    MachineWidths();
    LeNatOfLeBytes(n, 2);
  }

  lemma U64RoundTrip(n: U64)
    ensures DecodeU64(LeBytes(n, 8)) == n
  {
    MachineWidths();
    LeNatOfLeBytes(n, 8);
  }

  lemma I64RoundTrip(i: I64)
    ensures DecodeI64(EncodeI64(i)) == i
  {
    U64RoundTrip(AsU64(i));
  }

  lemma FieldBytesRoundTrip(b: Bytes)
    ensures |b| == 2 ==> LeBytes(DecodeU16(b), 2) == b
    ensures |b| == 8 ==> LeBytes(DecodeU64(b), 8) == b && EncodeI64(DecodeI64(b)) == b
  {
    LeBytesOfLeNat(b);
  }

  /* ---------- CielAttestation: 132 bytes ---------- */

  function Encode(a: CielAttestation): (b: Bytes)
    ensures |b| == 132
  {
    a.magic + [a.version] + a.txHash + [a.verdict] + LeBytes(a.safetyScore, 2) + LeBytes(a.optimalityScore, 2)
    + a.outputsHash + LeBytes(a.slot, 8) + LeBytes(a.expirySlot, 8) + a.signer + EncodeI64(a.timestamp)
      + LeBytes(a.timeoutAtMs, 2)
  }

  /** Borsh decoding: the fields in order, and nothing left over. */
  function Decode(b: Bytes): (a: Option<CielAttestation>)
  {
    if |b| != 132 then None
    else Some(CielAttestation(
      b[0..4], b[4], b[5..37], b[37], DecodeU16(b[38..40]), DecodeU16(b[40..42]), b[42..74],
      DecodeU64(b[74..82]), DecodeU64(b[82..90]), b[90..122], DecodeI64(b[122..130]), DecodeU16(b[130..132])))
  }

  /** Each field of the payload sits at the offset section 4 of Ciel PEA / 1.0 gives it. */
  lemma Offsets(a: CielAttestation)
    ensures var b := Encode(a);
      && b[0..4] == a.magic && b[4] == a.version && b[5..37] == a.txHash && b[37] == a.verdict
      && b[38..40] == LeBytes(a.safetyScore, 2) && b[40..42] == LeBytes(a.optimalityScore, 2)
      && b[42..74] == a.outputsHash && b[74..82] == LeBytes(a.slot, 8) && b[82..90] == LeBytes(a.expirySlot, 8)
      && b[90..122] == a.signer && b[122..130] == EncodeI64(a.timestamp) && b[130..132] == LeBytes(a.timeoutAtMs, 2)
  {
  }

  /** Decoding undoes encoding, for every attestation. */
  lemma DecodeEncode(a: CielAttestation)
    ensures Decode(Encode(a)) == Some(a)
  {
    Offsets(a);
    U16RoundTrip(a.safetyScore);
    U16RoundTrip(a.optimalityScore);
    U64RoundTrip(a.slot);
    U64RoundTrip(a.expirySlot);
    I64RoundTrip(a.timestamp);
    U16RoundTrip(a.timeoutAtMs);
  }

  lemma SlicesRejoin(b: Bytes)
    requires |b| == 132
    ensures b[0..4] + [b[4]] + b[5..37] + [b[37]] + b[38..40] + b[40..42]
            + b[42..74] + b[74..82] + b[82..90] + b[90..122] + b[122..130] + b[130..132] == b
  {
  }

  /** Every 132-byte string is the encoding of the attestation it decodes to. */
  lemma EncodeDecode(b: Bytes)
    requires |b| == 132
    ensures Decode(b).Some? && Encode(Decode(b).value) == b
  {
    FieldBytesRoundTrip(b[38..40]);
    FieldBytesRoundTrip(b[40..42]);
    FieldBytesRoundTrip(b[74..82]);
    FieldBytesRoundTrip(b[82..90]);
    FieldBytesRoundTrip(b[122..130]);
    FieldBytesRoundTrip(b[130..132]);
    SlicesRejoin(b);
  }

  /**
   * What the constructor writes, byte by byte: the letters CIEL, version 1, and the verdict as 0 for APPROVE, 1 for
   * WARN, 2 for BLOCK and 3 for TIMEOUT.
   */
  lemma ConstructedBytes(txHash: Bytes32, verdict: Verdict, safety: U16, optimality: U16, outputsHash: Bytes32,
                         slot: U64, signer: Bytes32, timestamp: I64, timeoutAtMs: U16)
    ensures var b := Encode(NewAttestation(txHash, verdict, safety, optimality, outputsHash, slot, signer, timestamp,
                                           timeoutAtMs));
      && b[0..5] == [0x43, 0x49, 0x45, 0x4C, 1] && b[5..37] == txHash
      && (b[37] == 0 <==> verdict == Approve) && (b[37] == 1 <==> verdict == Warn)
      && (b[37] == 2 <==> verdict == Block) && (b[37] == 3 <==> verdict == Timeout)
      && b[38] + 256 * (b[39] as int) == safety && b[40] + 256 * (b[41] as int) == optimality
      && b[42..74] == outputsHash
      && LeNat(b[74..82]) == slot && LeNat(b[82..90]) == (slot + 2) % 0x1_0000_0000_0000_0000
      && b[90..122] == signer && b[130] + 256 * (b[131] as int) == timeoutAtMs
      && LeNat(b[122..130]) == (if timestamp < 0 then timestamp + 0x1_0000_0000_0000_0000 else timestamp)
  {
    var a := NewAttestation(txHash, verdict, safety, optimality, outputsHash, slot, signer, timestamp, timeoutAtMs);
    var b := Encode(a);
    Offsets(a);
    MachineWidths();
    assert b[0..5] == b[0..4] + [b[4]];
    U16Bytes(b, 38, safety);
    U16Bytes(b, 40, optimality);
    U16Bytes(b, 130, timeoutAtMs);
    LeNatOfLeBytes(slot, 8);
    LeNatOfLeBytes(ExpirySlot(slot), 8);
    LeNatOfLeBytes(AsU64(timestamp), 8);
  }

  lemma U16Bytes(b: Bytes, i: nat, n: U16)
    requires i + 2 <= |b| && b[i..i + 2] == LeBytes(n, 2)
    ensures b[i] + 256 * (b[i + 1] as int) == n
  {
    MachineWidths();
    LeNatOfLeBytes(n, 2);
    LeNatOfTwo(b[i..i + 2]);
  }

  /** The expiry is two slots on, unless the slot is one of the last two representable. */
  lemma ExpiryIsTwoSlotsOn(slot: U64)
    ensures ExpirySlot(slot) == slot + 2 <==> slot < TWO_64 - 2
  {
  }

  /* ---------- PolicyAttestation and OverrideAttestation: 86 bytes each ---------- */

  function EncodePolicy(a: PolicyAttestation): (b: Bytes)
    ensures |b| == 86
  {
    a.magic + [a.version] + a.policyHash + a.signer + LeBytes(a.issuedSlot, 8) + EncodeI64(a.expiresAt)
    + [if a.revoked then 1 else 0]
  }

  function DecodePolicy(b: Bytes): (a: Option<PolicyAttestation>)
  {
    if |b| != 86 || b[85] > 1 then None
    else Some(PolicyAttestation(
      b[0..4], b[4], b[5..37], b[37..69], DecodeU64(b[69..77]), DecodeI64(b[77..85]), b[85] == 1))
  }

  function EncodeOverride(a: OverrideAttestation): (b: Bytes)
    ensures |b| == 86
  {
    a.magic + [a.version] + a.originalHash + [a.overrideType] + a.overrider + LeBytes(a.slot, 8)
      + EncodeI64(a.timestamp)
  }

  function DecodeOverride(b: Bytes): (a: Option<OverrideAttestation>)
  {
    if |b| != 86 then None
    else Some(OverrideAttestation(
      b[0..4], b[4], b[5..37], b[37], b[38..70], DecodeU64(b[70..78]), DecodeI64(b[78..86])))
  }

  lemma LastSlice(p: Bytes, t: Bytes)
    ensures (p + t)[|p|..|p| + |t|] == t
  {
  }

  lemma EarlierSlice(p: Bytes, t: Bytes, i: nat, j: nat)
    requires i <= j <= |p|
    ensures (p + t)[i..j] == p[i..j]
  {
  }

  lemma PolicyRoundTrip(a: PolicyAttestation)
    ensures DecodePolicy(EncodePolicy(a)) == Some(a)
  {
    var b := EncodePolicy(a);
    var head := a.magic + [a.version] + a.policyHash + a.signer;
    var withSlot := head + LeBytes(a.issuedSlot, 8);
    var withExpiry := withSlot + EncodeI64(a.expiresAt);
    assert b == withExpiry + [if a.revoked then 1 else 0];
    assert b[0..4] == a.magic && b[5..37] == a.policyHash && b[37..69] == a.signer;
    assert b[69..77] == LeBytes(a.issuedSlot, 8) by {
      LastSlice(head, LeBytes(a.issuedSlot, 8));
      EarlierSlice(withSlot, EncodeI64(a.expiresAt), 69, 77);
      EarlierSlice(withExpiry, [if a.revoked then 1 else 0], 69, 77);
    }
    assert b[77..85] == EncodeI64(a.expiresAt) by {
      LastSlice(withSlot, EncodeI64(a.expiresAt));
      EarlierSlice(withExpiry, [if a.revoked then 1 else 0], 77, 85);
    }
    U64RoundTrip(a.issuedSlot);
    I64RoundTrip(a.expiresAt);
  }

  lemma PolicySlicesRejoin(b: Bytes)
    requires |b| == 86
    ensures b[0..4] + [b[4]] + b[5..37] + b[37..69] + b[69..77] + b[77..85] + [b[85]] == b
  {
  }

  /** An 86-byte string is a policy payload exactly when its last byte is a Borsh boolean. */
  lemma PolicyReencodes(b: Bytes)
    requires |b| == 86
    ensures DecodePolicy(b).Some? <==> b[85] <= 1
    ensures DecodePolicy(b).Some? ==> EncodePolicy(DecodePolicy(b).value) == b
  {
    FieldBytesRoundTrip(b[69..77]);
    FieldBytesRoundTrip(b[77..85]);
    PolicySlicesRejoin(b);
  }

  lemma OverrideRoundTrip(a: OverrideAttestation)
    ensures DecodeOverride(EncodeOverride(a)) == Some(a)
  {
    var b := EncodeOverride(a);
    var head := a.magic + [a.version] + a.originalHash + [a.overrideType] + a.overrider;
    var withSlot := head + LeBytes(a.slot, 8);
    assert b == withSlot + EncodeI64(a.timestamp);
    assert b[0..4] == a.magic && b[5..37] == a.originalHash && b[38..70] == a.overrider;
    assert b[70..78] == LeBytes(a.slot, 8) by {
      LastSlice(head, LeBytes(a.slot, 8));
      EarlierSlice(withSlot, EncodeI64(a.timestamp), 70, 78);
    }
    assert b[78..86] == EncodeI64(a.timestamp) by {
      LastSlice(withSlot, EncodeI64(a.timestamp));
    }
    U64RoundTrip(a.slot);
    I64RoundTrip(a.timestamp);
  }

  lemma OverrideSlicesRejoin(b: Bytes)
    requires |b| == 86
    ensures b[0..4] + [b[4]] + b[5..37] + [b[37]] + b[38..70] + b[70..78] + b[78..86] == b
  {
  }

  lemma OverrideReencodes(b: Bytes)
    requires |b| == 86
    ensures DecodeOverride(b).Some? && EncodeOverride(DecodeOverride(b).value) == b
  {
    FieldBytesRoundTrip(b[70..78]);
    FieldBytesRoundTrip(b[78..86]);
    OverrideSlicesRejoin(b);
  }

  /** What the policy constructor writes: CILP, version 1, hash, signer, slot, expiry, and 0 for not revoked. */
  lemma ConstructedPolicyBytes(policyHash: Bytes32, signer: Bytes32, issuedSlot: U64, expiresAt: I64)
    ensures var b := EncodePolicy(NewPolicy(policyHash, signer, issuedSlot, expiresAt));
      && b[0..5] == [0x43, 0x49, 0x4C, 0x50, 1] && b[5..37] == policyHash && b[37..69] == signer
      && LeNat(b[69..77]) == issuedSlot && b[85] == 0
      && LeNat(b[77..85]) == (if expiresAt < 0 then expiresAt + 0x1_0000_0000_0000_0000 else expiresAt)
  {
    var a := NewPolicy(policyHash, signer, issuedSlot, expiresAt);
    var b := EncodePolicy(a);
    PolicyRoundTrip(a);
    assert b[0..5] == b[0..4] + [b[4]];
  }

  /** What the override constructor writes: CLOV, version 1, hash, type, overrider, slot and time. */
  lemma ConstructedOverrideBytes(originalHash: Bytes32, overrideType: U8, overrider: Bytes32, slot: U64, timestamp: I64)
    ensures var b := EncodeOverride(NewOverride(originalHash, overrideType, overrider, slot, timestamp));
      && b[0..5] == [0x43, 0x4C, 0x4F, 0x56, 1] && b[5..37] == originalHash && b[37] == overrideType
      && b[38..70] == overrider && LeNat(b[70..78]) == slot
      && LeNat(b[78..86]) == (if timestamp < 0 then timestamp + 0x1_0000_0000_0000_0000 else timestamp)
  {
    var a := NewOverride(originalHash, overrideType, overrider, slot, timestamp);
    var b := EncodeOverride(a);
    OverrideRoundTrip(a);
    assert b[0..5] == b[0..4] + [b[4]];
  }

  /** Payloads with the three magics never coincide, although two of the layouts have one length. */
  lemma MagicsSeparate(c: CielAttestation, p: PolicyAttestation, o: OverrideAttestation)
    requires c.magic == CIEL_MAGIC && p.magic == POLICY_MAGIC && o.magic == OVERRIDE_MAGIC
    ensures Encode(c) != EncodePolicy(p) && Encode(c) != EncodeOverride(o) && EncodePolicy(p) != EncodeOverride(o)
  {
    assert EncodePolicy(p)[1] == 0x49 && EncodeOverride(o)[1] == 0x4C;
  }

  /** Bytes built by one constructor are never bytes built by another, whatever they are given. */
  lemma PayloadsNeverCoincide(
    txHash: Bytes32, verdict: Verdict, safety: U16, optimality: U16, outputsHash: Bytes32, slot: U64, signer: Bytes32,
    timestamp: I64, timeoutAtMs: U16, policyHash: Bytes32, issuer: Bytes32, issuedSlot: U64, expiresAt: I64,
    originalHash: Bytes32, overrideType: U8, overrider: Bytes32, overrideSlot: U64, overriddenAt: I64)
    ensures var c := NewAttestation(txHash, verdict, safety, optimality, outputsHash, slot, signer, timestamp,
      timeoutAtMs);
      var p := NewPolicy(policyHash, issuer, issuedSlot, expiresAt);
      var o := NewOverride(originalHash, overrideType, overrider, overrideSlot, overriddenAt);
      Encode(c) != EncodePolicy(p) && Encode(c) != EncodeOverride(o) && EncodePolicy(p) != EncodeOverride(o)
  {
    MagicsSeparate(
      NewAttestation(txHash, verdict, safety, optimality, outputsHash, slot, signer, timestamp, timeoutAtMs),
      NewPolicy(policyHash, issuer, issuedSlot, expiresAt),
      NewOverride(originalHash, overrideType, overrider, overrideSlot, overriddenAt));
  }
}
