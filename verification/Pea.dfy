/** The PEA JSON envelope around a signed attestation (crates/ciel-signer/src/pea.rs, spec/ciel-pea-1.0.md). */
module Pea {
  import opened Prelude
  import opened Attestation
  import opened TextCodecs

  datatype Json =
    | Null
    | Bool(flag: bool)
    | Num(number: int)
    | Str(text: string)
    | Arr(items: seq<Json>)
    | Obj(members: map<string, Json>)

  /** `Value::get` with a string key: None unless the value is an object with that member. */
  function Get(v: Json, key: string): (r: Option<Json>)
  {
    if v.Obj? && key in v.members then Some(v.members[key]) else None
  }

  function GetStr(v: Json, key: string): (r: Option<string>)
  {
    match Get(v, key)
    case Some(Str(s)) => Some(s)
    case _ => None
  }

  const SPEC_VERSION := "ciel-pea/1.0"
  const FIXTURE_VERSION := "ciel_attestation_v1"

  datatype FlagSeverity = InfoFlag | WarnFlag | BlockFlag

  datatype PeaFlag = PeaFlag(code: string, severity: FlagSeverity, detail: Option<string>)

  datatype PeaIntent = PeaIntent(nl: Option<string>, fingerprint: Option<string>, satisfied: Option<bool>)

  /* ---------- writing an envelope ---------- */

  function SeverityText(s: FlagSeverity): (t: string)
  {
    match s
    case InfoFlag => "INFO"
    case WarnFlag => "WARN"
    case BlockFlag => "BLOCK"
  }

  function Member(key: string, v: Option<Json>): (m: map<string, Json>)
  {
    match v
    case Some(j) => map[key := j]
    case None => map[]
  }

  function OptStr(s: Option<string>): (j: Option<Json>)
  {
    match s
    case Some(t) => Some(Str(t))
    case None => None
  }

  function FlagJson(f: PeaFlag): (j: Json)
  {
    Obj(map["code" := Str(f.code), "severity" := Str(SeverityText(f.severity))] + Member("detail", OptStr(f.detail)))
  }

  function FlagsJson(fs: seq<PeaFlag>): (j: Json)
  {
    Arr(seq(|fs|, i requires 0 <= i < |fs| => FlagJson(fs[i])))
  }

  function IntentJson(i: PeaIntent): (j: Json)
  {
    var satisfied := match i.satisfied case Some(b) => Some(Bool(b)) case None => None;
    Obj(Member("intent_nl", OptStr(i.nl)) + Member("intent_fingerprint", OptStr(i.fingerprint))
      + Member("intent_satisfied", satisfied))
  }

  type Utf8 = Bytes -> Option<string>

  /** The magic as text: `utf8` is the standard decoder, and bytes it refuses are all written alike. */
  function MagicText(magic: Bytes4, utf8: Utf8): (t: string)
  {
    match utf8(magic)
    case Some(text) => text
    case None => "????"
  }

  function HeadMembers(a: CielAttestation, utf8: Utf8): (m: map<string, Json>)
  {
    map[
      "magic" := Str(MagicText(a.magic, utf8)),
      "version" := Num(a.version),
      "tx_hash" := Str(HexEncode(a.txHash)),
      "verdict" := Num(a.verdict)
    ]
  }

  function ScoreMembers(a: CielAttestation): (m: map<string, Json>)
  {
    map[
      "safety_score" := Num(a.safetyScore),
      "optimality_score" := Num(a.optimalityScore),
      "checker_outputs_hash" := Str(HexEncode(a.outputsHash)),
      "timeout_at_ms" := Num(a.timeoutAtMs)
    ]
  }

  function SlotMembers(a: CielAttestation): (m: map<string, Json>)
  {
    map[
      "slot" := Num(a.slot),
      "expiry_slot" := Num(a.expirySlot),
      "signer" := Str(HexEncode(a.signer)),
      "timestamp" := Num(a.timestamp)
    ]
  }

  function AttestationJson(a: CielAttestation, utf8: Utf8): (j: Json)
  {
    Obj(HeadMembers(a, utf8) + ScoreMembers(a) + SlotMembers(a))
  }

  function WireJson(a: CielAttestation): (j: Json)
  {
    Obj(map["borsh_b64" := Str(Base64Encode(Encode(a))), "fixture_version" := Str(FIXTURE_VERSION)])
  }

  function RequiredMembers(a: CielAttestation, signature: Bytes64, utf8: Utf8): (m: map<string, Json>)
  {
    map[
      "spec_version" := Str(SPEC_VERSION),
      "attestation" := AttestationJson(a, utf8),
      "signature" := Str(HexEncode(signature)),
      "wire" := WireJson(a)
    ]
  }

  function WithMember(m: map<string, Json>, key: string, v: Option<Json>): (r: map<string, Json>)
    ensures forall k :: k != key ==> (k in r <==> k in m) && (k in m ==> r[k] == m[k])
  {
    match v
    case Some(j) => m[key := j]
    case None => m
  }

  function Envelope(a: CielAttestation, signature: Bytes64, flags: seq<PeaFlag>, intent: Option<PeaIntent>,
                    utf8: Utf8): (j: Json)
  {
    var flagsMember := if flags != [] then Some(FlagsJson(flags)) else None;
    var intentMember := match intent case Some(i) => Some(IntentJson(i)) case None => None;
    Obj(WithMember(WithMember(RequiredMembers(a, signature, utf8), "flags", flagsMember), "intent", intentMember))
  }

  /** The required members first, then the optional ones added to the same object. */
  method ToPeaJson(a: CielAttestation, signature: Bytes64, flags: seq<PeaFlag>, intent: Option<PeaIntent>, utf8: Utf8)
    returns (envelope: Json)
    ensures envelope == Envelope(a, signature, flags, intent, utf8)
  {
    var members := RequiredMembers(a, signature, utf8);
    if flags != [] {
      members := members["flags" := FlagsJson(flags)];
    }
    match intent {
      case Some(i) => members := members["intent" := IntentJson(i)];
      case None =>
    }
    envelope := Obj(members);
  }

  /* ---------- reading an envelope ---------- */

  datatype PeaError =
    | MissingSpecVersion | UnsupportedSpecVersion
    | MissingWire | MissingFixtureVersion | UnsupportedFixtureVersion
    | MissingBorsh | BadBase64 | WireLength
    | BadBorsh | WireDidNotRoundTrip
    | MissingSignature | BadSignatureHex | SignatureLength

  function ReadWire(wire: Json): (r: Result<CielAttestation, PeaError>)
  {
    match GetStr(wire, "fixture_version")
    case None => Err(MissingFixtureVersion)
    case Some(version) =>
      if version != FIXTURE_VERSION then Err(UnsupportedFixtureVersion)
      else match GetStr(wire, "borsh_b64")
        case None => Err(MissingBorsh)
        case Some(b64) =>
          match Base64Decode(b64)
          case None => Err(BadBase64)
          case Some(bytes) =>
            if |bytes| != 132 then Err(WireLength)
            else match Decode(bytes)
              case None => Err(BadBorsh)
              case Some(a) => if Encode(a) != bytes then Err(WireDidNotRoundTrip) else Ok(a)
  }

  function ReadSignature(envelope: Json): (r: Result<Bytes64, PeaError>)
  {
    match GetStr(envelope, "signature")
    case None => Err(MissingSignature)
    case Some(hex) =>
      match HexDecode(hex)
      case None => Err(BadSignatureHex)
      case Some(bytes) => if |bytes| != 64 then Err(SignatureLength) else Ok(bytes)
  }

  function FromPeaJson(envelope: Json): (r: Result<(CielAttestation, Bytes64), PeaError>)
  {
    match GetStr(envelope, "spec_version")
    case None => Err(MissingSpecVersion)
    case Some(version) =>
      if version != SPEC_VERSION then Err(UnsupportedSpecVersion)
      else match Get(envelope, "wire")
        case None => Err(MissingWire)
        case Some(wire) =>
          match ReadWire(wire)
          case Err(e) => Err(e)
          case Ok(a) =>
            match ReadSignature(envelope)
            case Err(e) => Err(e)
            case Ok(signature) => Ok((a, signature))
  }

  /* ---------- theorems ---------- */

  lemma WireMembers(a: CielAttestation)
    ensures GetStr(WireJson(a), "fixture_version") == Some(FIXTURE_VERSION)
    ensures GetStr(WireJson(a), "borsh_b64") == Some(Base64Encode(Encode(a)))
  {
    assert |"fixture_version"| == 15 && |"borsh_b64"| == 9;
  }

  lemma CanonicalWireIsRead(wire: Json, a: CielAttestation)
    requires GetStr(wire, "fixture_version") == Some(FIXTURE_VERSION)
    requires GetStr(wire, "borsh_b64") == Some(Base64Encode(Encode(a)))
    ensures ReadWire(wire) == Ok(a)
  {
    Base64RoundTrip(Encode(a));
    DecodeEncode(a);
  }

  lemma WireRoundTrip(a: CielAttestation)
    ensures ReadWire(WireJson(a)) == Ok(a)
  {
    WireMembers(a);
    CanonicalWireIsRead(WireJson(a), a);
  }

  lemma KeysDiffer()
    ensures "spec_version" != "signature" && "spec_version" != "wire" && "spec_version" != "attestation"
    ensures "signature" != "wire" && "signature" != "attestation" && "wire" != "attestation"
    ensures forall k :: k in ["spec_version", "signature", "wire"] ==> k != "flags" && k != "intent"
  {
    assert |"spec_version"| == 12 && |"signature"| == 9 && |"wire"| == 4 && |"attestation"| == 11 && |"flags"| == 5
      && |"intent"| == 6;
  }

  lemma RequiredMembersPresent(a: CielAttestation, signature: Bytes64, utf8: Utf8)
    ensures var m := RequiredMembers(a, signature, utf8);
      && "spec_version" in m && m["spec_version"] == Str(SPEC_VERSION)
      && "signature" in m && m["signature"] == Str(HexEncode(signature))
      && "wire" in m && m["wire"] == WireJson(a)
  {
    KeysDiffer();
  }

  lemma EnvelopeMembers(a: CielAttestation, signature: Bytes64, flags: seq<PeaFlag>, intent: Option<PeaIntent>,
                        utf8: Utf8)
    ensures var e := Envelope(a, signature, flags, intent, utf8);
      && Get(e, "spec_version") == Some(Str(SPEC_VERSION))
      && Get(e, "signature") == Some(Str(HexEncode(signature)))
      && Get(e, "wire") == Some(WireJson(a))
  {
    KeysDiffer();
    RequiredMembersPresent(a, signature, utf8);
    var m := RequiredMembers(a, signature, utf8);
    forall k | k in ["spec_version", "signature", "wire"]
      ensures Get(Envelope(a, signature, flags, intent, utf8), k) == Get(Obj(m), k)
    {
    }
  }

  /** The members the specification requires, under the names and with the version strings it gives. */
  lemma RequiredOnTheWire(a: CielAttestation, signature: Bytes64, flags: seq<PeaFlag>,
                          intent: Option<PeaIntent>, utf8: Utf8)
    ensures var e := Envelope(a, signature, flags, intent, utf8);
      && Get(e, "spec_version") == Some(Str("ciel-pea/1.0"))
      && Get(e, "attestation") == Some(AttestationJson(a, utf8))
      && Get(e, "signature") == Some(Str(HexEncode(signature)))
      && Get(e, "wire").Some?
      && GetStr(Get(e, "wire").value, "fixture_version") == Some("ciel_attestation_v1")
      && GetStr(Get(e, "wire").value, "borsh_b64") == Some(Base64Encode(Encode(a)))
  {
    EnvelopeMembers(a, signature, flags, intent, utf8);
    WireMembers(a);
    KeysDiffer();
    assert |"attestation"| == 11 && |"flags"| == 5 && |"intent"| == 6;
  }

  /** Reading an envelope back gives the attestation and the signature it was written from. */
  lemma EnvelopeRoundTrip(a: CielAttestation, signature: Bytes64, flags: seq<PeaFlag>, intent: Option<PeaIntent>,
                          utf8: Utf8)
    ensures FromPeaJson(Envelope(a, signature, flags, intent, utf8)) == Ok((a, signature))
  {
    var e := Envelope(a, signature, flags, intent, utf8);
    EnvelopeMembers(a, signature, flags, intent, utf8);
    WireRoundTrip(a);
    assert ReadSignature(e) == Ok(signature) by {
      HexRoundTrip(signature);
    }
  }

  /** The parse looks at three top-level members and at nothing else. */
  lemma ParseReadsThreeMembers(e1: Json, e2: Json)
    requires Get(e1, "spec_version") == Get(e2, "spec_version")
    requires Get(e1, "wire") == Get(e2, "wire")
    requires Get(e1, "signature") == Get(e2, "signature")
    ensures FromPeaJson(e1) == FromPeaJson(e2)
  {
  }

  /** Section 10 of Ciel PEA / 1.0: members the parser does not know never change the parse. */
  lemma UnknownMembersIgnored(members: map<string, Json>, extra: map<string, Json>)
    requires "spec_version" !in extra && "wire" !in extra && "signature" !in extra
    ensures FromPeaJson(Obj(members + extra)) == FromPeaJson(Obj(members))
  {
    ParseReadsThreeMembers(Obj(members + extra), Obj(members));
  }

  /** The JSON attestation object is never consulted: an accepted envelope stays accepted whatever is put there. */
  lemma AttestationObjectIgnored(members: map<string, Json>, other: Json)
    ensures FromPeaJson(Obj(members["attestation" := other])) == FromPeaJson(Obj(members))
  {
    ParseReadsThreeMembers(Obj(members["attestation" := other]), Obj(members));
  }

  /** No name of one group is a name of another: their lengths differ. */
  lemma HeadNames(a: CielAttestation, utf8: Utf8, k: string)
    requires k in HeadMembers(a, utf8)
    ensures |k| == 5 || |k| == 7
  {
    assert k == "magic" || k == "version" || k == "tx_hash" || k == "verdict";
  }

  lemma ScoreNames(a: CielAttestation, k: string)
    requires k in ScoreMembers(a)
    ensures |k| == 12 || |k| == 13 || |k| == 16 || |k| == 20
  {
    assert k == "safety_score" || k == "optimality_score" || k == "checker_outputs_hash" || k == "timeout_at_ms";
  }

  lemma SlotNames(a: CielAttestation, k: string)
    requires k in SlotMembers(a)
    ensures |k| == 4 || |k| == 6 || |k| == 9 || |k| == 11
  {
    assert k == "slot" || k == "expiry_slot" || k == "signer" || k == "timestamp";
  }

  lemma MergeShows(head: map<string, Json>, scores: map<string, Json>, slots: map<string, Json>, k: string)
    requires k in head ==> k !in scores && k !in slots
    requires k in scores ==> k !in slots
    ensures var o := Obj(head + scores + slots);
      && (k in head ==> Get(o, k) == Some(head[k]))
      && (k in scores ==> Get(o, k) == Some(scores[k]))
      && (k in slots ==> Get(o, k) == Some(slots[k]))
  {
  }

  lemma HeadShows(a: CielAttestation, utf8: Utf8)
    ensures var o := Obj(HeadMembers(a, utf8));
      && Get(o, "magic") == Some(Str(MagicText(a.magic, utf8))) && Get(o, "version") == Some(Num(a.version))
      && Get(o, "tx_hash") == Some(Str(HexEncode(a.txHash))) && Get(o, "verdict") == Some(Num(a.verdict))
  {
    assert |"magic"| == 5 && |"version"| == |"tx_hash"| == |"verdict"| == 7;
    assert "version"[3] != "verdict"[3] && "version"[0] != "tx_hash"[0] && "verdict"[0] != "tx_hash"[0];
  }

  lemma ScoresShow(a: CielAttestation)
    ensures var o := Obj(ScoreMembers(a));
      && Get(o, "safety_score") == Some(Num(a.safetyScore))
      && Get(o, "optimality_score") == Some(Num(a.optimalityScore))
      && Get(o, "checker_outputs_hash") == Some(Str(HexEncode(a.outputsHash)))
      && Get(o, "timeout_at_ms") == Some(Num(a.timeoutAtMs))
  {
    assert |"safety_score"| == 12 && |"timeout_at_ms"| == 13 && |"optimality_score"| == 16;
    assert |"checker_outputs_hash"| == 20;
  }

  lemma SlotsShow(a: CielAttestation)
    ensures var o := Obj(SlotMembers(a));
      && Get(o, "slot") == Some(Num(a.slot)) && Get(o, "expiry_slot") == Some(Num(a.expirySlot))
      && Get(o, "signer") == Some(Str(HexEncode(a.signer))) && Get(o, "timestamp") == Some(Num(a.timestamp))
  {
    assert |"slot"| == 4 && |"signer"| == 6 && |"timestamp"| == 9 && |"expiry_slot"| == 11;
  }

  /** The object shows what its three groups show. */
  lemma ObjectShowsGroups(a: CielAttestation, utf8: Utf8, k: string)
    ensures k in HeadMembers(a, utf8) ==> Get(AttestationJson(a, utf8), k) == Some(HeadMembers(a, utf8)[k])
    ensures k in ScoreMembers(a) ==> Get(AttestationJson(a, utf8), k) == Some(ScoreMembers(a)[k])
    ensures k in SlotMembers(a) ==> Get(AttestationJson(a, utf8), k) == Some(SlotMembers(a)[k])
  {
    if k in HeadMembers(a, utf8) {
      HeadNames(a, utf8, k);
    }
    if k in ScoreMembers(a) {
      ScoreNames(a, k);
    }
    if k in SlotMembers(a) {
      SlotNames(a, k);
    }
    MergeShows(HeadMembers(a, utf8), ScoreMembers(a), SlotMembers(a), k);
  }

  /** The object shows each field of the attestation under its own name, hashes and keys in hex. */
  lemma ObjectShowsHead(a: CielAttestation, utf8: Utf8)
    ensures var o := AttestationJson(a, utf8);
      && Get(o, "magic") == Some(Str(MagicText(a.magic, utf8))) && Get(o, "version") == Some(Num(a.version))
      && Get(o, "tx_hash") == Some(Str(HexEncode(a.txHash))) && Get(o, "verdict") == Some(Num(a.verdict))
  {
    HeadShows(a, utf8);
    ObjectShowsGroups(a, utf8, "magic");
    ObjectShowsGroups(a, utf8, "version");
    ObjectShowsGroups(a, utf8, "tx_hash");
    ObjectShowsGroups(a, utf8, "verdict");
  }

  lemma ObjectShowsScores(a: CielAttestation, utf8: Utf8)
    ensures var o := AttestationJson(a, utf8);
      && Get(o, "safety_score") == Some(Num(a.safetyScore))
      && Get(o, "optimality_score") == Some(Num(a.optimalityScore))
      && Get(o, "checker_outputs_hash") == Some(Str(HexEncode(a.outputsHash)))
      && Get(o, "timeout_at_ms") == Some(Num(a.timeoutAtMs))
  {
    ScoresShow(a);
    ObjectShowsGroups(a, utf8, "safety_score");
    ObjectShowsGroups(a, utf8, "optimality_score");
    ObjectShowsGroups(a, utf8, "checker_outputs_hash");
    ObjectShowsGroups(a, utf8, "timeout_at_ms");
  }

  lemma ObjectShowsSlots(a: CielAttestation, utf8: Utf8)
    ensures var o := AttestationJson(a, utf8);
      && Get(o, "slot") == Some(Num(a.slot)) && Get(o, "expiry_slot") == Some(Num(a.expirySlot))
      && Get(o, "signer") == Some(Str(HexEncode(a.signer))) && Get(o, "timestamp") == Some(Num(a.timestamp))
  {
    SlotsShow(a);
    ObjectShowsGroups(a, utf8, "slot");
    ObjectShowsGroups(a, utf8, "expiry_slot");
    ObjectShowsGroups(a, utf8, "signer");
    ObjectShowsGroups(a, utf8, "timestamp");
  }

  /** The optional members are there exactly when given, and say what was given. */
  lemma OptionalMembers(a: CielAttestation, signature: Bytes64, flags: seq<PeaFlag>,
                        intent: Option<PeaIntent>, utf8: Utf8)
    ensures var e := Envelope(a, signature, flags, intent, utf8);
      && (Get(e, "flags").Some? <==> |flags| > 0)
      && (|flags| > 0 ==> Get(e, "flags") == Some(FlagsJson(flags)))
      && (Get(e, "intent").Some? <==> intent.Some?)
      && (intent.Some? ==> Get(e, "intent") == Some(IntentJson(intent.value)))
  {
    assert |"spec_version"| == 12 && |"signature"| == 9 && |"wire"| == 4 && |"attestation"| == 11;
    assert |"flags"| == 5 && |"intent"| == 6;
  }

  lemma FlagMembers(f: PeaFlag)
    ensures Get(FlagJson(f), "code") == Some(Str(f.code))
    ensures Get(FlagJson(f), "severity") ==
      Some(Str(match f.severity case InfoFlag => "INFO" case WarnFlag => "WARN" case BlockFlag => "BLOCK"))
    ensures Get(FlagJson(f), "detail") == if f.detail.Some? then Some(Str(f.detail.value)) else None
  {
    assert |"code"| == 4 && |"severity"| == 8 && |"detail"| == 6;
  }

  /** The flags are listed in the order given. */
  lemma FlagsListed(fs: seq<PeaFlag>, i: nat)
    requires i < |fs|
    ensures FlagsJson(fs).Arr? && |FlagsJson(fs).items| == |fs| && FlagsJson(fs).items[i] == FlagJson(fs[i])
  {
  }

  lemma IntentMembers(i: PeaIntent)
    ensures Get(IntentJson(i), "intent_nl") == if i.nl.Some? then Some(Str(i.nl.value)) else None
    ensures Get(IntentJson(i), "intent_fingerprint")
         == if i.fingerprint.Some? then Some(Str(i.fingerprint.value)) else None
    ensures Get(IntentJson(i), "intent_satisfied") == if i.satisfied.Some? then Some(Bool(i.satisfied.value)) else None
  {
    assert |"intent_nl"| == 9 && |"intent_fingerprint"| == 18 && |"intent_satisfied"| == 16;
  }

  /**
   * A written envelope whose JSON attestation object is swapped for that of any other attestation is accepted,
   * as the original attestation; the object may show another verdict.
   */
  lemma SwappedObjectIsAccepted(a: CielAttestation, shown: CielAttestation, signature: Bytes64, flags: seq<PeaFlag>,
                                intent: Option<PeaIntent>, utf8: Utf8)
    ensures var e := Envelope(a, signature, flags, intent, utf8).members["attestation" := AttestationJson(shown, utf8)];
      && FromPeaJson(Obj(e)) == Ok((a, signature))
      && Get(e["attestation"], "verdict") == Some(Num(shown.verdict))
  {
    var members, swapped := Envelope(a, signature, flags, intent, utf8).members, AttestationJson(shown, utf8);
    AttestationObjectIgnored(members, swapped);
    EnvelopeRoundTrip(a, signature, flags, intent, utf8);
    ObjectShowsHead(shown, utf8);
  }

  /** Attestations that differ in a magic that is no UTF-8 are shown by one and the same JSON object. */
  lemma ObjectIsAmbiguous(a: CielAttestation, other: Bytes4, utf8: Utf8)
    requires utf8(a.magic).None? && utf8(other).None?
    ensures AttestationJson(a, utf8) == AttestationJson(a.(magic := other), utf8)
    ensures Get(AttestationJson(a, utf8), "magic") == Some(Str("????"))
  {
    ObjectShowsHead(a, utf8);
  }

  /** After the length check, neither the Borsh decoder nor the re-encode comparison can reject. */
  lemma ReencodeNeverRejects(envelope: Json)
    ensures FromPeaJson(envelope) != Err(WireDidNotRoundTrip) && FromPeaJson(envelope) != Err(BadBorsh)
  {
    var wire := Get(envelope, "wire");
    if wire.Some? {
      var b64 := GetStr(wire.value, "borsh_b64");
      if b64.Some? && Base64Decode(b64.value).Some? && |Base64Decode(b64.value).value| == 132 {
        EncodeDecode(Base64Decode(b64.value).value);
      }
    }
  }

  /** An accepted wire string is the one canonical base64 text of the attestation it stands for. */
  lemma AcceptedWireIsCanonical(wire: Json)
    ensures ReadWire(wire).Ok? ==>
      GetStr(wire, "fixture_version") == Some(FIXTURE_VERSION)
        && GetStr(wire, "borsh_b64") == Some(Base64Encode(Encode(ReadWire(wire).value)))
    ensures forall a ::
      (GetStr(wire, "fixture_version") == Some(FIXTURE_VERSION)
        && GetStr(wire, "borsh_b64") == Some(Base64Encode(Encode(a))))
      ==> ReadWire(wire) == Ok(a)
  {
    if ReadWire(wire).Ok? {
      Base64IsCanonical(GetStr(wire, "borsh_b64").value);
    }
    forall a | GetStr(wire, "fixture_version") == Some(FIXTURE_VERSION)
      && GetStr(wire, "borsh_b64") == Some(Base64Encode(Encode(a)))
      ensures ReadWire(wire) == Ok(a)
    {
      CanonicalWireIsRead(wire, a);
    }
  }

  /** Exactly which envelopes are accepted, and as what. */
  lemma AcceptedIff(envelope: Json, a: CielAttestation, signature: Bytes64)
    ensures FromPeaJson(envelope) == Ok((a, signature)) <==>
      && GetStr(envelope, "spec_version") == Some("ciel-pea/1.0")
      && Get(envelope, "wire").Some?
      && GetStr(Get(envelope, "wire").value, "fixture_version") == Some("ciel_attestation_v1")
      && GetStr(Get(envelope, "wire").value, "borsh_b64") == Some(Base64Encode(Encode(a)))
      && GetStr(envelope, "signature").Some?
      && HexDecode(GetStr(envelope, "signature").value) == Some(signature)
  {
    if Get(envelope, "wire").Some? {
      AcceptedWireIsCanonical(Get(envelope, "wire").value);
    }
  }

  /** Why the wire member is refused: the first of these tests it fails. */
  lemma WireRefusedIff(wire: Json)
    ensures var r, version, b64 := ReadWire(wire), GetStr(wire, "fixture_version"), GetStr(wire, "borsh_b64");
      var known := version == Some("ciel_attestation_v1");
      && (r == Err(MissingFixtureVersion) <==> version.None?)
      && (r == Err(UnsupportedFixtureVersion) <==> version.Some? && !known)
      && (r == Err(MissingBorsh) <==> known && b64.None?)
      && (r == Err(BadBase64) <==> known && b64.Some? && Base64Decode(b64.value).None?)
      && (r == Err(WireLength) <==>
            known && b64.Some? && Base64Decode(b64.value).Some? && |Base64Decode(b64.value).value| != 132)
      && r != Err(MissingSpecVersion) && r != Err(UnsupportedSpecVersion) && r != Err(MissingWire)
      && r != Err(MissingSignature) && r != Err(BadSignatureHex) && r != Err(SignatureLength)
  {
  }

  /** Why an envelope is refused: its version, then its wire member, then its signature. */
  lemma RefusedIff(envelope: Json)
    ensures var r, version, wire := FromPeaJson(envelope), GetStr(envelope, "spec_version"), Get(envelope, "wire");
      var known := version == Some("ciel-pea/1.0");
      var signed := GetStr(envelope, "signature");
      var read := known && wire.Some? && ReadWire(wire.value).Ok?;
      && (r == Err(MissingSpecVersion) <==> version.None?)
      && (r == Err(UnsupportedSpecVersion) <==> version.Some? && !known)
      && (r == Err(MissingWire) <==> known && wire.None?)
      && (known && wire.Some? && ReadWire(wire.value).Err? ==> r == Err(ReadWire(wire.value).error))
      && (r == Err(MissingSignature) <==> read && signed.None?)
      && (r == Err(BadSignatureHex) <==> read && signed.Some? && HexDecode(signed.value).None?)
      && (r == Err(SignatureLength) <==>
            read && signed.Some? && HexDecode(signed.value).Some? && |HexDecode(signed.value).value| != 64)
  {
    if Get(envelope, "wire").Some? {
      WireRefusedIff(Get(envelope, "wire").value);
    }
  }
}
