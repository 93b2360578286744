/** Checker findings and their Borsh encoding (crates/ciel-checkers/src/traits.rs). */
module CheckerTypes {
  import opened Prelude

  datatype Severity = NoSeverity | Low | Medium | High | Critical
  {
    function Rank(): (n: nat)
    {
      match this
      case NoSeverity => 0
      case Low => 1
      case Medium => 2
      case High => 3
      case Critical => 4
    }
  }

  /** Strings are their UTF-8 bytes; `data` is the serialized JSON value. */
  datatype Flag = Flag(code: Bytes, message: Bytes, data: Bytes)

  datatype CheckerOutput = CheckerOutput(name: Bytes, passed: bool, severity: Severity, flags: seq<Flag>,
                                         details: Bytes)

  datatype CheckerStatus = Completed(output: CheckerOutput) | TimedOut

  type CheckerResults = map<Bytes, CheckerStatus>

  /* ---------- Borsh encoding ---------- */

  /** Borsh refuses sequences whose length does not fit a u32; within that bound encoding succeeds. */
  predicate FlagFits(f: Flag)
  {
    |f.code| < TWO_32 && |f.message| < TWO_32 && |f.data| < TWO_32
  }

  predicate Fits(o: CheckerOutput)
  {
    && |o.name| < TWO_32 && |o.flags| < TWO_32 && |o.details| < TWO_32
    && forall f :: f in o.flags ==> FlagFits(f)
  }

  function EncodeVec(b: Bytes): (r: Bytes)
  {
    LeBytes(|b|, 4) + b
  }

  function EncodeFlag(f: Flag): (r: Bytes)
  {
    EncodeVec(f.code) + EncodeVec(f.message) + EncodeVec(f.data)
  }

  function EncodeFlags(fs: seq<Flag>): (r: Bytes)
  {
    if fs == [] then [] else EncodeFlag(fs[0]) + EncodeFlags(fs[1..])
  }

  function EncodeOutput(o: CheckerOutput): (r: Bytes)
  {
    EncodeVec(o.name)
    + [if o.passed then 1 else 0]
    + [o.severity.Rank()]
    + LeBytes(|o.flags|, 4)
    + EncodeFlags(o.flags)
    + EncodeVec(o.details)
  }

  function EncodeOutputs(os: seq<CheckerOutput>): (r: Bytes)
  {
    if os == [] then [] else EncodeOutput(os[0]) + EncodeOutputs(os[1..])
  }

  /* ---------- Borsh decoding: a value and the bytes after it ---------- */

  function DecodeLength(b: Bytes): (r: Option<(nat, Bytes)>)
    ensures r.Some? ==> |r.value.1| < |b|
  {
    if |b| < 4 then None else Some((LeNat(b[..4]), b[4..]))
  }

  function DecodeVec(b: Bytes): (r: Option<(Bytes, Bytes)>)
    ensures r.Some? ==> |r.value.1| < |b|
  {
    match DecodeLength(b)
    case None => None
    case Some((n, rest)) => if |rest| < n then None else Some((rest[..n], rest[n..]))
  }

  function DecodeFlag(b: Bytes): (r: Option<(Flag, Bytes)>)
    ensures r.Some? ==> |r.value.1| < |b|
  {
    match DecodeVec(b)
    case None => None
    case Some((code, b1)) =>
      match DecodeVec(b1)
      case None => None
      case Some((message, b2)) =>
        match DecodeVec(b2)
        case None => None
        case Some((data, b3)) => Some((Flag(code, message, data), b3))
  }

  function DecodeFlags(b: Bytes, count: nat): (r: Option<(seq<Flag>, Bytes)>)
    ensures r.Some? ==> |r.value.1| <= |b|
  {
    if count == 0 then Some(([], b)) else
      match DecodeFlag(b)
      case None => None
      case Some((f, b1)) =>
        match DecodeFlags(b1, count - 1)
        case None => None
        case Some((fs, b2)) => Some(([f] + fs, b2))
  }

  function SeverityOf(n: Byte): (s: Option<Severity>)
  {
    match n
    case 0 => Some(NoSeverity)
    case 1 => Some(Low)
    case 2 => Some(Medium)
    case 3 => Some(High)
    case 4 => Some(Critical)
    case _ => None
  }

  function DecodeTail(name: Bytes, passed: bool, severity: Severity, b: Bytes): (r: Option<(CheckerOutput, Bytes)>)
    ensures r.Some? ==> |r.value.1| < |b|
  {
    match DecodeLength(b)
    case None => None
    case Some((count, b1)) =>
      match DecodeFlags(b1, count)
      case None => None
      case Some((flags, b2)) =>
        match DecodeVec(b2)
        case None => None
        case Some((details, b3)) => Some((CheckerOutput(name, passed, severity, flags, details), b3))
  }

  function DecodeOutput(b: Bytes): (r: Option<(CheckerOutput, Bytes)>)
    ensures r.Some? ==> |r.value.1| < |b|
  {
    match DecodeVec(b)
    case None => None
    case Some((name, b1)) =>
      if |b1| < 2 || b1[0] > 1 || SeverityOf(b1[1]).None? then None
      else DecodeTail(name, b1[0] == 1, SeverityOf(b1[1]).value, b1[2..])
  }

  /** Reads outputs until the bytes run out; there is no count prefix to read. */
  function DecodeOutputs(b: Bytes): (r: Option<seq<CheckerOutput>>)
    decreases |b|
  {
    if b == [] then Some([]) else
      match DecodeOutput(b)
      case None => None
      case Some((o, rest)) =>
        match DecodeOutputs(rest)
        case None => None
        case Some(os) => Some([o] + os)
  }

  /* ---------- decoding undoes encoding ---------- */

  lemma LengthRoundTrip(n: nat, rest: Bytes)
    requires n < TWO_32
    ensures DecodeLength(LeBytes(n, 4) + rest) == Some((n, rest))
  {
    MachineWidths();
    LeNatOfLeBytes(n, 4);
    assert (LeBytes(n, 4) + rest)[..4] == LeBytes(n, 4);
  }

  lemma VecRoundTrip(v: Bytes, rest: Bytes)
    requires |v| < TWO_32
    ensures DecodeVec(EncodeVec(v) + rest) == Some((v, rest))
  {
    assert EncodeVec(v) + rest == LeBytes(|v|, 4) + (v + rest);
    LengthRoundTrip(|v|, v + rest);
  }

  lemma FlagRoundTrip(f: Flag, rest: Bytes)
    requires FlagFits(f)
    ensures DecodeFlag(EncodeFlag(f) + rest) == Some((f, rest))
  {
    var afterMessage := EncodeVec(f.data) + rest;
    var afterCode := EncodeVec(f.message) + afterMessage;
    assert EncodeFlag(f) + rest == EncodeVec(f.code) + afterCode;
    VecRoundTrip(f.code, afterCode);
    VecRoundTrip(f.message, afterMessage);
    VecRoundTrip(f.data, rest);
  }

  lemma DecodeFlagsStep(b: Bytes, count: nat, f: Flag, more: Bytes, fs: seq<Flag>, rest: Bytes)
    requires DecodeFlag(b) == Some((f, more)) && DecodeFlags(more, count) == Some((fs, rest))
    ensures DecodeFlags(b, count + 1) == Some(([f] + fs, rest))
  {
  }

  lemma {:induction false} FlagsRoundTrip(fs: seq<Flag>, rest: Bytes)
    requires forall f :: f in fs ==> FlagFits(f)
    ensures DecodeFlags(EncodeFlags(fs) + rest, |fs|) == Some((fs, rest))
  {
    if fs == [] {
      assert EncodeFlags(fs) + rest == rest;
    } else {
      var more := EncodeFlags(fs[1..]) + rest;
      AppendAssociates(EncodeFlag(fs[0]), EncodeFlags(fs[1..]), rest);
      FlagRoundTrip(fs[0], more);
      FlagsRoundTrip(fs[1..], rest);
      DecodeFlagsStep(EncodeFlag(fs[0]) + more, |fs| - 1, fs[0], more, fs[1..], rest);
      assert fs == [fs[0]] + fs[1..];
    }
  }

  lemma TailRoundTrip(o: CheckerOutput, rest: Bytes)
    requires Fits(o)
    ensures var tail := LeBytes(|o.flags|, 4) + (EncodeFlags(o.flags) + (EncodeVec(o.details) + rest));
      DecodeTail(o.name, o.passed, o.severity, tail)
         == Some((o, rest))
  {
    var afterFlags := EncodeVec(o.details) + rest;
    LengthRoundTrip(|o.flags|, EncodeFlags(o.flags) + afterFlags);
    FlagsRoundTrip(o.flags, afterFlags);
    VecRoundTrip(o.details, rest);
  }

  lemma Regroup(a: Bytes, b: Bytes, c: Bytes, d: Bytes, e: Bytes, f: Bytes, rest: Bytes)
    ensures a + b + c + d + e + f + rest == a + (b + c + (d + (e + (f + rest))))
  {
    assert d + e + f + rest == d + (e + (f + rest));
  }

  lemma DecodeAfterName(b: Bytes, name: Bytes, head: Bytes, tail: Bytes)
    requires DecodeVec(b) == Some((name, head + tail))
    requires |head| == 2 && head[0] <= 1 && SeverityOf(head[1]).Some?
    ensures DecodeOutput(b) == DecodeTail(name, head[0] == 1, SeverityOf(head[1]).value, tail)
  {
    assert (head + tail)[2..] == tail;
  }

  lemma EncodedOutputLayout(o: CheckerOutput, rest: Bytes, head: Bytes, tail: Bytes)
    requires head == [if o.passed then 1 else 0] + [o.severity.Rank()]
    requires tail == LeBytes(|o.flags|, 4) + (EncodeFlags(o.flags) + (EncodeVec(o.details) + rest))
    ensures EncodeOutput(o) + rest == EncodeVec(o.name) + (head + tail)
  {
    Regroup(EncodeVec(o.name), [if o.passed then 1 else 0], [o.severity.Rank()], LeBytes(|o.flags|, 4),
            EncodeFlags(o.flags), EncodeVec(o.details), rest);
  }

  lemma OutputReducesToTail(o: CheckerOutput, rest: Bytes, tail: Bytes)
    requires Fits(o)
    requires tail == LeBytes(|o.flags|, 4) + (EncodeFlags(o.flags) + (EncodeVec(o.details) + rest))
    ensures DecodeOutput(EncodeOutput(o) + rest) == DecodeTail(o.name, o.passed, o.severity, tail)
  {
    var head := [if o.passed then 1 else 0] + [o.severity.Rank()];
    var b := EncodeOutput(o) + rest;
    assert DecodeVec(b) == Some((o.name, head + tail)) by {
      EncodedOutputLayout(o, rest, head, tail);
      VecRoundTrip(o.name, head + tail);
    }
    DecodeAfterName(b, o.name, head, tail);
    assert SeverityOf(head[1]).value == o.severity && (head[0] == 1) == o.passed;
  }

  /** One output's encoding is self-delimiting: whatever follows it, decoding returns the output and what follows. */
  lemma OutputRoundTrip(o: CheckerOutput, rest: Bytes)
    requires Fits(o)
    ensures DecodeOutput(EncodeOutput(o) + rest) == Some((o, rest))
  {
    OutputReducesToTail(o, rest, LeBytes(|o.flags|, 4) + (EncodeFlags(o.flags) + (EncodeVec(o.details) + rest)));
    TailRoundTrip(o, rest);
  }

  /** The unprefixed concatenation of output encodings decodes to exactly the list that was encoded. */
  lemma {:induction false} OutputsRoundTrip(os: seq<CheckerOutput>)
    requires forall o :: o in os ==> Fits(o)
    ensures DecodeOutputs(EncodeOutputs(os)) == Some(os)
  {
    if os != [] {
      OutputRoundTrip(os[0], EncodeOutputs(os[1..]));
      OutputsRoundTrip(os[1..]);
      assert os == [os[0]] + os[1..];
    }
  }

  /* ---------- the layout, byte by byte ---------- */

  /** A length and its bytes sit between what comes before and what comes after. */
  lemma VecAt(before: Bytes, v: Bytes, after: Bytes)
    requires |v| < TWO_32
    ensures var b, n := before + EncodeVec(v) + after, |before|;
      LeNat(b[n..n + 4]) == |v| && b[n + 4..n + 4 + |v|] == v
  {
    MachineWidths();
    LeNatOfLeBytes(|v|, 4);
    var b, n := before + EncodeVec(v) + after, |before|;
    assert b[n..n + 4] == LeBytes(|v|, 4);
  }

  /** A flag is its code's length and bytes, then its message's, then its data's. */
  lemma FlagLayout(f: Flag)
    requires FlagFits(f)
    ensures var b, m, d := EncodeFlag(f), 4 + |f.code|, 8 + |f.code| + |f.message|;
      && |b| == d + 4 + |f.data|
      && LeNat(b[0..4]) == |f.code| && b[4..m] == f.code
      && LeNat(b[m..m + 4]) == |f.message| && b[m + 4..d] == f.message
      && LeNat(b[d..d + 4]) == |f.data| && b[d + 4..] == f.data
  {
    var b, m, d := EncodeFlag(f), 4 + |f.code|, 8 + |f.code| + |f.message|;
    var code, message, data := EncodeVec(f.code), EncodeVec(f.message), EncodeVec(f.data);
    VecAt([], f.code, message + data);
    assert [] + code + (message + data) == b;
    VecAt(code, f.message, data);
    VecAt(code + message, f.data, []);
    assert code + message + data + [] == b;
    assert b[d + 4..] == b[d + 4..d + 4 + |f.data|];
  }

  /** Flags follow one another in list order. */
  lemma {:induction false} FlagsLayout(fs: seq<Flag>, gs: seq<Flag>)
    ensures EncodeFlags(fs + gs) == EncodeFlags(fs) + EncodeFlags(gs)
  {
    if fs == [] {
      assert fs + gs == gs;
    } else {
      assert (fs + gs)[1..] == fs[1..] + gs;
      FlagsLayout(fs[1..], gs);
      AppendAssociates(EncodeFlag(fs[0]), EncodeFlags(fs[1..]), EncodeFlags(gs));
    }
  }

  lemma OneFlagLayout(f: Flag)
    ensures EncodeFlags([f]) == EncodeFlag(f)
  {
    assert EncodeFlags([f]) == EncodeFlag(f) + EncodeFlags([f][1..]);
  }

  /** What stands between an output's name and its details. */
  lemma MiddleLayout(before: Bytes, o: CheckerOutput, after: Bytes, b: Bytes)
    requires |o.flags| < TWO_32
    requires b == before + ([if o.passed then 1 else 0] + [o.severity.Rank()]
                            + LeBytes(|o.flags|, 4) + EncodeFlags(o.flags)) + after
    ensures var n := |before|;
      && |b| >= n + 6 + |EncodeFlags(o.flags)|
      && b[n] == (if o.passed then 1 else 0)
      && b[n + 1] == o.severity.Rank()
      && LeNat(b[n + 2..n + 6]) == |o.flags|
      && b[n + 6..n + 6 + |EncodeFlags(o.flags)|] == EncodeFlags(o.flags)
  {
    MachineWidths();
    LeNatOfLeBytes(|o.flags|, 4);
    var n := |before|;
    assert b[n + 2..n + 6] == LeBytes(|o.flags|, 4);
  }

  lemma RankByte(s: Severity)
    ensures s.Rank() == 0 <==> s == NoSeverity
    ensures s.Rank() == 1 <==> s == Low
    ensures s.Rank() == 2 <==> s == Medium
    ensures s.Rank() == 3 <==> s == High
    ensures s.Rank() == 4 <==> s == Critical
  {
  }

  function Middle(o: CheckerOutput): (b: Bytes)
  {
    [if o.passed then 1 else 0] + [o.severity.Rank()] + LeBytes(|o.flags|, 4) + EncodeFlags(o.flags)
  }

  lemma ThreeParts(o: CheckerOutput)
    ensures EncodeOutput(o) == EncodeVec(o.name) + Middle(o) + EncodeVec(o.details)
  {
    RegroupMiddle(EncodeVec(o.name), [if o.passed then 1 else 0], [o.severity.Rank()], LeBytes(|o.flags|, 4),
                  EncodeFlags(o.flags), EncodeVec(o.details));
  }

  lemma RegroupMiddle(a: Bytes, b: Bytes, c: Bytes, d: Bytes, e: Bytes, f: Bytes)
    ensures a + b + c + d + e + f == a + (b + c + d + e) + f
  {
  }

  lemma VecFirst(v: Bytes, after: Bytes)
    requires |v| < TWO_32
    ensures LeNat((EncodeVec(v) + after)[0..4]) == |v| && (EncodeVec(v) + after)[4..4 + |v|] == v
  {
    VecAt([], v, after);
    assert [] + EncodeVec(v) + after == EncodeVec(v) + after;
  }

  lemma VecLast(before: Bytes, v: Bytes)
    requires |v| < TWO_32
    ensures var b, n := before + EncodeVec(v), |before|; LeNat(b[n..n + 4]) == |v| && b[n + 4..] == v
  {
    VecAt(before, v, []);
    assert before + EncodeVec(v) + [] == before + EncodeVec(v);
    assert (before + EncodeVec(v))[|before| + 4..] == v;
  }

  /** An output starts with the length and bytes of its name and ends with those of its details. */
  lemma OutputEnds(o: CheckerOutput)
    requires Fits(o)
    ensures var b, d := EncodeOutput(o), 4 + |o.name| + |Middle(o)|;
      && |b| == d + 4 + |o.details|
      && LeNat(b[0..4]) == |o.name| && b[4..4 + |o.name|] == o.name
      && LeNat(b[d..d + 4]) == |o.details| && b[d + 4..] == o.details
  {
    ThreeParts(o);
    AppendAssociates(EncodeVec(o.name), Middle(o), EncodeVec(o.details));
    VecFirst(o.name, Middle(o) + EncodeVec(o.details));
    VecLast(EncodeVec(o.name) + Middle(o), o.details);
  }

  /**
   * In between stand a byte 0 or 1 for `passed`, a byte 0 to 4 for None to Critical, the number of flags, and the
   * flags.
   */
  lemma OutputMiddle(o: CheckerOutput)
    requires Fits(o)
    ensures var b, n, flags := EncodeOutput(o), 4 + |o.name|, EncodeFlags(o.flags);
      && |Middle(o)| == 6 + |flags| && |b| >= n + 6 + |flags|
      && b[n] == (if o.passed then 1 else 0)
      && (b[n + 1] == 0 <==> o.severity == NoSeverity) && (b[n + 1] == 1 <==> o.severity == Low)
      && (b[n + 1] == 2 <==> o.severity == Medium) && (b[n + 1] == 3 <==> o.severity == High)
      && (b[n + 1] == 4 <==> o.severity == Critical)
      && LeNat(b[n + 2..n + 6]) == |o.flags| && b[n + 6..n + 6 + |flags|] == flags
  {
    ThreeParts(o);
    RankByte(o.severity);
    MiddleLayout(EncodeVec(o.name), o, EncodeVec(o.details), EncodeOutput(o));
  }
}
