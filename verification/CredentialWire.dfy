/** The bytes the credential broker (C#) and its client (TypeScript) exchange. */
module CredentialWire {
  import opened Common
  import opened Texts
  import opened Utf8

  const VERSION := 1
  const MAGIC: Bytes := [0x4D, 0x43, 0x50, 0x43, 0x52, 0x44, 0x30, 0x31]        // MCPCRD01
  const WRITE_MAGIC: Bytes := [0x4D, 0x43, 0x50, 0x43, 0x52, 0x57, 0x30, 0x31]  // MCPCRW01
  const MAX_NONCE := 4_096
  const MAX_SECRET := 65_536
  const MAX_WRITE_USERNAME := 4_096
  const MAX_PAYLOAD := 140_000

  // ---------------------------------------------------------------- little-endian integers

  type Int32 = x: int | -0x8000_0000 <= x < 0x8000_0000

  function Int32ToBytes(x: Int32): (r: Bytes)
    ensures |r| == 4
  {
    var u: int := if x < 0 then x + 0x1_0000_0000 else x;
    [u % 0x100, u / 0x100 % 0x100, u / 0x1_0000 % 0x100, u / 0x100_0000 % 0x100]
  }

  function BytesToInt32(b: Bytes): Int32
    requires |b| == 4
  {
    var b0: int, b1: int, b2: int, b3: int := b[0], b[1], b[2], b[3];
    var u := b0 + b1 * 0x100 + b2 * 0x1_0000 + b3 * 0x100_0000;
    if u >= 0x8000_0000 then u - 0x1_0000_0000 else u
  }

  lemma Base256(u: int)
    requires 0 <= u < 0x1_0000_0000
    ensures u == u % 0x100 + u / 0x100 % 0x100 * 0x100 + u / 0x1_0000 % 0x100 * 0x1_0000 + u / 0x100_0000 % 0x100 * 0x100_0000
  {
    var v := u / 0x100;
    var w := v / 0x100;
    assert w == u / 0x1_0000 && w / 0x100 == u / 0x100_0000;
  }

  lemma Base256Digits(d0: int, d1: int, d2: int, d3: int)
    requires 0 <= d0 < 0x100 && 0 <= d1 < 0x100 && 0 <= d2 < 0x100 && 0 <= d3 < 0x100
    ensures var u := d0 + d1 * 0x100 + d2 * 0x1_0000 + d3 * 0x100_0000;
            u % 0x100 == d0 && u / 0x100 % 0x100 == d1 && u / 0x1_0000 % 0x100 == d2 && u / 0x100_0000 % 0x100 == d3
  {
    var u := d0 + d1 * 0x100 + d2 * 0x1_0000 + d3 * 0x100_0000;
    assert u / 0x100 == d1 + d2 * 0x100 + d3 * 0x1_0000;
    assert u / 0x1_0000 == d2 + d3 * 0x100;
  }

  /** The two conversions are inverse to each other. */
  lemma Int32RoundTrip(x: Int32, b: Bytes)
    requires |b| == 4
    ensures BytesToInt32(Int32ToBytes(x)) == x
    ensures Int32ToBytes(BytesToInt32(b)) == b
  {
    Base256(if x < 0 then x + 0x1_0000_0000 else x);
    Base256Digits(b[0], b[1], b[2], b[3]);
  }

  // ---------------------------------------------------------------- frames

  /** A length-prefixed field. */
  function Field(value: Bytes): (r: Bytes)
    requires |value| < 0x8000_0000
    ensures |r| == 4 + |value|
  {
    Int32ToBytes(|value|) + value
  }

  datatype Frame = Frame(version: Int32, status: Int32, processId: Int32, nonce: Bytes, username: Bytes, password: Bytes)

  predicate InBounds(f: Frame) {
    |f.nonce| <= MAX_NONCE && |f.username| <= MAX_SECRET && |f.password| <= MAX_SECRET
  }

  function Header(f: Frame): (r: Bytes)
    ensures |r| == 20
  {
    MAGIC + Int32ToBytes(f.version) + Int32ToBytes(f.status) + Int32ToBytes(f.processId)
  }

  /** What the C# side writes for a response. */
  function Encoded(f: Frame): (r: Bytes)
    requires InBounds(f)
    ensures |r| == 32 + |f.nonce| + |f.username| + |f.password| <= 135_200
  {
    Header(f) + Field(f.nonce) + Field(f.username) + Field(f.password)
  }

  // ---------------------------------------------------------------- the reader's specification

  datatype Got<+T> = Got(value: T, next: nat)

  /** `readInt32`: none when it would run past the end. */
  function Int32At(payload: Bytes, offset: nat): (r: Option<Int32>) {
    if offset + 4 > |payload| then None else Some(BytesToInt32(payload[offset..offset + 4]))
  }

  /** `readBuffer`: none when the length is negative, too large, or runs past the end. */
  function FieldAt(payload: Bytes, offset: nat, maximum: nat): (r: Option<Got<Bytes>>)
    ensures r.Some? ==> r.value.next == offset + 4 + |r.value.value| <= |payload| && |r.value.value| <= maximum
  {
    match Int32At(payload, offset)
    case None => None
    case Some(length) =>
      if length < 0 || length > maximum || offset + 4 + length > |payload| then None
      else Some(Got(payload[offset + 4..offset + 4 + length], offset + 4 + length))
  }

  lemma FieldAtIff(payload: Bytes, offset: nat, maximum: nat, value: Bytes)
    requires maximum < 0x8000_0000
    ensures FieldAt(payload, offset, maximum) == Some(Got(value, offset + 4 + |value|)) <==>
            |value| <= maximum && offset + 4 + |value| <= |payload| && payload[offset..offset + 4 + |value|] == Field(value)
  {
    var end := offset + 4 + |value|;
    if end <= |payload| {
      var slice := payload[offset..end];
      assert slice[..4] == payload[offset..offset + 4] && slice[4..] == payload[offset + 4..end];
      if |value| <= maximum {
        Int32RoundTrip(|value|, payload[offset..offset + 4]);
        if slice == Field(value) {
          assert slice[..4] == Int32ToBytes(|value|) && slice[4..] == value;
        }
        if FieldAt(payload, offset, maximum) == Some(Got(value, end)) {
          assert payload[offset..offset + 4] == Int32ToBytes(|value|);
          assert slice == slice[..4] + slice[4..];
        }
      }
    }
  }

  /** After what has been read, a field is read exactly when its length-prefixed bytes come next. */
  lemma FieldPrefixIff(input: Bytes, pre: Bytes, maximum: nat, value: Bytes)
    requires maximum < 0x8000_0000 && pre <= input
    ensures FieldAt(input, |pre|, maximum) == Some(Got(value, |pre| + 4 + |value|)) <==>
            |value| <= maximum && pre + Field(value) <= input
  {
    FieldAtIff(input, |pre|, maximum, value);
    var end := |pre| + 4 + |value|;
    if |value| <= maximum && end <= |input| {
      var slice := input[|pre|..end];
      assert input[..end] == pre + slice;
      if pre + Field(value) <= input {
        assert input[..end] == pre + Field(value);
        assert slice == input[..end][|pre|..] == (pre + Field(value))[|pre|..] == Field(value);
      }
    }
  }

  /** What both response parsers read first: a frame and where it ends, or how they fail before that. */
  datatype Framing = Unreadable | BadMagic | Framed(frame: Frame, end: nat)

  function ReadFrame(payload: Bytes): Framing {
    if |payload| < 8 then Unreadable
    else if payload[..8] != MAGIC then BadMagic
    else
      match (Int32At(payload, 8), Int32At(payload, 12), Int32At(payload, 16), FieldAt(payload, 20, MAX_NONCE))
      case (Some(version), Some(status), Some(pid), Some(Got(nonce, o1))) =>
        (match FieldAt(payload, o1, MAX_SECRET)
         case None => Unreadable
         case Some(Got(username, o2)) =>
           match FieldAt(payload, o2, MAX_SECRET)
           case None => Unreadable
           case Some(Got(password, o3)) => Framed(Frame(version, status, pid, nonce, username, password), o3))
      case _ => Unreadable
  }

  /** The first twenty bytes are the header of `f` exactly when its four parts are read from them. */
  lemma HeaderIff(p: Bytes, f: Frame)
    requires |p| >= 20
    ensures p[..20] == Header(f) <==>
            p[..8] == MAGIC && Int32At(p, 8) == Some(f.version) && Int32At(p, 12) == Some(f.status) && Int32At(p, 16) == Some(f.processId)
  {
    Int32AtIff(p, 8, f.version);
    Int32AtIff(p, 12, f.status);
    Int32AtIff(p, 16, f.processId);
    var h := p[..20];
    assert h[..8] == p[..8] && h[8..12] == p[8..12] && h[12..16] == p[12..16] && h[16..20] == p[16..20];
    FourParts(h, MAGIC, Int32ToBytes(f.version), Int32ToBytes(f.status), Int32ToBytes(f.processId));
  }

  lemma FourParts(h: Bytes, a: Bytes, b: Bytes, c: Bytes, d: Bytes)
    requires |h| == 20 && |a| == 8 && |b| == |c| == |d| == 4
    ensures h == a + b + c + d <==> h[..8] == a && h[8..12] == b && h[12..16] == c && h[16..20] == d
  {
    assert h == h[..8] + h[8..12] + h[12..16] + h[16..20];
  }

  lemma Int32AtIff(payload: Bytes, offset: nat, x: Int32)
    ensures Int32At(payload, offset) == Some(x) <==>
            offset + 4 <= |payload| && payload[offset..offset + 4] == Int32ToBytes(x)
  {
    if offset + 4 <= |payload| {
      Int32RoundTrip(x, payload[offset..offset + 4]);
    }
  }

  /** A length the reader allows is read back as the field; a longer one is refused. */
  lemma FieldReadsBack(input: Bytes, offset: nat, maximum: nat, value: Bytes)
    requires maximum < 0x8000_0000 && |value| < 0x8000_0000
    requires offset + 4 + |value| <= |input| && input[offset..offset + 4 + |value|] == Field(value)
    ensures FieldAt(input, offset, maximum) == if |value| <= maximum then Some(Got(value, offset + 4 + |value|)) else None
  {
    FieldAtIff(input, offset, maximum, value);
    if |value| > maximum {
      assert input[offset..offset + 4] == input[offset..offset + 4 + |value|][..4] == Int32ToBytes(|value|);
      Int32AtIff(input, offset, |value|);
    }
  }

  lemma FramedParts(payload: Bytes, f: Frame, end: nat)
    requires ReadFrame(payload) == Framed(f, end)
    ensures var o1 := 24 + |f.nonce|;
            var o2 := o1 + 4 + |f.username|;
            && |payload| >= 20 && payload[..20] == Header(f) && InBounds(f)
            && FieldAt(payload, 20, MAX_NONCE) == Some(Got(f.nonce, o1))
            && FieldAt(payload, o1, MAX_SECRET) == Some(Got(f.username, o2))
            && FieldAt(payload, o2, MAX_SECRET) == Some(Got(f.password, end))
  {
    HeaderIff(payload, f);
  }

  /** A payload frames completely exactly when it is the encoding of that frame, byte for byte. */
  lemma ReadFrameIff(payload: Bytes, f: Frame)
    ensures ReadFrame(payload) == Framed(f, |payload|) <==> InBounds(f) && payload == Encoded(f)
  {
    ReadFramePrefixIff(payload, f, |payload|);
    if Begins(payload, f) && |payload| == |Encoded(f)| {
      assert payload == payload[..|payload|] == Encoded(f);
    }
  }

  function FrameLength(f: Frame): nat {
    32 + |f.nonce| + |f.username| + |f.password|
  }

  /** The payload begins with the encoding of a frame. */
  predicate Begins(payload: Bytes, f: Frame) {
    InBounds(f) && Encoded(f) <= payload
  }

  /** A frame is read exactly when the payload begins with its encoding. */
  lemma ReadFramePrefixIff(payload: Bytes, f: Frame, end: nat)
    ensures ReadFrame(payload) == Framed(f, end) <==> Begins(payload, f) && end == |Encoded(f)|
  {
    if Begins(payload, f) {
      BeginsFrames(payload, f);
    }
    if ReadFrame(payload) == Framed(f, end) {
      FramedBegins(payload, f, end);
    }
  }

  lemma HeaderFirst(payload: Bytes, f: Frame)
    requires Begins(payload, f)
    ensures Header(f) <= payload && |payload| >= 20 && payload[..20] == Header(f) && payload[..8] == MAGIC
  {
    var rest := Field(f.nonce) + Field(f.username) + Field(f.password);
    assert Encoded(f) == Header(f) + rest;
    PrefixOfPrefix(Header(f), rest, payload);
    assert payload[..8] == payload[..20][..8] == Header(f)[..8];
  }

  lemma BeginsFrames(payload: Bytes, f: Frame)
    requires Begins(payload, f)
    ensures ReadFrame(payload) == Framed(f, |Encoded(f)|)
  {
    BeginsParts(payload, f);
    PartsFrame(payload, f, |Encoded(f)|);
  }

  lemma BeginsParts(payload: Bytes, f: Frame)
    requires Begins(payload, f)
    ensures |payload| >= 20 && payload[..8] == MAGIC
    ensures Int32At(payload, 8) == Some(f.version) && Int32At(payload, 12) == Some(f.status) && Int32At(payload, 16) == Some(f.processId)
    ensures FieldAt(payload, 20, MAX_NONCE) == Some(Got(f.nonce, 24 + |f.nonce|))
    ensures FieldAt(payload, 24 + |f.nonce|, MAX_SECRET) == Some(Got(f.username, 28 + |f.nonce| + |f.username|))
    ensures FieldAt(payload, 28 + |f.nonce| + |f.username|, MAX_SECRET) == Some(Got(f.password, |Encoded(f)|))
  {
    HeaderFirst(payload, f);
    HeaderIff(payload, f);
    BeginsFields(payload, f);
  }

  lemma BeginsFields(payload: Bytes, f: Frame)
    requires Begins(payload, f) && Header(f) <= payload
    ensures FieldAt(payload, 20, MAX_NONCE) == Some(Got(f.nonce, 24 + |f.nonce|))
    ensures FieldAt(payload, 24 + |f.nonce|, MAX_SECRET) == Some(Got(f.username, 28 + |f.nonce| + |f.username|))
    ensures FieldAt(payload, 28 + |f.nonce| + |f.username|, MAX_SECRET) == Some(Got(f.password, |Encoded(f)|))
  {
    FieldChain(payload, Header(f), f.nonce, f.username, f.password);
  }

  lemma PartsFrame(payload: Bytes, f: Frame, end: nat)
    requires |payload| >= 20 && payload[..8] == MAGIC
    requires Int32At(payload, 8) == Some(f.version) && Int32At(payload, 12) == Some(f.status) && Int32At(payload, 16) == Some(f.processId)
    requires FieldAt(payload, 20, MAX_NONCE) == Some(Got(f.nonce, 24 + |f.nonce|))
    requires FieldAt(payload, 24 + |f.nonce|, MAX_SECRET) == Some(Got(f.username, 28 + |f.nonce| + |f.username|))
    requires FieldAt(payload, 28 + |f.nonce| + |f.username|, MAX_SECRET) == Some(Got(f.password, end))
    ensures ReadFrame(payload) == Framed(f, end)
  {
  }

  lemma FramedBegins(payload: Bytes, f: Frame, end: nat)
    requires ReadFrame(payload) == Framed(f, end)
    ensures Begins(payload, f) && end == |Encoded(f)|
  {
    FramedParts(payload, f, end);
    assert Header(f) <= payload;
    PartsBegin(payload, f, end);
  }

  lemma PartsBegin(payload: Bytes, f: Frame, end: nat)
    requires Header(f) <= payload && InBounds(f)
    requires FieldAt(payload, 20, MAX_NONCE) == Some(Got(f.nonce, 24 + |f.nonce|))
    requires FieldAt(payload, 24 + |f.nonce|, MAX_SECRET) == Some(Got(f.username, 28 + |f.nonce| + |f.username|))
    requires FieldAt(payload, 28 + |f.nonce| + |f.username|, MAX_SECRET) == Some(Got(f.password, end))
    ensures Begins(payload, f) && end == |Encoded(f)|
  {
    ChainEnds(payload, Header(f), f.nonce, f.username, f.password, end);
  }

  lemma ChainEnds(payload: Bytes, pre: Bytes, n: Bytes, u: Bytes, p: Bytes, end: nat)
    requires pre <= payload && |n| <= MAX_NONCE && |u| <= MAX_SECRET && |p| <= MAX_SECRET
    requires FieldAt(payload, |pre|, MAX_NONCE) == Some(Got(n, |pre| + 4 + |n|))
    requires FieldAt(payload, |pre| + 4 + |n|, MAX_SECRET) == Some(Got(u, |pre| + 8 + |n| + |u|))
    requires FieldAt(payload, |pre| + 8 + |n| + |u|, MAX_SECRET) == Some(Got(p, end))
    ensures pre + Field(n) + Field(u) + Field(p) <= payload && end == |pre| + 12 + |n| + |u| + |p|
  {
    FieldChain(payload, pre, n, u, p);
  }

  /** The three ways a payload can be read, in terms of its bytes. */
  lemma FramingExactly(payload: Bytes)
    ensures ReadFrame(payload).BadMagic? <==> |payload| >= 8 && !(MAGIC <= payload)
    ensures ReadFrame(payload).Unreadable? <==> |payload| < 8 || (MAGIC <= payload && !exists f :: Begins(payload, f))
    ensures forall f :: Begins(payload, f) <==> ReadFrame(payload) == Framed(f, FrameLength(f))
  {
    assert |payload| >= 8 ==> (MAGIC <= payload <==> payload[..8] == MAGIC);
    forall f ensures Begins(payload, f) <==> ReadFrame(payload) == Framed(f, FrameLength(f)) {
      ReadFramePrefixIff(payload, f, FrameLength(f));
    }
    if ReadFrame(payload).Framed? {
      ReadFramePrefixIff(payload, ReadFrame(payload).frame, ReadFrame(payload).end);
    }
  }

  // ---------------------------------------------------------------- what the client makes of a response

  datatype Outcome =
    | Success(username: Bytes, password: Bytes)
    | Unavailable
    | AccessDenied
    | ProtocolMismatch
    | BrokerUnavailable
    | Threw

  predicate Expected(f: Frame, nonce: Bytes, pid: Option<Int32>) {
    f.version == VERSION && f.nonce == nonce && (pid.Some? ==> f.processId == pid.value)
  }

  /** What `parseBrokerPayload` makes of what it has read from a payload of some length. */
  function JudgeRead(framing: Framing, length: nat, nonce: Bytes, pid: Option<Int32>): Outcome {
    match framing
    case Unreadable => Threw
    case BadMagic => ProtocolMismatch
    case Framed(f, end) =>
      if end != length || !Expected(f, nonce, pid) then ProtocolMismatch
      else if f.status == 0 then
        if f.username == [] || f.password == [] then ProtocolMismatch else Success(f.username, f.password)
      else if f.status == 1 then Unavailable
      else if f.status == 2 then AccessDenied
      else if f.status == 3 then ProtocolMismatch
      else BrokerUnavailable
  }

  /** The outcome of `parseBrokerPayload`. */
  function ReadOutcome(payload: Bytes, nonce: Bytes, pid: Option<Int32>): Outcome {
    JudgeRead(ReadFrame(payload), |payload|, nonce, pid)
  }

  /** The same for `parseBrokerStatusPayload`; a success carries no secret. */
  function JudgeWrite(framing: Framing, length: nat, nonce: Bytes, pid: Option<Int32>): Outcome {
    match framing
    case Unreadable => Threw
    case BadMagic => ProtocolMismatch
    case Framed(f, end) =>
      if end != length || !Expected(f, nonce, pid) then ProtocolMismatch
      else if f.status == 0 then Success([], [])
      else if f.status == 2 then AccessDenied
      else if f.status == 3 then ProtocolMismatch
      else BrokerUnavailable
  }

  function WriteOutcome(payload: Bytes, nonce: Bytes, pid: Option<Int32>): Outcome {
    JudgeWrite(ReadFrame(payload), |payload|, nonce, pid)
  }

  /**
   With a known process id, the secret (u, p) is returned if and only if the payload is exactly the
   response with status 0, that id, that nonce, u and p, both non-empty and in bounds.
   */
  lemma ReadSucceedsIff(payload: Bytes, nonce: Bytes, pid: Int32, u: Bytes, p: Bytes)
    ensures ReadOutcome(payload, nonce, Some(pid)) == Success(u, p) <==>
            var f := Frame(VERSION, 0, pid, nonce, u, p);
            u != [] && p != [] && InBounds(f) && payload == Encoded(f)
  {
    var f := Frame(VERSION, 0, pid, nonce, u, p);
    ReadFrameIff(payload, f);
    if ReadOutcome(payload, nonce, Some(pid)) == Success(u, p) {
      assert ReadFrame(payload).frame == f;
    }
  }

  /** Every other verdict about the broker also rests on a complete, exact response. */
  lemma VerdictsComeFromResponses(payload: Bytes, nonce: Bytes, pid: Option<Int32>)
    requires var r := ReadOutcome(payload, nonce, pid); r.Success? || r.Unavailable? || r.AccessDenied? || r.BrokerUnavailable?
    ensures var f := ReadFrame(payload).frame;
            && InBounds(f) && payload == Encoded(f) && Expected(f, nonce, pid)
            && ReadOutcome(payload, nonce, pid) ==
               (if f.status == 0 then Success(f.username, f.password) else if f.status == 1 then Unavailable
                else if f.status == 2 then AccessDenied else BrokerUnavailable)
  {
    ReadFrameIff(payload, ReadFrame(payload).frame);
  }

  /**
   The other two outcomes, in terms of the bytes. Reading throws on a payload that is too short for
   the magic, or has the magic but begins with no encoding. It reports a mismatch for another magic,
   and for an encoding that something follows, that is not the expected one, or that says nothing.
   */
  lemma RefusalsExactly(payload: Bytes, nonce: Bytes, pid: Option<Int32>)
    ensures ReadOutcome(payload, nonce, pid).Threw? <==> |payload| < 8 || (MAGIC <= payload && !exists f :: Begins(payload, f))
    ensures WriteOutcome(payload, nonce, pid).Threw? <==> ReadOutcome(payload, nonce, pid).Threw?
    ensures ReadOutcome(payload, nonce, pid).ProtocolMismatch? <==>
            (|payload| >= 8 && !(MAGIC <= payload)) ||
            exists f :: Begins(payload, f) &&
                        (FrameLength(f) < |payload| || !Expected(f, nonce, pid) || f.status == 3 ||
                         (f.status == 0 && (f.username == [] || f.password == [])))
    ensures WriteOutcome(payload, nonce, pid).ProtocolMismatch? <==>
            (|payload| >= 8 && !(MAGIC <= payload)) ||
            exists f :: Begins(payload, f) && (FrameLength(f) < |payload| || !Expected(f, nonce, pid) || f.status == 3)
  {
    FramingExactly(payload);
    if ReadFrame(payload).Framed? {
      ReadFramePrefixIff(payload, ReadFrame(payload).frame, ReadFrame(payload).end);
      PrefixOfPrefix(MAGIC, Header(ReadFrame(payload).frame)[8..], payload);
    }
    JudgedExactly(ReadFrame(payload), |payload|, f => Begins(payload, f), nonce, pid);
  }

  lemma JudgedExactly(framing: Framing, length: nat, begins: Frame -> bool, nonce: Bytes, pid: Option<Int32>)
    requires forall f :: begins(f) <==> framing == Framed(f, FrameLength(f))
    requires framing.Framed? ==> begins(framing.frame) && framing.end <= length
    ensures JudgeRead(framing, length, nonce, pid).Threw? <==> framing.Unreadable?
    ensures JudgeWrite(framing, length, nonce, pid).Threw? <==> framing.Unreadable?
    ensures JudgeRead(framing, length, nonce, pid).ProtocolMismatch? <==>
            framing.BadMagic? ||
            exists f :: begins(f) && (FrameLength(f) < length || !Expected(f, nonce, pid) || f.status == 3 ||
                                      (f.status == 0 && (f.username == [] || f.password == [])))
    ensures JudgeWrite(framing, length, nonce, pid).ProtocolMismatch? <==>
            framing.BadMagic? || exists f :: begins(f) && (FrameLength(f) < length || !Expected(f, nonce, pid) || f.status == 3)
  {
  }

  /** A write is reported denied or failed only by an exact response. */
  lemma WriteVerdictsComeFromResponses(payload: Bytes, nonce: Bytes, pid: Option<Int32>)
    requires var r := WriteOutcome(payload, nonce, pid); r.AccessDenied? || r.BrokerUnavailable? || r.Unavailable?
    ensures var f := ReadFrame(payload).frame;
            && InBounds(f) && payload == Encoded(f) && Expected(f, nonce, pid) && f.status != 0 && f.status != 3
            && WriteOutcome(payload, nonce, pid) == (if f.status == 2 then AccessDenied else BrokerUnavailable)
  {
    ReadFrameIff(payload, ReadFrame(payload).frame);
  }

  /** A write is reported done if and only if the payload is an exact response with status 0. */
  lemma WriteSucceedsIff(payload: Bytes, nonce: Bytes, pid: Int32)
    ensures WriteOutcome(payload, nonce, Some(pid)).Success? <==>
            exists u, p :: InBounds(Frame(VERSION, 0, pid, nonce, u, p)) && payload == Encoded(Frame(VERSION, 0, pid, nonce, u, p))
  {
    if WriteOutcome(payload, nonce, Some(pid)).Success? {
      var f := ReadFrame(payload).frame;
      ReadFrameIff(payload, f);
      assert f == Frame(VERSION, 0, pid, nonce, f.username, f.password);
    }
    forall u, p | InBounds(Frame(VERSION, 0, pid, nonce, u, p)) && payload == Encoded(Frame(VERSION, 0, pid, nonce, u, p))
      ensures WriteOutcome(payload, nonce, Some(pid)).Success?
    {
      ReadFrameIff(payload, Frame(VERSION, 0, pid, nonce, u, p));
    }
  }

  // ---------------------------------------------------------------- the client's parsers, in place

  function Zeros(n: nat): (r: Bytes)
    ensures |r| == n && forall i :: 0 <= i < n ==> r[i] == 0
  {
    seq(n, _ => 0)
  }

  /** `payload.fill(0)`. */
  method Wipe(a: array<Byte>)
    modifies a
    ensures a[..] == Zeros(a.Length)
    ensures forall i :: 0 <= i < a.Length ==> a[i] == 0
  {
    for i := 0 to a.Length
      invariant forall j :: 0 <= j < i ==> a[j] == 0
    {
      a[i] := 0;
    }
  }

  /** `Buffer.from(payload.subarray(offset, offset + length))`: a copy, not a view. */
  method CopyOut(payload: array<Byte>, offset: nat, length: nat) returns (value: array<Byte>)
    requires offset + length <= payload.Length
    ensures fresh(value) && value[..] == payload[offset..offset + length]
  {
    value := new Byte[length];
    for i := 0 to length
      invariant forall j :: 0 <= j < i ==> value[j] == payload[offset + j]
    {
      value[i] := payload[offset + i];
    }
  }

  method ReadBuffer(payload: array<Byte>, offset: nat, maximum: nat) returns (r: Option<Got<array<Byte>>>)
    ensures r.None? <==> FieldAt(payload[..], offset, maximum).None?
    ensures r.Some? ==> fresh(r.value.value) && FieldAt(payload[..], offset, maximum) == Some(Got(r.value.value[..], r.value.next))
  {
    if offset + 4 > payload.Length {
      return None;
    }
    var length := BytesToInt32(payload[offset..offset + 4]);
    assert payload[..][offset..offset + 4] == payload[offset..offset + 4];
    if length < 0 || length > maximum || offset + 4 + length > payload.Length {
      return None;
    }
    var value := CopyOut(payload, offset + 4, length);
    assert payload[..][offset + 4..offset + 4 + length] == payload[offset + 4..offset + 4 + length];
    return Some(Got(value, offset + 4 + length));
  }

  class CredentialSecret {
    const username: array<Byte>
    const password: array<Byte>
    var disposed: bool

    constructor (username: array<Byte>, password: array<Byte>)
      ensures this.username == username && this.password == password && !disposed
    {
      this.username, this.password, disposed := username, password, false;
    }

    method Dispose()
      modifies this, username, password
      ensures disposed
      ensures old(disposed) ==> username[..] == old(username[..]) && password[..] == old(password[..])
      ensures !old(disposed) ==> forall i :: 0 <= i < username.Length ==> username[i] == 0
      ensures !old(disposed) ==> forall i :: 0 <= i < password.Length ==> password[i] == 0
    {
      if disposed {
        return;
      }
      disposed := true;
      Wipe(username);
      Wipe(password);
    }
  }

  /** The verdict handed to the caller, with the secret in buffers of its own. */
  datatype ReadResult = Secret(secret: CredentialSecret) | Verdict(outcome: Outcome)

  /** The fields that are copied out of a payload, up to the first that cannot be read. */
  function Copied(payload: Bytes): seq<Bytes> {
    if |payload| < 20 || payload[..8] != MAGIC then []
    else
      match FieldAt(payload, 20, MAX_NONCE)
      case None => []
      case Some(Got(nonce, o1)) =>
        match FieldAt(payload, o1, MAX_SECRET)
        case None => [nonce]
        case Some(Got(username, o2)) =>
          match FieldAt(payload, o2, MAX_SECRET)
          case None => [nonce, username]
          case Some(Got(password, _)) => [nonce, username, password]
  }

  /** What those copies hold when `parseBrokerPayload` is done with what it has read from a payload of some length. */
  function LeftOf(framing: Framing, copied: seq<Bytes>, length: nat, nonce: Bytes, pid: Option<Int32>): seq<Bytes> {
    match framing
    case Framed(f, end) =>
      if end != length || f.version != VERSION || (pid.Some? && f.processId != pid.value) then copied
      else if f.nonce != nonce || JudgeRead(framing, length, nonce, pid).Success? then [Zeros(|f.nonce|), f.username, f.password]
      else [Zeros(|f.nonce|), Zeros(|f.username|), Zeros(|f.password|)]
    case _ => copied
  }

  function Left(payload: Bytes, nonce: Bytes, pid: Option<Int32>): seq<Bytes> {
    LeftOf(ReadFrame(payload), Copied(payload), |payload|, nonce, pid)
  }

  /** Which fields are copied out: those that follow the header one after the other, each within its limit. */
  lemma CopiedExactly(payload: Bytes, header: Bytes, n: Bytes, u: Bytes, p: Bytes)
    requires |header| == 20 && header <= payload && payload[..8] == MAGIC && |n| <= MAX_NONCE && |u| <= MAX_SECRET && |p| <= MAX_SECRET
    ensures |Copied(payload)| >= 1 && Copied(payload)[0] == n <==> header + Field(n) <= payload
    ensures |Copied(payload)| >= 2 && Copied(payload)[..2] == [n, u] <==> header + Field(n) + Field(u) <= payload
    ensures Copied(payload) == [n, u, p] <==> header + Field(n) + Field(u) + Field(p) <= payload
  {
    CopiedReads(payload, n, u, p);
    FieldChain(payload, header, n, u, p);
  }

  lemma CopiedReads(payload: Bytes, n: Bytes, u: Bytes, p: Bytes)
    requires |payload| >= 20 && payload[..8] == MAGIC
    ensures var one := FieldAt(payload, 20, MAX_NONCE) == Some(Got(n, 24 + |n|));
            var two := one && FieldAt(payload, 24 + |n|, MAX_SECRET) == Some(Got(u, 28 + |n| + |u|));
            && (|Copied(payload)| >= 1 && Copied(payload)[0] == n <==> one)
            && (|Copied(payload)| >= 2 && Copied(payload)[..2] == [n, u] <==> two)
            && (Copied(payload) == [n, u, p] <==> two && FieldAt(payload, 28 + |n| + |u|, MAX_SECRET) == Some(Got(p, 32 + |n| + |u| + |p|)))
  {
    var first := FieldAt(payload, 20, MAX_NONCE);
    if first.Some? {
      var second := FieldAt(payload, first.value.next, MAX_SECRET);
      if second.Some? {
        assert Copied(payload)[..2] == [first.value.value, second.value.value];
      }
    }
  }

  lemma FieldChain(payload: Bytes, pre: Bytes, n: Bytes, u: Bytes, p: Bytes)
    requires pre <= payload && |n| <= MAX_NONCE && |u| <= MAX_SECRET && |p| <= MAX_SECRET
    ensures var one := FieldAt(payload, |pre|, MAX_NONCE) == Some(Got(n, |pre| + 4 + |n|));
            var two := one && FieldAt(payload, |pre| + 4 + |n|, MAX_SECRET) == Some(Got(u, |pre| + 8 + |n| + |u|));
            && (one <==> pre + Field(n) <= payload)
            && (two <==> pre + Field(n) + Field(u) <= payload)
            && (two && FieldAt(payload, |pre| + 8 + |n| + |u|, MAX_SECRET) == Some(Got(p, |pre| + 12 + |n| + |u| + |p|)) <==>
                pre + Field(n) + Field(u) + Field(p) <= payload)
  {
    FieldNext(payload, pre, MAX_NONCE, n);
    FieldNext(payload, pre + Field(n), MAX_SECRET, u);
    FieldNext(payload, pre + Field(n) + Field(u), MAX_SECRET, p);
  }

  lemma FieldNext(payload: Bytes, pre: Bytes, maximum: nat, value: Bytes)
    requires |value| <= maximum < 0x8000_0000
    ensures pre + Field(value) <= payload <==> pre <= payload && FieldAt(payload, |pre|, maximum) == Some(Got(value, |pre| + 4 + |value|))
  {
    PrefixOfPrefix(pre, Field(value), payload);
    if pre <= payload {
      FieldPrefixIff(payload, pre, maximum, value);
    }
  }

  predicate Wiped(copies: seq<Bytes>) {
    forall i :: 0 <= i < |copies| ==> copies[i] == Zeros(|copies[i]|)
  }

  /**
   A verdict about the broker leaves no copy behind. A refused payload leaves its user name and
   password as they were, unless it is an exact response that names the expected version, process
   and nonce.
   */
  lemma WhatIsLeft(payload: Bytes, nonce: Bytes, pid: Option<Int32>)
    requires !ReadOutcome(payload, nonce, pid).Success?
    ensures var o := ReadOutcome(payload, nonce, pid); o.Unavailable? || o.AccessDenied? || o.BrokerUnavailable? ==> Wiped(Left(payload, nonce, pid))
    ensures |Left(payload, nonce, pid)| == |Copied(payload)|
    ensures var exact := exists f :: InBounds(f) && Expected(f, nonce, pid) && payload == Encoded(f);
            && (exact ==> Wiped(Left(payload, nonce, pid)))
            && (!exact && Copied(payload) != [] ==> Left(payload, nonce, pid)[1..] == Copied(payload)[1..])
    ensures Copied(payload) != [] ==>
              Left(payload, nonce, pid)[0] ==
              if exists f :: InBounds(f) && Expected(f, f.nonce, pid) && payload == Encoded(f) then Zeros(|Copied(payload)[0]|)
              else Copied(payload)[0]
  {
    var framing := ReadFrame(payload);
    assert framing.Framed? ==> Copied(payload) == [framing.frame.nonce, framing.frame.username, framing.frame.password];
    forall f ensures InBounds(f) && payload == Encoded(f) <==> framing == Framed(f, |payload|) {
      ReadFrameIff(payload, f);
    }
    WhatIsLeftOf(framing, Copied(payload), |payload|, f => InBounds(f) && payload == Encoded(f), nonce, pid);
  }

  lemma WhatIsLeftOf(framing: Framing, copied: seq<Bytes>, length: nat, exact: Frame -> bool, nonce: Bytes, pid: Option<Int32>)
    requires !JudgeRead(framing, length, nonce, pid).Success?
    requires framing.Framed? ==> copied == [framing.frame.nonce, framing.frame.username, framing.frame.password]
    requires forall f :: exact(f) <==> framing == Framed(f, length)
    ensures var o := JudgeRead(framing, length, nonce, pid);
            o.Unavailable? || o.AccessDenied? || o.BrokerUnavailable? ==> Wiped(LeftOf(framing, copied, length, nonce, pid))
    ensures |LeftOf(framing, copied, length, nonce, pid)| == |copied|
    ensures (exists f :: exact(f) && Expected(f, nonce, pid)) ==> Wiped(LeftOf(framing, copied, length, nonce, pid))
    ensures !(exists f :: exact(f) && Expected(f, nonce, pid)) && copied != [] ==> LeftOf(framing, copied, length, nonce, pid)[1..] == copied[1..]
    ensures copied != [] ==>
              LeftOf(framing, copied, length, nonce, pid)[0] ==
              if exists f :: exact(f) && Expected(f, f.nonce, pid) then Zeros(|copied[0]|) else copied[0]
  {
    if framing.Framed? {
      assert exact(framing.frame) <==> framing.end == length;
    }
  }

  /** What was read before the verdict, in fresh buffers. */
  datatype Parts = NoParts(outcome: Outcome)
                 | Parts(version: Int32, status: Int32, pid: Int32, nonce: array<Byte>,
                         username: array<Byte>, password: array<Byte>, end: nat)

  ghost predicate Holds(copies: seq<array<Byte>>, contents: seq<Bytes>)
    reads copies
  {
    |copies| == |contents| && forall i :: 0 <= i < |copies| ==> copies[i][..] == contents[i]
  }

  /** `copies` are the buffers made on the way, also when the payload turns out to be unreadable. */
  method ReadParts(payload: array<Byte>) returns (r: Parts, ghost copies: seq<array<Byte>>)
    ensures Holds(copies, Copied(payload[..])) && forall i :: 0 <= i < |copies| ==> fresh(copies[i])
    ensures r.Parts? ==> copies == [r.nonce, r.username, r.password]
    ensures r.NoParts? ==> match ReadFrame(payload[..]) case Unreadable => r.outcome == Threw case BadMagic => r.outcome == ProtocolMismatch case Framed(_, _) => false
    ensures r.Parts? ==> fresh(r.nonce) && fresh(r.username) && fresh(r.password) && r.username != r.password &&
                         r.nonce != r.username && r.nonce != r.password &&
                         ReadFrame(payload[..]) == Framed(Frame(r.version, r.status, r.pid, r.nonce[..], r.username[..], r.password[..]), r.end)
  {
    copies := [];
    if payload.Length < 8 {
      return NoParts(Threw), copies;
    }
    assert payload[..][..8] == payload[..8];
    if payload[..8] != MAGIC {
      return NoParts(ProtocolMismatch), copies;
    }
    if payload.Length < 20 {
      return NoParts(Threw), copies;
    }
    var version, status, pid := BytesToInt32(payload[8..12]), BytesToInt32(payload[12..16]), BytesToInt32(payload[16..20]);
    assert payload[..][8..12] == payload[8..12] && payload[..][12..16] == payload[12..16] && payload[..][16..20] == payload[16..20];
    var nonce := ReadBuffer(payload, 20, MAX_NONCE);
    if nonce.None? {
      return NoParts(Threw), copies;
    }
    copies := [nonce.value.value];
    var username := ReadBuffer(payload, nonce.value.next, MAX_SECRET);
    if username.None? {
      return NoParts(Threw), copies;
    }
    copies := [nonce.value.value, username.value.value];
    var password := ReadBuffer(payload, username.value.next, MAX_SECRET);
    if password.None? {
      return NoParts(Threw), copies;
    }
    copies := [nonce.value.value, username.value.value, password.value.value];
    return Parts(version, status, pid, nonce.value.value, username.value.value, password.value.value, password.value.next), copies;
  }

  method ParseBrokerPayload(payload: array<Byte>, expectedNonce: Bytes, expectedPid: Option<Int32>)
    returns (r: ReadResult, ghost copies: seq<array<Byte>>)
    modifies payload
    ensures forall i :: 0 <= i < payload.Length ==> payload[i] == 0
    ensures Holds(copies, old(Left(payload[..], expectedNonce, expectedPid))) && forall i :: 0 <= i < |copies| ==> fresh(copies[i])
    ensures r.Secret? ==> |copies| == 3 && r.secret.username == copies[1] && r.secret.password == copies[2]
    ensures r.Secret? <==> old(ReadOutcome(payload[..], expectedNonce, expectedPid)).Success?
    ensures r.Secret? ==> fresh(r.secret) && fresh(r.secret.username) && fresh(r.secret.password) &&
                          Success(r.secret.username[..], r.secret.password[..]) == old(ReadOutcome(payload[..], expectedNonce, expectedPid))
    ensures r.Verdict? ==> r.outcome == old(ReadOutcome(payload[..], expectedNonce, expectedPid))
  {
    var parts;
    parts, copies := ReadParts(payload);
    if parts.NoParts? {
      r := Verdict(parts.outcome);
    } else {
      r := Conclude(parts, payload[..], payload.Length, expectedNonce, expectedPid);
    }
    Wipe(payload);
  }

  /** The part of `parseBrokerPayload` after the fields have been copied out. */
  method Conclude(parts: Parts, ghost payload: Bytes, length: nat, expectedNonce: Bytes, expectedPid: Option<Int32>) returns (r: ReadResult)
    requires parts.Parts? && parts.username != parts.password && parts.nonce != parts.username && parts.nonce != parts.password
    requires length == |payload| && ReadFrame(payload) ==
             Framed(Frame(parts.version, parts.status, parts.pid, parts.nonce[..], parts.username[..], parts.password[..]), parts.end)
    modifies parts.nonce, parts.username, parts.password
    ensures Holds([parts.nonce, parts.username, parts.password], Left(payload, expectedNonce, expectedPid))
    ensures r.Secret? <==> ReadOutcome(payload, expectedNonce, expectedPid).Success?
    ensures r.Secret? ==> fresh(r.secret) && r.secret.username == parts.username && r.secret.password == parts.password &&
                          ReadOutcome(payload, expectedNonce, expectedPid) == Success(parts.username[..], parts.password[..])
    ensures r.Verdict? ==> r.outcome == ReadOutcome(payload, expectedNonce, expectedPid)
  {
    var nonceMatches := parts.nonce[..] == expectedNonce;
    var u, p := parts.username, parts.password;
    if parts.end != length || parts.version != VERSION {
      return Verdict(ProtocolMismatch);
    }
    if expectedPid.Some? && parts.pid != expectedPid.value {
      return Verdict(ProtocolMismatch);
    }
    Wipe(parts.nonce);
    if !nonceMatches {
      return Verdict(ProtocolMismatch);
    }
    if parts.status == 0 && u.Length > 0 && p.Length > 0 {
      var secret := new CredentialSecret(u, p);
      return Secret(secret);
    }
    Wipe(u);
    Wipe(p);
    return Verdict(
      if parts.status == 0 then ProtocolMismatch else if parts.status == 1 then Unavailable
      else if parts.status == 2 then AccessDenied else if parts.status == 3 then ProtocolMismatch
      else BrokerUnavailable);
  }

  method ParseBrokerStatusPayload(payload: array<Byte>, expectedNonce: Bytes, expectedPid: Option<Int32>)
    returns (r: Outcome, ghost copies: seq<array<Byte>>)
    modifies payload
    ensures forall i :: 0 <= i < payload.Length ==> payload[i] == 0
    ensures var was := old(Copied(payload[..]));
            Holds(copies, if old(ReadFrame(payload[..])).Framed? then [Zeros(|was[0]|), Zeros(|was[1]|), Zeros(|was[2]|)] else was)
    ensures r == old(WriteOutcome(payload[..], expectedNonce, expectedPid))
  {
    var parts;
    parts, copies := ReadParts(payload);
    if parts.NoParts? {
      r := parts.outcome;
    } else {
      r := ConcludeStatus(parts, payload[..], payload.Length, expectedNonce, expectedPid);
    }
    Wipe(payload);
  }

  /** The part of `parseBrokerStatusPayload` after the fields have been copied out. */
  method ConcludeStatus(parts: Parts, ghost payload: Bytes, length: nat, expectedNonce: Bytes, expectedPid: Option<Int32>) returns (r: Outcome)
    requires parts.Parts? && parts.username != parts.password && parts.nonce != parts.username && parts.nonce != parts.password
    requires length == |payload| && ReadFrame(payload) ==
             Framed(Frame(parts.version, parts.status, parts.pid, parts.nonce[..], parts.username[..], parts.password[..]), parts.end)
    modifies parts.nonce, parts.username, parts.password
    ensures parts.nonce[..] == Zeros(parts.nonce.Length) && parts.username[..] == Zeros(parts.username.Length)
    ensures parts.password[..] == Zeros(parts.password.Length)
    ensures r == WriteOutcome(payload, expectedNonce, expectedPid)
  {
    Wipe(parts.username);
    Wipe(parts.password);
    var matches := parts.nonce[..] == expectedNonce;
    Wipe(parts.nonce);
    if parts.end != length || parts.version != VERSION || !matches || (expectedPid.Some? && parts.pid != expectedPid.value) {
      return ProtocolMismatch;
    }
    return if parts.status == 0 then Success([], []) else if parts.status == 2 then AccessDenied
           else if parts.status == 3 then ProtocolMismatch else BrokerUnavailable;
  }

  // ---------------------------------------------------------------- chunks

  function Flatten(chunks: seq<Bytes>): Bytes {
    if chunks == [] then [] else Flatten(chunks[..|chunks| - 1]) + chunks[|chunks| - 1]
  }

  /** The data handler until the stream ends: it fails at the first chunk that exceeds the cap. */
  method ReadSocketPayload(arriving: seq<Bytes>) returns (r: Result<Bytes>)
    ensures r == if |Flatten(arriving)| <= MAX_PAYLOAD then Ok(Flatten(arriving)) else Err
  {
    var chunks: seq<Bytes> := [];
    var total := 0;
    for i := 0 to |arriving|
      invariant chunks == arriving[..i] && total == |Flatten(chunks)| <= MAX_PAYLOAD
    {
      var chunk := arriving[i];
      assert arriving[..i + 1][..i] == arriving[..i];
      total := total + |chunk|;
      if total > MAX_PAYLOAD {
        FlattenGrows(arriving, i + 1);
        return Err;
      }
      chunks := chunks + [chunk];
    }
    assert arriving[..|arriving|] == arriving;
    return Ok(Flatten(chunks));
  }

  lemma {:induction false} FlattenGrows(chunks: seq<Bytes>, i: nat)
    requires i <= |chunks|
    ensures |Flatten(chunks[..i])| <= |Flatten(chunks)|
    decreases |chunks| - i
  {
    if i < |chunks| {
      assert chunks[..i + 1][..i] == chunks[..i];
      FlattenGrows(chunks, i + 1);
    } else {
      assert chunks[..i] == chunks;
    }
  }

  // ---------------------------------------------------------------- the broker's side

  /** The C# end of the pipe: bytes written so far, and bytes still to be read. */
  class Pipe {
    var written: Bytes
    var input: Bytes
    var position: nat

    constructor (input: Bytes)
      ensures written == [] && this.input == input && position == 0
    {
      written, this.input, position := [], input, 0;
    }

    /** A field over its limit raises an exception before any of it is written. */
    method WriteBuffer(value: Bytes, maximum: nat) returns (ok: bool)
      requires maximum < 0x8000_0000
      modifies `written
      ensures ok <==> |value| <= maximum
      ensures written == if ok then old(written) + Field(value) else old(written)
    {
      if |value| > maximum {
        return false;
      }
      written := written + Int32ToBytes(|value|);
      written := written + value;
      assert old(written) + Int32ToBytes(|value|) + value == old(written) + Field(value);
      return true;
    }

    /** A response either goes out whole or, when a field is over its limit, breaks off before that field. */
    method WriteResponse(status: Int32, processId: Int32, nonce: Bytes, userName: Option<Bytes>, password: Option<Bytes>)
      returns (ok: bool)
      modifies `written
      ensures var f := ResponseFrame(status, processId, nonce, userName, password);
              && (ok <==> InBounds(f))
              && written == old(written) + Attempted(f)
              && (!ok ==> written == old(written) + Header(f) + (if |nonce| > MAX_NONCE then [] else Field(nonce)) +
                                     (if |nonce| > MAX_NONCE || |f.username| > MAX_SECRET then [] else Field(f.username)))
    {
      var f := ResponseFrame(status, processId, nonce, userName, password);
      written := written + MAGIC;
      written := written + Int32ToBytes(VERSION);
      written := written + Int32ToBytes(status);
      written := written + Int32ToBytes(processId);
      Regroup(old(written), MAGIC, Int32ToBytes(VERSION), Int32ToBytes(status), Int32ToBytes(processId));
      ok := WriteBuffer(nonce, MAX_NONCE);
      if !ok {
        return;
      }
      Regroup(old(written), Header(f), Field(f.nonce), [], []);
      ok := WriteBuffer(f.username, MAX_SECRET);
      if !ok {
        return;
      }
      Regroup(old(written), Header(f), Field(f.nonce), Field(f.username), []);
      ok := WriteBuffer(f.password, MAX_SECRET);
      if ok {
        Regroup(old(written), Header(f), Field(f.nonce), Field(f.username), Field(f.password));
      }
    }

    /**
     The end of `RunRead`: answer with what was found; if that raises an exception, the catch-all
     block answers "internal error" on the same pipe. None when an exception leaves `RunRead`.
     */
    method AnswerRead(processId: Int32, nonce: Bytes, stored: Stored) returns (exitCode: Option<int>)
      modifies `written
      ensures written == old(written) + ReadAnswer(processId, nonce, stored)
      ensures exitCode == if |nonce| > MAX_NONCE then None
                          else match stored
                               case Found(u, p) => Some(if |u| <= MAX_SECRET && |p| <= MAX_SECRET then 0 else 7)
                               case Missing => Some(5)
                               case Denied => Some(6)
                               case Failed => Some(7)
    {
      ghost var first := FirstReply(processId, nonce, stored);
      var ok;
      if stored.Found? {
        ok := WriteResponse(0, processId, nonce, Some(stored.username), Some(stored.password));
        if ok {
          return Some(0);
        }
      } else if stored.Missing? {
        ok := WriteResponse(1, processId, nonce, None, None);
        if ok {
          return Some(5);
        }
      } else if stored.Denied? {
        ok := WriteResponse(2, processId, nonce, None, None);
        return if ok then Some(6) else None;
      }
      ghost var before := written;
      assert before == old(written) + if stored.Failed? then [] else Attempted(first);
      ok := WriteResponse(4, processId, nonce, None, None);
      Regroup(old(written), Attempted(first), Attempted(Reply(4, processId, nonce)), [], []);
      return if ok then Some(7) else None;
    }

    method ReadBytes(count: nat) returns (r: Bytes)
      requires position <= |input|
      modifies `position
      ensures position == Min(old(position) + count, |input|) && r == input[old(position)..position]
    {
      var end := Min(position + count, |input|);
      r := input[position..end];
      position := end;
    }

    /** None when the stream ends first. */
    method ReadInt32() returns (r: Option<Int32>)
      requires position <= |input|
      modifies `position
      ensures position <= |input|
      ensures r == Int32At(input, old(position))
      ensures r.Some? ==> position == old(position) + 4
    {
      var b := ReadBytes(4);
      r := if |b| < 4 then None else Some(BytesToInt32(b));
    }

    method ReadBuffer(maximum: nat) returns (r: Option<Bytes>)
      requires position <= |input|
      modifies `position
      ensures position <= |input|
      ensures r.None? <==> FieldAt(input, old(position), maximum).None?
      ensures r.Some? ==> FieldAt(input, old(position), maximum) == Some(Got(r.value, position))
    {
      var length := ReadInt32();
      if length.None? || length.value < 0 || length.value > maximum {
        return None;
      }
      var value := ReadBytes(length.value);
      r := if |value| != length.value then None else Some(value);
    }

    /** The decoding part of `RunWrite`; `getString` is `Encoding.UTF8.GetString`. */
    method ReadWriteRequest(nonce: Text, getString: Bytes -> Text) returns (r: WriteRequest)
      requires position == 0
      modifies `position
      ensures r == RequestFrom(input, nonce, getString)
    {
      var magic := ReadBytes(8);
      if |magic| != 8 || magic != WRITE_MAGIC {
        return Refused(ProtocolMismatch);
      }
      var version := ReadInt32();
      if version.None? {
        return Refused(BrokerUnavailable);
      }
      if version.value != VERSION {
        return Refused(ProtocolMismatch);
      }
      var supplied := ReadBuffer(MAX_NONCE);
      if supplied.None? {
        return Refused(BrokerUnavailable);
      }
      if getString(supplied.value) != nonce {
        return Refused(AccessDenied);
      }
      var userName := ReadBuffer(MAX_WRITE_USERNAME);
      if userName.None? {
        return Refused(BrokerUnavailable);
      }
      var password := ReadBuffer(MAX_SECRET);
      if password.None? {
        return Refused(BrokerUnavailable);
      }
      if |userName.value| == 0 || |password.value| == 0 {
        return Refused(ProtocolMismatch);
      }
      return Accepted(userName.value, password.value);
    }
  }

  lemma Regroup(w: Bytes, a: Bytes, b: Bytes, c: Bytes, d: Bytes)
    ensures w + a + b + c + d == w + (a + b + c + d)
    ensures c == [] && d == [] ==> w + a + b == w + (a + b)
    ensures d == [] ==> w + a + b + c == w + (a + b + c)
  {
  }

  function Min(a: nat, b: nat): nat {
    if a < b then a else b
  }

  function ResponseFrame(status: Int32, processId: Int32, nonce: Bytes, userName: Option<Bytes>, password: Option<Bytes>): Frame {
    Frame(VERSION, status, processId, nonce,
          if userName.Some? then userName.value else [], if password.Some? then password.value else [])
  }

  function WrittenBeforeFailure(f: Frame): Bytes
    requires !InBounds(f)
  {
    if |f.nonce| > MAX_NONCE then Header(f)
    else if |f.username| > MAX_SECRET then Header(f) + Field(f.nonce)
    else Header(f) + Field(f.nonce) + Field(f.username)
  }

  /** What looking up the credential comes to; `Failed` is any exception but a denied access. */
  datatype Stored = Found(username: Bytes, password: Bytes) | Missing | Denied | Failed

  function Reply(status: Int32, processId: Int32, nonce: Bytes): Frame {
    ResponseFrame(status, processId, nonce, None, None)
  }

  /** The first response that `RunRead` attempts. */
  function FirstReply(processId: Int32, nonce: Bytes, stored: Stored): Frame {
    match stored
    case Found(u, p) => ResponseFrame(0, processId, nonce, Some(u), Some(p))
    case Missing => Reply(1, processId, nonce)
    case Denied => Reply(2, processId, nonce)
    case Failed => Reply(4, processId, nonce)
  }

  /** What an attempted response leaves on the pipe. */
  function Attempted(f: Frame): (r: Bytes) {
    if InBounds(f) then Encoded(f) else WrittenBeforeFailure(f)
  }

  /** Everything `RunRead` leaves on the pipe. */
  function ReadAnswer(processId: Int32, nonce: Bytes, stored: Stored): Bytes {
    var first := FirstReply(processId, nonce, stored);
    Attempted(first) +
    if InBounds(first) || stored.Denied? || stored.Failed? then [] else Attempted(Reply(4, processId, nonce))
  }

  /** What the broker makes of a write request; `Refused` carries the status it answers with. */
  datatype WriteRequest = Accepted(username: Bytes, password: Bytes) | Refused(reply: Outcome)

  function RequestFrom(input: Bytes, nonce: Text, getString: Bytes -> Text): WriteRequest {
    if |input| < 8 || input[..8] != WRITE_MAGIC then Refused(ProtocolMismatch)
    else if Int32At(input, 8).None? then Refused(BrokerUnavailable)
    else if Int32At(input, 8).value != VERSION then Refused(ProtocolMismatch)
    else
      match FieldAt(input, 12, MAX_NONCE)
      case None => Refused(BrokerUnavailable)
      case Some(Got(supplied, o1)) =>
        if getString(supplied) != nonce then Refused(AccessDenied) else CredentialsFrom(input, o1)
  }

  /** The part of the request after the nonce. */
  function CredentialsFrom(input: Bytes, offset: nat): WriteRequest {
    match FieldAt(input, offset, MAX_WRITE_USERNAME)
    case None => Refused(BrokerUnavailable)
    case Some(Got(u, o2)) =>
      match FieldAt(input, o2, MAX_SECRET)
      case None => Refused(BrokerUnavailable)
      case Some(Got(p, _)) =>
        if u == [] || p == [] then Refused(ProtocolMismatch) else Accepted(u, p)
  }

  /** What the client writes for a write request. */
  function Request(nonce: Bytes, username: Bytes, password: Bytes): (r: Bytes)
    requires Sendable(nonce, username, password)
    ensures |r| == 24 + |nonce| + |username| + |password|
  {
    WRITE_MAGIC + Int32ToBytes(VERSION) + Field(nonce) + Field(username) + Field(password)
  }

  /** `value.copy(target, offset)`. */
  method CopyInto(target: array<Byte>, offset: nat, value: Bytes)
    requires offset + |value| <= target.Length
    modifies target
    ensures target[..offset] == old(target[..offset])
    ensures target[offset..offset + |value|] == value
    ensures target[offset + |value|..] == old(target[offset + |value|..])
  {
    for i := 0 to |value|
      invariant target[..offset] == old(target[..offset])
      invariant target[offset..offset + i] == value[..i]
      invariant target[offset + i..] == old(target[offset + i..])
    {
      target[offset + i] := value[i];
      assert target[offset..offset + i + 1] == target[offset..offset + i] + [value[i]];
    }
    assert value[..|value|] == value;
  }

  /** `writeInt32LE` raises an exception for a length that is not a 32-bit integer. */
  method WriteBuffer(target: array<Byte>, offset: nat, value: Bytes) returns (next: Option<nat>)
    requires offset + 4 + |value| <= target.Length
    modifies target
    ensures next.Some? <==> |value| < 0x8000_0000
    ensures next.Some? ==> next.value == offset + 4 + |value| && target[..next.value] == old(target[..offset]) + Field(value) &&
                           target[next.value..] == old(target[offset + 4 + |value|..])
    ensures next.None? ==> target[..] == old(target[..])
  {
    if |value| >= 0x8000_0000 {
      return None;
    }
    CopyInto(target, offset, Int32ToBytes(|value|));
    assert target[..offset + 4] == target[..offset] + target[offset..offset + 4];
    CopyInto(target, offset + 4, value);
    var end := offset + 4 + |value|;
    assert target[..end] == target[..offset + 4] + target[offset + 4..end];
    assert old(target[..offset]) + Int32ToBytes(|value|) + value == old(target[..offset]) + Field(value);
    return Some(end);
  }

  predicate Sendable(nonce: Bytes, username: Bytes, password: Bytes) {
    |nonce| < 0x8000_0000 && |username| < 0x8000_0000 && |password| < 0x8000_0000
  }

  method CreateWritePayload(nonce: Text, username: Bytes, password: Bytes) returns (r: Result<array<Byte>>)
    ensures r.Ok? <==> Sendable(Encode(nonce), username, password)
    ensures r.Ok? ==> fresh(r.value) && r.value[..] == Request(Encode(nonce), username, password)
  {
    var nonceBytes := Encode(nonce);
    var payload := new Byte[8 + 4 + 4 + |nonceBytes| + 4 + |username| + 4 + |password|];
    CopyInto(payload, 0, WRITE_MAGIC);
    CopyInto(payload, 8, Int32ToBytes(VERSION));
    assert payload[..12] == payload[..8] + payload[8..12];
    assert payload[..8] == WRITE_MAGIC;
    var offset := WriteBuffer(payload, 12, nonceBytes);
    if offset.None? {
      return Err;
    }
    offset := WriteBuffer(payload, offset.value, username);
    if offset.None? {
      return Err;
    }
    offset := WriteBuffer(payload, offset.value, password);
    if offset.None? {
      return Err;
    }
    assert payload[..offset.value] == payload[..];
    return Ok(payload);
  }

  // ---------------------------------------------------------------- both ends together

  /**
   Whatever the broker writes in full, in whatever chunks it arrives, stays under the reader's cap,
   is reassembled, and is understood as the status that was sent.
   */
  lemma ResponseArrives(f: Frame, chunks: seq<Bytes>)
    requires InBounds(f) && f.version == VERSION && Flatten(chunks) == Encoded(f)
    ensures |Flatten(chunks)| <= MAX_PAYLOAD
    ensures ReadOutcome(Flatten(chunks), f.nonce, Some(f.processId)) ==
            match f.status
            case 0 => if f.username == [] || f.password == [] then ProtocolMismatch else Success(f.username, f.password)
            case 1 => Unavailable
            case 2 => AccessDenied
            case 3 => ProtocolMismatch
            case _ => BrokerUnavailable
    ensures WriteOutcome(Flatten(chunks), f.nonce, Some(f.processId)) ==
            match f.status
            case 0 => Success([], [])
            case 2 => AccessDenied
            case 3 => ProtocolMismatch
            case _ => BrokerUnavailable
  {
    ReadFrameIff(Flatten(chunks), f);
  }

  /** The verdict that goes with what was found. */
  function VerdictFor(stored: Stored): (r: Outcome)
    ensures !r.Threw?
  {
    match stored
    case Found(u, p) => if u == [] || p == [] then ProtocolMismatch else Success(u, p)
    case Missing => Unavailable
    case Denied => AccessDenied
    case Failed => BrokerUnavailable
  }

  /** Read as a length, the magic exceeds every limit. */
  lemma MagicIsNoLength(payload: Bytes, offset: nat, maximum: nat)
    requires maximum <= MAX_SECRET && (offset == |payload| || (offset + 8 <= |payload| && payload[offset..offset + 8] == MAGIC))
    ensures FieldAt(payload, offset, maximum).None?
  {
    if offset < |payload| {
      assert payload[offset..offset + 4] == payload[offset..offset + 8][..4] == MAGIC[..4];
      assert BytesToInt32(MAGIC[..4]) == 0x4350_434D;
    }
  }

  /** The magic is there, but one of the fields is not. */
  lemma MissingField(payload: Bytes, n: Bytes, u: Bytes, stage: nat)
    requires |payload| >= 20 && payload[..8] == MAGIC
    requires stage > 0 ==> FieldAt(payload, 20, MAX_NONCE) == Some(Got(n, 24 + |n|))
    requires stage > 1 ==> FieldAt(payload, 24 + |n|, MAX_SECRET) == Some(Got(u, 28 + |n| + |u|))
    requires if stage == 0 then FieldAt(payload, 20, MAX_NONCE).None?
             else if stage == 1 then FieldAt(payload, 24 + |n|, MAX_SECRET).None?
             else FieldAt(payload, 28 + |n| + |u|, MAX_SECRET).None?
    ensures ReadFrame(payload) == Unreadable
  {
  }

  /** A response that broke off cannot be read, whether or not another one follows it. */
  lemma BrokenOffIsUnreadable(f: Frame, rest: Bytes)
    requires !InBounds(f) && (rest == [] || (|rest| >= 8 && rest[..8] == MAGIC))
    ensures ReadFrame(WrittenBeforeFailure(f) + rest) == Unreadable
  {
    assert Header(f)[..8] == MAGIC;
    BrokenAtNonce(Header(f), rest);
    if |f.nonce| <= MAX_NONCE {
      BrokenAtUserName(Header(f), f.nonce, rest);
      if |f.username| <= MAX_SECRET {
        BrokenAtPassword(Header(f), f.nonce, f.username, rest);
      }
    }
  }

  lemma BrokenAtNonce(header: Bytes, rest: Bytes)
    requires |header| == 20 && header[..8] == MAGIC && (rest == [] || (|rest| >= 8 && rest[..8] == MAGIC))
    ensures ReadFrame(header + rest) == Unreadable
  {
    BrokenAfter(header, rest, MAX_NONCE);
    assert (header + rest)[..8] == header[..8];
    MissingField(header + rest, [], [], 0);
  }

  lemma BrokenAtUserName(header: Bytes, n: Bytes, rest: Bytes)
    requires |header| == 20 && header[..8] == MAGIC && (rest == [] || (|rest| >= 8 && rest[..8] == MAGIC)) && |n| <= MAX_NONCE
    ensures ReadFrame(header + Field(n) + rest) == Unreadable
  {
    var payload := header + Field(n) + rest;
    BrokenAfter(header + Field(n), rest, MAX_SECRET);
    ReadsOn(header, n, rest, MAX_NONCE);
    assert payload[..8] == header[..8];
    MissingField(payload, n, [], 1);
  }

  lemma BrokenAtPassword(header: Bytes, n: Bytes, u: Bytes, rest: Bytes)
    requires |header| == 20 && header[..8] == MAGIC && (rest == [] || (|rest| >= 8 && rest[..8] == MAGIC))
    requires |n| <= MAX_NONCE && |u| <= MAX_SECRET
    ensures ReadFrame(header + Field(n) + Field(u) + rest) == Unreadable
  {
    var payload := header + Field(n) + Field(u) + rest;
    BrokenAfter(header + Field(n) + Field(u), rest, MAX_SECRET);
    assert FieldAt(payload, 20, MAX_NONCE) == Some(Got(n, 24 + |n|)) by {
      assert payload == header + Field(n) + (Field(u) + rest);
      ReadsOn(header, n, Field(u) + rest, MAX_NONCE);
    }
    ReadsOn(header + Field(n), u, rest, MAX_SECRET);
    assert payload[..8] == header[..8];
    MissingField(payload, n, u, 2);
  }

  lemma ReadsOn(pre: Bytes, value: Bytes, rest: Bytes, maximum: nat)
    requires |value| <= maximum < 0x8000_0000
    ensures FieldAt(pre + Field(value) + rest, |pre|, maximum) == Some(Got(value, |pre| + 4 + |value|))
  {
    var input := pre + Field(value) + rest;
    assert input[|pre|..|pre| + 4 + |value|] == Field(value);
    FieldReadsBack(input, |pre|, maximum, value);
  }

  lemma BrokenAfter(pre: Bytes, rest: Bytes, maximum: nat)
    requires maximum <= MAX_SECRET && (rest == [] || (|rest| >= 8 && rest[..8] == MAGIC))
    ensures FieldAt(pre + rest, |pre|, maximum).None?
  {
    MagicAfter(pre, rest);
    MagicIsNoLength(pre + rest, |pre|, maximum);
  }

  lemma MagicAfter(broken: Bytes, rest: Bytes)
    requires |rest| >= 8 ==> rest[..8] == MAGIC
    ensures |rest| >= 8 ==> (broken + rest)[|broken|..|broken| + 8] == MAGIC
  {
    if |rest| >= 8 {
      assert (broken + rest)[|broken|..|broken| + 8] == rest[..8];
    }
  }

  lemma AttemptStarts(f: Frame)
    ensures |Attempted(f)| >= 20 && Attempted(f)[..8] == MAGIC
    ensures |Attempted(f)| <= 135_200
  {
    assert Attempted(f)[..20] == Header(f);
    assert Attempted(f)[..8] == Header(f)[..8] == MAGIC;
  }

  /**
   The client learns what `RunRead` found if and only if the first response is within the limits;
   otherwise reading fails, whatever the catch-all block wrote after it. Either way all of it, in
   whatever chunks, stays under the reader's cap.
   */
  lemma AnswerArrives(processId: Int32, nonce: Bytes, stored: Stored, chunks: seq<Bytes>)
    requires Flatten(chunks) == ReadAnswer(processId, nonce, stored)
    ensures |Flatten(chunks)| <= 135_200 < MAX_PAYLOAD
    ensures ReadOutcome(Flatten(chunks), nonce, Some(processId)) ==
            if InBounds(FirstReply(processId, nonce, stored)) then VerdictFor(stored) else Threw
  {
    var first, second := FirstReply(processId, nonce, stored), Reply(4, processId, nonce);
    if InBounds(first) {
      assert Flatten(chunks) == Encoded(first);
      ResponseArrives(first, chunks);
    } else {
      AttemptStarts(second);
      var rest := if stored.Denied? || stored.Failed? then [] else Attempted(second);
      assert Flatten(chunks) == WrittenBeforeFailure(first) + rest;
      BrokenOffIsUnreadable(first, rest);
    }
  }

  lemma RequestParts(nonce: Bytes, u: Bytes, p: Bytes, trailing: Bytes)
    requires Sendable(nonce, u, p)
    ensures var r := Request(nonce, u, p) + trailing;
            var o1 := 16 + |nonce|;
            var o2 := o1 + 4 + |u|;
            && r[..8] == WRITE_MAGIC && r[8..12] == Int32ToBytes(VERSION) && r[12..o1] == Field(nonce)
            && r[o1..o2] == Field(u) && r[o2..o2 + 4 + |p|] == Field(p)
  {
    var head := WRITE_MAGIC + Int32ToBytes(VERSION);
    var r := Request(nonce, u, p) + trailing;
    assert r == head + (Field(nonce) + Field(u) + Field(p) + trailing);
    assert head[..8] == WRITE_MAGIC && head[8..12] == Int32ToBytes(VERSION);
    assert r[..8] == head[..8] && r[8..12] == head[8..12];
  }

  /** The input begins with the magic, the version and a nonce within its limit. */
  predicate Opens(input: Bytes, supplied: Bytes) {
    |supplied| <= MAX_NONCE && WRITE_MAGIC + Int32ToBytes(VERSION) + Field(supplied) <= input
  }

  /** The input begins with a request whose fields are within the broker's limits. */
  predicate Carries(input: Bytes, supplied: Bytes, u: Bytes, p: Bytes) {
    |supplied| <= MAX_NONCE && |u| <= MAX_WRITE_USERNAME && |p| <= MAX_SECRET && Request(supplied, u, p) <= input
  }

  lemma OpensIff(input: Bytes, supplied: Bytes)
    ensures Opens(input, supplied) <==>
            WRITE_MAGIC + Int32ToBytes(VERSION) <= input && FieldAt(input, 12, MAX_NONCE) == Some(Got(supplied, 16 + |supplied|))
  {
    var pre := WRITE_MAGIC + Int32ToBytes(VERSION);
    if Opens(input, supplied) {
      assert pre == (pre + Field(supplied))[..12] == input[..12];
    }
    if pre <= input {
      FieldPrefixIff(input, pre, MAX_NONCE, supplied);
    }
  }

  /** After an opening, the rest of a request is read exactly when it comes next. */
  lemma CarriesIff(input: Bytes, supplied: Bytes, u: Bytes, p: Bytes)
    requires Opens(input, supplied)
    ensures Carries(input, supplied, u, p) <==>
            && FieldAt(input, 16 + |supplied|, MAX_WRITE_USERNAME) == Some(Got(u, 20 + |supplied| + |u|))
            && FieldAt(input, 20 + |supplied| + |u|, MAX_SECRET) == Some(Got(p, 24 + |supplied| + |u| + |p|))
  {
    var one := WRITE_MAGIC + Int32ToBytes(VERSION) + Field(supplied);
    FieldPrefixIff(input, one, MAX_WRITE_USERNAME, u);
    if |u| <= MAX_WRITE_USERNAME {
      var two := one + Field(u);
      if |p| <= MAX_SECRET {
        PrefixOfPrefix(two, Field(p), input);
        assert Request(supplied, u, p) == two + Field(p);
      }
      if two <= input {
        FieldPrefixIff(input, two, MAX_SECRET, p);
      }
    }
  }

  lemma PrefixOfPrefix(a: Bytes, b: Bytes, input: Bytes)
    ensures a + b <= input ==> a <= input
  {
    if a + b <= input {
      assert a == (a + b)[..|a|] == input[..|a|];
    }
  }

  lemma VersionIff(input: Bytes)
    requires |input| >= 12 && input[..8] == WRITE_MAGIC
    ensures WRITE_MAGIC + Int32ToBytes(VERSION) <= input <==> Int32At(input, 8) == Some(VERSION)
  {
    Int32AtIff(input, 8, VERSION);
    assert input[..12] == input[..8] + input[8..12];
  }

  lemma OpenedRequest(input: Bytes, supplied: Bytes, nonce: Text, getString: Bytes -> Text)
    requires Opens(input, supplied)
    ensures RequestFrom(input, nonce, getString) ==
            if getString(supplied) != nonce then Refused(AccessDenied) else CredentialsFrom(input, 16 + |supplied|)
  {
    OpensIff(input, supplied);
    assert input[..8] == WRITE_MAGIC by { assert input[..8] == input[..12][..8]; }
    VersionIff(input);
  }

  lemma UnopenedRequest(input: Bytes, nonce: Text, getString: Bytes -> Text)
    requires !exists supplied :: Opens(input, supplied)
    ensures RequestFrom(input, nonce, getString) ==
            if !(WRITE_MAGIC <= input) || (|input| >= 12 && !(WRITE_MAGIC + Int32ToBytes(VERSION) <= input)) then Refused(ProtocolMismatch)
            else Refused(BrokerUnavailable)
  {
    if |input| >= 12 && input[..8] == WRITE_MAGIC {
      VersionIff(input);
      var nonceField := FieldAt(input, 12, MAX_NONCE);
      if nonceField.Some? {
        OpensIff(input, nonceField.value.value);
      }
    }
  }

  lemma CredentialsRead(input: Bytes, supplied: Bytes, u: Bytes, p: Bytes)
    requires Opens(input, supplied) && Carries(input, supplied, u, p)
    ensures CredentialsFrom(input, 16 + |supplied|) == if u == [] || p == [] then Refused(ProtocolMismatch) else Accepted(u, p)
  {
    CarriesIff(input, supplied, u, p);
  }

  lemma CredentialsMissing(input: Bytes, supplied: Bytes)
    requires Opens(input, supplied) && !exists u, p :: Carries(input, supplied, u, p)
    ensures CredentialsFrom(input, 16 + |supplied|) == Refused(BrokerUnavailable)
  {
    var first := FieldAt(input, 16 + |supplied|, MAX_WRITE_USERNAME);
    if first.Some? {
      var second := FieldAt(input, first.value.next, MAX_SECRET);
      if second.Some? {
        CarriesIff(input, supplied, first.value.value, second.value.value);
      }
    }
  }

  lemma CarriesOpens(input: Bytes, supplied: Bytes, u: Bytes, p: Bytes)
    requires Carries(input, supplied, u, p)
    ensures Opens(input, supplied)
  {
    var one := WRITE_MAGIC + Int32ToBytes(VERSION) + Field(supplied);
    assert Request(supplied, u, p) == one + (Field(u) + Field(p));
    PrefixOfPrefix(one, Field(u) + Field(p), input);
  }

  /**
   What the broker makes of an input, in terms of its bytes. A request is accepted exactly when the
   input begins with it, its nonce is the right one, and neither field is empty; access is denied
   exactly when a nonce can be read and is another one; a mismatch is another magic or version, or an
   empty field under the right nonce; anything else is an internal error.
   */
  lemma RequestExactly(input: Bytes, nonce: Text, getString: Bytes -> Text)
    ensures forall u, p :: RequestFrom(input, nonce, getString) == Accepted(u, p) <==>
              u != [] && p != [] && exists supplied :: Carries(input, supplied, u, p) && getString(supplied) == nonce
    ensures RequestFrom(input, nonce, getString) == Refused(AccessDenied) <==>
            exists supplied :: Opens(input, supplied) && getString(supplied) != nonce
    ensures RequestFrom(input, nonce, getString) == Refused(ProtocolMismatch) <==>
            || !(WRITE_MAGIC <= input) || (|input| >= 12 && !(WRITE_MAGIC + Int32ToBytes(VERSION) <= input))
            || exists supplied, u, p :: Carries(input, supplied, u, p) && getString(supplied) == nonce && (u == [] || p == [])
    ensures var r := RequestFrom(input, nonce, getString);
            r.Refused? ==> r.reply == AccessDenied || r.reply == ProtocolMismatch || r.reply == BrokerUnavailable
  {
    if supplied :| Opens(input, supplied) {
      OpenedExactly(input, supplied, nonce, getString);
    } else {
      UnopenedRequest(input, nonce, getString);
      forall supplied, u, p ensures !Carries(input, supplied, u, p) {
        if Carries(input, supplied, u, p) {
          CarriesOpens(input, supplied, u, p);
        }
      }
    }
  }

  /** The same for an input that opens with a nonce: it is the only one, and so are the fields after it. */
  lemma OpenedExactly(input: Bytes, supplied: Bytes, nonce: Text, getString: Bytes -> Text)
    requires Opens(input, supplied)
    ensures forall other :: Opens(input, other) <==> other == supplied
    ensures forall other, u, p :: Carries(input, other, u, p) ==> other == supplied
    ensures WRITE_MAGIC <= input && WRITE_MAGIC + Int32ToBytes(VERSION) <= input
    ensures var r := RequestFrom(input, nonce, getString);
            if getString(supplied) != nonce then r == Refused(AccessDenied)
            else if exists u, p :: Carries(input, supplied, u, p)
            then forall u, p :: Carries(input, supplied, u, p) <==> CarriedBy(r, u, p, input, supplied)
            else r == Refused(BrokerUnavailable)
  {
    OnlyOpening(input, supplied);
    OpenedRequest(input, supplied, nonce, getString);
    if u, p :| Carries(input, supplied, u, p) {
      CredentialsRead(input, supplied, u, p);
      forall v, q | Carries(input, supplied, v, q) ensures v == u && q == p {
        OneRequest(input, supplied, u, p, v, q);
      }
    } else {
      CredentialsMissing(input, supplied);
    }
  }

  lemma OneRequest(input: Bytes, supplied: Bytes, u: Bytes, p: Bytes, v: Bytes, q: Bytes)
    requires Opens(input, supplied) && Carries(input, supplied, u, p) && Carries(input, supplied, v, q)
    ensures u == v && p == q
  {
    CarriesIff(input, supplied, u, p);
    CarriesIff(input, supplied, v, q);
  }

  predicate CarriedBy(r: WriteRequest, u: Bytes, p: Bytes, input: Bytes, supplied: Bytes) {
    Carries(input, supplied, u, p) && r == if u == [] || p == [] then Refused(ProtocolMismatch) else Accepted(u, p)
  }

  lemma OnlyOpening(input: Bytes, supplied: Bytes)
    requires Opens(input, supplied)
    ensures forall other :: Opens(input, other) <==> other == supplied
    ensures forall other, u, p :: Carries(input, other, u, p) ==> other == supplied
    ensures WRITE_MAGIC <= input && WRITE_MAGIC + Int32ToBytes(VERSION) <= input
  {
    OpensIff(input, supplied);
    PrefixOfPrefix(WRITE_MAGIC, Int32ToBytes(VERSION), input);
    forall other | Opens(input, other) ensures other == supplied {
      OpensIff(input, other);
    }
    forall other, u, p | Carries(input, other, u, p) ensures Opens(input, other) {
      CarriesOpens(input, other, u, p);
    }
  }

  /**
   The broker reads back exactly the user name and password the client wrote, whatever follows them
   on the pipe, if and only if both are non-empty and all three lengths are within its limits.
   */
  lemma RequestRoundTrip(nonce: Text, u: Bytes, p: Bytes, trailing: Bytes, getString: Bytes -> Text)
    requires Sendable(Encode(nonce), u, p)
    requires getString(Encode(nonce)) == nonce
    ensures RequestFrom(Request(Encode(nonce), u, p) + trailing, nonce, getString) == Accepted(u, p) <==>
            |Encode(nonce)| <= MAX_NONCE && 0 < |u| <= MAX_WRITE_USERNAME && 0 < |p| <= MAX_SECRET
  {
    var n := Encode(nonce);
    var input := Request(n, u, p) + trailing;
    RequestFields(n, u, p, trailing);
    RequestParts(n, u, p, trailing);
    Int32AtIff(input, 8, VERSION);
    RequestReads(input, n, u, p, nonce, getString);
  }

  lemma RequestFields(n: Bytes, u: Bytes, p: Bytes, trailing: Bytes)
    requires Sendable(n, u, p)
    ensures var input := Request(n, u, p) + trailing;
            && FieldAt(input, 12, MAX_NONCE) == (if |n| <= MAX_NONCE then Some(Got(n, 16 + |n|)) else None)
            && FieldAt(input, 16 + |n|, MAX_WRITE_USERNAME) == (if |u| <= MAX_WRITE_USERNAME then Some(Got(u, 20 + |n| + |u|)) else None)
            && FieldAt(input, 20 + |n| + |u|, MAX_SECRET) == (if |p| <= MAX_SECRET then Some(Got(p, 24 + |n| + |u| + |p|)) else None)
  {
    RequestParts(n, u, p, trailing);
    FieldsAt12(Request(n, u, p) + trailing, n, u, p);
  }

  lemma FieldsAt12(input: Bytes, n: Bytes, u: Bytes, p: Bytes)
    requires Sendable(n, u, p) && 24 + |n| + |u| + |p| <= |input| && input[12..16 + |n|] == Field(n)
    requires input[16 + |n|..20 + |n| + |u|] == Field(u) && input[20 + |n| + |u|..24 + |n| + |u| + |p|] == Field(p)
    ensures FieldAt(input, 12, MAX_NONCE) == if |n| <= MAX_NONCE then Some(Got(n, 16 + |n|)) else None
    ensures FieldAt(input, 16 + |n|, MAX_WRITE_USERNAME) == if |u| <= MAX_WRITE_USERNAME then Some(Got(u, 20 + |n| + |u|)) else None
    ensures FieldAt(input, 20 + |n| + |u|, MAX_SECRET) == if |p| <= MAX_SECRET then Some(Got(p, 24 + |n| + |u| + |p|)) else None
  {
    assert FieldAt(input, 12, MAX_NONCE) == (if |n| <= MAX_NONCE then Some(Got(n, 16 + |n|)) else None) by {
      FieldReadsBack(input, 12, MAX_NONCE, n);
    }
    assert FieldAt(input, 16 + |n|, MAX_WRITE_USERNAME) == (if |u| <= MAX_WRITE_USERNAME then Some(Got(u, 20 + |n| + |u|)) else None) by {
      FieldReadsBack(input, 16 + |n|, MAX_WRITE_USERNAME, u);
    }
    assert FieldAt(input, 20 + |n| + |u|, MAX_SECRET) == (if |p| <= MAX_SECRET then Some(Got(p, 24 + |n| + |u| + |p|)) else None) by {
      FieldReadsBack(input, 20 + |n| + |u|, MAX_SECRET, p);
    }
  }

  lemma RequestReads(input: Bytes, n: Bytes, u: Bytes, p: Bytes, nonce: Text, getString: Bytes -> Text)
    requires |input| >= 12 && input[..8] == WRITE_MAGIC && Int32At(input, 8) == Some(VERSION) && getString(n) == nonce
    requires FieldAt(input, 12, MAX_NONCE) == if |n| <= MAX_NONCE then Some(Got(n, 16 + |n|)) else None
    requires FieldAt(input, 16 + |n|, MAX_WRITE_USERNAME) == if |u| <= MAX_WRITE_USERNAME then Some(Got(u, 20 + |n| + |u|)) else None
    requires FieldAt(input, 20 + |n| + |u|, MAX_SECRET) == if |p| <= MAX_SECRET then Some(Got(p, 24 + |n| + |u| + |p|)) else None
    ensures RequestFrom(input, nonce, getString) == Accepted(u, p) <==>
            |n| <= MAX_NONCE && 0 < |u| <= MAX_WRITE_USERNAME && 0 < |p| <= MAX_SECRET
  {
  }
}
