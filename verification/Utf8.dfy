/** `Buffer.from(text)` and `Encoding.UTF8`: UTF-8 with unpaired surrogates replaced by U+FFFD. */
module Utf8 {
  import opened Texts

  type Byte = b: int | 0 <= b < 0x100

  type Bytes = seq<Byte>

  type CodePoint = c: int | 0 <= c < 0x11_0000

  function Pair(high: CodeUnit, low: CodeUnit): CodePoint
    requires IsHigh(high) && IsLow(low)
  {
    0x1_0000 + (high - 0xD800) * 0x400 + (low - 0xDC00)
  }

  /** Section 2.1 of RFC 2781: the pair holds the upper and the lower ten bits of what exceeds 0xFFFF. */
  lemma PairIs(high: CodeUnit, low: CodeUnit)
    requires IsHigh(high) && IsLow(low)
    ensures var c := Pair(high, low); c >= 0x1_0000 && high == 0xD800 + (c - 0x1_0000) / 0x400 && low == 0xDC00 + (c - 0x1_0000) % 0x400
  {
    var h, l := high - 0xD800, low - 0xDC00;
    assert (h * 0x400 + l) / 0x400 == h && (h * 0x400 + l) % 0x400 == l;
  }

  predicate StartsWithPair(t: Text) {
    |t| > 1 && IsHigh(t[0]) && IsLow(t[1])
  }

  /** The code points a text stands for. */
  function CodePoints(t: Text): seq<CodePoint> {
    if t == [] then []
    else if StartsWithPair(t) then [Pair(t[0], t[1])] + CodePoints(t[2..])
    else [if IsHigh(t[0]) || IsLow(t[0]) then 0xFFFD else t[0]] + CodePoints(t[1..])
  }

  function EncodePoint(c: CodePoint): (r: Bytes)
    ensures 1 <= |r| <= 4 && (c < 0x1_0000 ==> |r| <= 3)
  {
    if c < 0x80 then [c]
    else if c < 0x800 then [0xC0 + c / 0x40, 0x80 + c % 0x40]
    else if c < 0x1_0000 then [0xE0 + c / 0x1000, 0x80 + c / 0x40 % 0x40, 0x80 + c % 0x40]
    else [0xF0 + c / 0x4_0000, 0x80 + c / 0x1000 % 0x40, 0x80 + c / 0x40 % 0x40, 0x80 + c % 0x40]
  }

  function EncodePoints(cs: seq<CodePoint>): Bytes {
    if cs == [] then [] else EncodePoint(cs[0]) + EncodePoints(cs[1..])
  }

  function Encode(t: Text): Bytes {
    EncodePoints(CodePoints(t))
  }

  /** The first code point of an encoding, from its own bytes; -1 when they run out. */
  function DecodeFirst(b: Bytes): (r: int)
    requires b != []
  {
    var lead: int := b[0];
    if lead < 0x80 then lead
    else if lead < 0xE0 then if |b| < 2 then -1 else (lead - 0xC0) * 0x40 + Tail(b[1])
    else if lead < 0xF0 then if |b| < 3 then -1 else (lead - 0xE0) * 0x1000 + Tail(b[1]) * 0x40 + Tail(b[2])
    else if |b| < 4 then -1
    else (lead - 0xF0) * 0x4_0000 + Tail(b[1]) * 0x1000 + Tail(b[2]) * 0x40 + Tail(b[3])
  }

  function Tail(b: int): int { b - 0x80 }

  lemma Sextets(c: CodePoint)
    ensures c == c / 0x40 * 0x40 + c % 0x40
    ensures c == c / 0x1000 * 0x1000 + c / 0x40 % 0x40 * 0x40 + c % 0x40
    ensures c == c / 0x4_0000 * 0x4_0000 + c / 0x1000 % 0x40 * 0x1000 + c / 0x40 % 0x40 * 0x40 + c % 0x40
  {
    var d := c / 0x40;
    var e := d / 0x40;
    assert e == c / 0x1000 && e / 0x40 == c / 0x4_0000;
  }

  lemma DecodeEncoded(c: CodePoint, r: Bytes)
    ensures DecodeFirst(EncodePoint(c) + r) == c
  {
    Sextets(c);
    var e := EncodePoint(c);
    var b := e + r;
    assert forall i :: 0 <= i < |e| ==> b[i] == e[i];
  }

  lemma EncodePointUnambiguous(c: CodePoint, r: Bytes, d: CodePoint, s: Bytes)
    requires EncodePoint(c) + r == EncodePoint(d) + s
    ensures c == d && r == s
  {
    DecodeEncoded(c, r);
    DecodeEncoded(d, s);
    var n := |EncodePoint(c)|;
    assert r == (EncodePoint(c) + r)[n..] == (EncodePoint(d) + s)[n..] == s;
  }

  lemma {:induction false} EncodePointsInjective(cs: seq<CodePoint>, ds: seq<CodePoint>)
    requires EncodePoints(cs) == EncodePoints(ds)
    ensures cs == ds
  {
    if cs != [] && ds != [] {
      EncodePointUnambiguous(cs[0], EncodePoints(cs[1..]), ds[0], EncodePoints(ds[1..]));
      EncodePointsInjective(cs[1..], ds[1..]);
      assert cs == [cs[0]] + cs[1..] && ds == [ds[0]] + ds[1..];
    }
  }

  /** Two texts have the same bytes exactly when they stand for the same code points. */
  lemma SameBytesIff(a: Text, b: Text)
    ensures Encode(a) == Encode(b) <==> CodePoints(a) == CodePoints(b)
  {
    if Encode(a) == Encode(b) {
      EncodePointsInjective(CodePoints(a), CodePoints(b));
    }
  }

  /** Every surrogate is half of a pair. */
  predicate WellFormed(t: Text) {
    t == [] ||
    (if StartsWithPair(t) then WellFormed(t[2..]) else !IsHigh(t[0]) && !IsLow(t[0]) && WellFormed(t[1..]))
  }

  lemma {:induction false} CodePointsInjective(a: Text, b: Text)
    requires WellFormed(a) && WellFormed(b) && CodePoints(a) == CodePoints(b)
    ensures a == b
  {
    if a != [] && b != [] {
      var n := if StartsWithPair(a) then 2 else 1;
      assert CodePoints(a)[0] == CodePoints(b)[0];
      assert StartsWithPair(a) <==> StartsWithPair(b);
      assert CodePoints(a)[1..] == CodePoints(a[n..]) && CodePoints(b)[1..] == CodePoints(b[n..]);
      CodePointsInjective(a[n..], b[n..]);
      assert a[..n] == b[..n];
      assert a == a[..n] + a[n..] && b == b[..n] + b[n..];
    } else {
      assert |CodePoints(a)| == |CodePoints(b)|;
    }
  }

  /** On well-formed texts the bytes determine the text. */
  lemma SameBytesSameText(a: Text, b: Text)
    requires WellFormed(a) && WellFormed(b)
    ensures Encode(a) == Encode(b) <==> a == b
  {
    SameBytesIff(a, b);
    if Encode(a) == Encode(b) {
      CodePointsInjective(a, b);
    }
  }

  const REPLACEMENT: CodeUnit := 0xFFFD

  /** The text with every unpaired surrogate replaced by U+FFFD, as `toWellFormed` does. */
  function Repaired(t: Text): (r: Text)
    ensures |r| == |t|
  {
    if t == [] then []
    else if StartsWithPair(t) then t[..2] + Repaired(t[2..])
    else [if IsHigh(t[0]) || IsLow(t[0]) then REPLACEMENT else t[0]] + Repaired(t[1..])
  }

  lemma {:induction false} RepairedIsWellFormed(t: Text)
    ensures WellFormed(Repaired(t)) && CodePoints(Repaired(t)) == CodePoints(t)
  {
    if t != [] {
      var n := if StartsWithPair(t) then 2 else 1;
      RepairedIsWellFormed(t[n..]);
      var r := Repaired(t);
      assert StartsWithPair(t) ==> r[0] == t[0] && r[1] == t[1];
      assert r[n..] == Repaired(t[n..]);
    }
  }

  /** Only well-formed texts are their own repair, and a repair without U+FFFD changed nothing. */
  lemma {:induction false} RepairIsIdentity(t: Text)
    ensures Repaired(t) == t <==> WellFormed(t)
    ensures REPLACEMENT !in Repaired(t) ==> Repaired(t) == t
  {
    if t != [] {
      var n := if StartsWithPair(t) then 2 else 1;
      RepairIsIdentity(t[n..]);
      var r := Repaired(t);
      assert t == t[..n] + t[n..] && r == r[..n] + r[n..] && r[n..] == Repaired(t[n..]);
      assert forall u :: u in r[n..] ==> u in r;
      assert r[0] in r;
    }
  }

  /** On all texts: the bytes agree exactly when the repaired texts do. */
  lemma SameBytesExactly(a: Text, b: Text)
    ensures Encode(a) == Encode(b) <==> Repaired(a) == Repaired(b)
  {
    SameBytesIff(a, b);
    RepairedIsWellFormed(a);
    RepairedIsWellFormed(b);
    if CodePoints(a) == CodePoints(b) {
      CodePointsInjective(Repaired(a), Repaired(b));
    }
  }

  /** The texts that share their bytes with no other text. */
  predicate OneText(t: Text) {
    WellFormed(t) && REPLACEMENT !in t
  }

  /** Another text with the same bytes: the repair, or the first U+FFFD turned into a surrogate. */
  function Twin(t: Text): Text
    requires !OneText(t)
  {
    if WellFormed(t) then WithSurrogate(t) else Repaired(t)
  }

  function WithSurrogate(t: Text): Text
    requires WellFormed(t) && REPLACEMENT in t
  {
    if t[0] == REPLACEMENT then [0xDC00] + t[1..]
    else if StartsWithPair(t) then t[..2] + WithSurrogate(t[2..])
    else [t[0]] + WithSurrogate(t[1..])
  }

  lemma {:induction false} WithSurrogateRepairs(t: Text)
    requires WellFormed(t) && REPLACEMENT in t
    ensures Repaired(WithSurrogate(t)) == t && 0xDC00 in WithSurrogate(t) && WithSurrogate(t) != t
  {
    var w := WithSurrogate(t);
    if t[0] == REPLACEMENT {
      RepairIsIdentity(t[1..]);
      assert w[0] == 0xDC00 && w[1..] == t[1..];
    } else {
      var n := if StartsWithPair(t) then 2 else 1;
      WithSurrogateRepairs(t[n..]);
      assert w[n..] == WithSurrogate(t[n..]) && w[..n] == t[..n];
      assert w[0] == t[0] && (n == 2 ==> w[1] == t[1]);
      assert t == t[..n] + t[n..];
      assert forall u :: u in w[n..] ==> u in w;
    }
  }

  lemma TwinDiffers(t: Text)
    requires !OneText(t)
    ensures Twin(t) != t && Encode(Twin(t)) == Encode(t)
    ensures REPLACEMENT in Twin(t) || 0xDC00 in Twin(t)
  {
    SameBytesExactly(Twin(t), t);
    RepairIsIdentity(t);
    if WellFormed(t) {
      WithSurrogateRepairs(t);
    } else {
      RepairedIsWellFormed(t);
      RepairIsIdentity(Repaired(t));
    }
  }

  /** The bytes determine the text exactly when it is well formed and free of U+FFFD. */
  lemma BytesDetermineIff(a: Text)
    ensures (forall b :: Encode(a) == Encode(b) ==> a == b) <==> OneText(a)
  {
    if OneText(a) {
      forall b | Encode(a) == Encode(b) ensures a == b {
        OneTextAlone(a, b);
      }
    } else {
      TwinDiffers(a);
    }
  }

  lemma OneTextAlone(a: Text, b: Text)
    requires OneText(a)
    ensures Encode(a) == Encode(b) <==> a == b
  {
    SameBytesExactly(a, b);
    RepairIsIdentity(a);
    RepairIsIdentity(b);
  }

  /** No surrogates at all. */
  predicate Plain(t: Text) {
    forall u :: u in t ==> !IsHigh(u) && !IsLow(u)
  }

  lemma {:induction false} PlainIsWellFormed(t: Text)
    requires Plain(t)
    ensures WellFormed(t)
  {
    if t != [] {
      assert t[0] in t;
      PlainIsWellFormed(t[1..]);
    }
  }

  lemma {:induction false} WellFormedConcat(a: Text, b: Text)
    requires WellFormed(a) && WellFormed(b)
    ensures WellFormed(a + b)
  {
    if a == [] {
      assert a + b == b;
    } else {
      var n := if StartsWithPair(a) then 2 else 1;
      WellFormedConcat(a[n..], b);
      assert (a + b)[n..] == a[n..] + b;
    }
  }

  /** A unit that is no surrogate separates what can pair up. */
  lemma {:induction false} RepairedAcross(a: Text, c: CodeUnit, b: Text)
    requires !IsHigh(c) && !IsLow(c)
    ensures Repaired(a + [c] + b) == Repaired(a) + [c] + Repaired(b)
  {
    var t := a + [c] + b;
    if a == [] {
      assert t[0] == c && t[1..] == b;
    } else {
      var n := if StartsWithPair(a) then 2 else 1;
      RepairedAcross(a[n..], c, b);
      AcrossParts(a, c, b, n);
      RepairedHead(a);
      RepairedHead(t);
      Append4(Repaired(a)[..n], Repaired(a[n..]), [c], Repaired(b));
    }
  }

  lemma AcrossParts(a: Text, c: CodeUnit, b: Text, n: nat)
    requires a != [] && !IsHigh(c) && !IsLow(c) && n == if StartsWithPair(a) then 2 else 1
    ensures var t := a + [c] + b;
            t != [] && (StartsWithPair(a) <==> StartsWithPair(t)) && t[n..] == a[n..] + [c] + b && t[..n] == a[..n] && t[0] == a[0]
  {
    var t := a + [c] + b;
    assert t[0] == a[0] && (|a| > 1 ==> t[1] == a[1]) && (|a| == 1 ==> t[1] == c);
  }

  lemma Append4(h: Text, x: Text, y: Text, z: Text)
    ensures h + (x + y + z) == h + x + y + z
  {
  }

  lemma RepairedHead(t: Text)
    requires t != []
    ensures var n := if StartsWithPair(t) then 2 else 1;
            Repaired(t) == (if n == 2 then t[..2] else [if IsHigh(t[0]) || IsLow(t[0]) then REPLACEMENT else t[0]]) + Repaired(t[n..])
  {
  }

  /** ASCII is written as it is. */
  lemma {:induction false} AsciiIsItself(t: Text)
    requires forall u :: u in t ==> u < 0x80
    ensures Encode(t) == t
  {
    if t != [] {
      assert t[0] in t && forall u :: u in t[1..] ==> u in t;
      AsciiIsItself(t[1..]);
      assert CodePoints(t) == [t[0]] + CodePoints(t[1..]);
      assert Encode(t) == EncodePoint(t[0]) + Encode(t[1..]);
      assert t == [t[0]] + t[1..];
    }
  }

  /** Unpaired surrogates are all written as the same three bytes. */
  lemma UnpairedSurrogatesCollide()
    ensures Encode([0xD800]) == Encode([0xDFFF]) == Encode([0xFFFD])
  {
    assert CodePoints([0xD800]) == [0xFFFD] && CodePoints([0xDFFF]) == [0xFFFD] && CodePoints([0xFFFD]) == [0xFFFD];
  }

  lemma {:induction false} EncodedLength(t: Text)
    ensures |Encode(t)| <= 3 * |t|
  {
    if t != [] {
      var n := if StartsWithPair(t) then 2 else 1;
      EncodedLength(t[n..]);
      assert CodePoints(t)[1..] == CodePoints(t[n..]);
      assert Encode(t) == EncodePoint(CodePoints(t)[0]) + Encode(t[n..]);
    }
  }
}
