/** JavaScript and C# strings as sequences of UTF-16 code units, with splitting and joining. */
module Texts {

  type CodeUnit = u: int | 0 <= u < 0x1_0000

  type Text = seq<CodeUnit>

  /** The text of an ASCII literal. */
  function Ascii(s: string): (t: Text)
    ensures |t| == |s|
  {
    seq(|s|, i requires 0 <= i < |s| => s[i] as int % 0x1_0000)
  }

  /** The first half of a surrogate pair. */
  predicate IsHigh(u: CodeUnit) { 0xD800 <= u <= 0xDBFF }

  /** The second half of a surrogate pair. */
  predicate IsLow(u: CodeUnit) { 0xDC00 <= u <= 0xDFFF }

  /** Lexicographic order by code unit, as JavaScript's `<` on strings. */
  predicate Less(a: Text, b: Text) {
    if b == [] then false
    else if a == [] then true
    else a[0] < b[0] || (a[0] == b[0] && Less(a[1..], b[1..]))
  }

  /** `a` comes first if it is a proper beginning of `b`, or has the smaller unit where they first differ. */
  lemma {:induction false} LessIff(a: Text, b: Text)
    ensures Less(a, b) <==> exists i :: 0 <= i <= |a| && i < |b| && a[..i] == b[..i] && (i == |a| || a[i] < b[i])
  {
    if a == [] {
      assert b != [] ==> a[..0] == b[..0];
    } else if b != [] && a[0] == b[0] {
      LessIff(a[1..], b[1..]);
      if Less(a, b) {
        var i :| 0 <= i <= |a[1..]| && i < |b[1..]| && a[1..][..i] == b[1..][..i] && (i == |a[1..]| || a[1..][i] < b[1..][i]);
        assert a[..i + 1] == [a[0]] + a[1..][..i] == [b[0]] + b[1..][..i] == b[..i + 1];
      }
      forall i | 0 <= i <= |a| && i < |b| && a[..i] == b[..i] && (i == |a| || a[i] < b[i]) ensures Less(a, b) {
        assert i > 0;
        assert a[1..][..i - 1] == a[..i][1..] == b[..i][1..] == b[1..][..i - 1];
      }
    } else if b != [] {
      assert a[..0] == b[..0];
      forall i | 0 < i <= |a| && i < |b| ensures a[..i] != b[..i] {
        assert a[..i][0] != b[..i][0];
      }
    }
  }

  lemma {:induction false} LessIrreflexive(a: Text)
    ensures !Less(a, a)
  {
    if a != [] {
      LessIrreflexive(a[1..]);
    }
  }

  lemma {:induction false} LessTransitive(a: Text, b: Text, c: Text)
    requires Less(a, b) && Less(b, c)
    ensures Less(a, c)
  {
    if a != [] && a[0] == b[0] && b[0] == c[0] {
      LessTransitive(a[1..], b[1..], c[1..]);
    }
  }

  lemma {:induction false} LessTotal(a: Text, b: Text)
    ensures a == b || Less(a, b) || Less(b, a)
  {
    if a != [] && b != [] && a[0] == b[0] {
      LessTotal(a[1..], b[1..]);
      if a[1..] == b[1..] {
        assert a == [a[0]] + a[1..] == [b[0]] + b[1..] == b;
      }
    } else if a == [] && b == [] {
      assert a == b;
    }
  }

  /** `parts.join(sep)` for a one-unit separator. */
  function JoinWith(parts: seq<Text>, sep: CodeUnit): Text {
    if parts == [] then []
    else if |parts| == 1 then parts[0]
    else parts[0] + [sep] + JoinWith(parts[1..], sep)
  }

  /** `t.split(sep)` for a one-unit separator: never empty, and `""` gives one empty part. */
  function SplitOn(t: Text, sep: CodeUnit): (parts: seq<Text>)
    ensures |parts| >= 1
  {
    if t == [] then [[]]
    else Prepend(t[0], sep, SplitOn(t[1..], sep))
  }

  lemma {:induction false} JoinOfSplit(t: Text, sep: CodeUnit)
    ensures JoinWith(SplitOn(t, sep), sep) == t
  {
    if t != [] {
      JoinOfSplit(t[1..], sep);
      var rest := SplitOn(t[1..], sep);
      if t[0] == sep {
        assert ([[]] + rest)[1..] == rest;
        assert t == [] + [sep] + t[1..];
      } else {
        var all := [[t[0]] + rest[0]] + rest[1..];
        assert all[1..] == rest[1..];
        assert t == [t[0]] + t[1..];
        if |rest| > 1 {
          assert [t[0]] + (rest[0] + [sep] + JoinWith(rest[1..], sep)) ==
                 [t[0]] + rest[0] + [sep] + JoinWith(rest[1..], sep);
        }
      }
    }
  }

  lemma {:induction false} SplitHasNoSeparator(t: Text, sep: CodeUnit, part: Text)
    requires part in SplitOn(t, sep)
    ensures sep !in part
  {
    if t != [] {
      var rest := SplitOn(t[1..], sep);
      forall p | p in rest ensures sep !in p {
        SplitHasNoSeparator(t[1..], sep, p);
      }
      assert rest[0] in rest;
    }
  }

  /** Splitting distributes over a separator. */
  lemma {:induction false} SplitAcross(a: Text, sep: CodeUnit, b: Text)
    ensures SplitOn(a + [sep] + b, sep) == SplitOn(a, sep) + SplitOn(b, sep)
  {
    var whole := a + [sep] + b;
    SplitStep(whole, sep);
    if a == [] {
      assert whole[0] == sep && whole[1..] == b;
    } else {
      assert whole[0] == a[0] && whole[1..] == a[1..] + [sep] + b;
      SplitAcross(a[1..], sep, b);
      SplitStep(a, sep);
      PrependDistributes(a[0], sep, SplitOn(a[1..], sep), SplitOn(b, sep));
    }
  }

  function Prepend(u: CodeUnit, sep: CodeUnit, rest: seq<Text>): seq<Text>
    requires rest != []
  {
    if u == sep then [[]] + rest else [[u] + rest[0]] + rest[1..]
  }

  lemma PrependDistributes(u: CodeUnit, sep: CodeUnit, x: seq<Text>, y: seq<Text>)
    requires x != []
    ensures Prepend(u, sep, x + y) == Prepend(u, sep, x) + y
  {
  }

  lemma SplitStep(t: Text, sep: CodeUnit)
    requires t != []
    ensures SplitOn(t, sep) == Prepend(t[0], sep, SplitOn(t[1..], sep))
  {
  }

  lemma {:induction false} SplitWithoutSeparator(t: Text, sep: CodeUnit)
    requires sep !in t
    ensures SplitOn(t, sep) == [t]
  {
    if t != [] {
      SplitWithoutSeparator(t[1..], sep);
      assert t == [t[0]] + t[1..];
    }
  }

  lemma {:induction false} SplitOfJoin(parts: seq<Text>, sep: CodeUnit)
    requires parts != [] && forall p :: p in parts ==> sep !in p
    ensures SplitOn(JoinWith(parts, sep), sep) == parts
  {
    SplitWithoutSeparator(parts[0], sep);
    if |parts| > 1 {
      SplitOfJoin(parts[1..], sep);
      SplitAcross(parts[0], sep, JoinWith(parts[1..], sep));
      assert parts == [parts[0]] + parts[1..];
    }
  }

  /** JavaScript white space and line terminators, which `trim` removes. */
  predicate IsSpace(u: CodeUnit) {
    0x09 <= u <= 0x0D || u == 0x20 || u == 0xA0 || u == 0x1680 || 0x2000 <= u <= 0x200A ||
    u == 0x2028 || u == 0x2029 || u == 0x202F || u == 0x205F || u == 0x3000 || u == 0xFEFF
  }

  function Trim(t: Text): (r: Text)
    ensures |r| <= |t|
    ensures r != [] ==> !IsSpace(r[0]) && !IsSpace(r[|r| - 1])
  {
    if t == [] then []
    else if IsSpace(t[0]) then Trim(t[1..])
    else if IsSpace(t[|t| - 1]) then Trim(t[..|t| - 1])
    else t
  }

  lemma TrimIdempotent(t: Text)
    ensures Trim(Trim(t)) == Trim(t)
  {
  }

  lemma {:induction false} TrimKeepsContent(t: Text, u: CodeUnit)
    requires u in t && !IsSpace(u)
    ensures Trim(t) != []
  {
    if IsSpace(t[0]) {
      TrimKeepsContent(t[1..], u);
    } else if IsSpace(t[|t| - 1]) {
      TrimKeepsContent(t[..|t| - 1], u);
    }
  }

  predicate AllSpace(t: Text) {
    forall u :: u in t ==> IsSpace(u)
  }

  /** No white space at either end. */
  predicate Trimmed(t: Text) {
    t != [] ==> !IsSpace(t[0]) && !IsSpace(t[|t| - 1])
  }

  /** `t` is `m` with some white space around it, which `m` itself has not. */
  ghost predicate Surrounds(t: Text, m: Text) {
    Trimmed(m) && exists a, b :: AllSpace(a) && AllSpace(b) && t == a + m + b
  }

  lemma {:induction false} TrimSpaced(a: Text, m: Text, b: Text)
    requires AllSpace(a) && AllSpace(b) && Trimmed(m)
    ensures Trim(a + m + b) == m
    decreases |a| + |b|
  {
    var t := a + m + b;
    if a != [] {
      assert a[0] in a && t[0] == a[0];
      assert t[1..] == a[1..] + m + b;
      TrimSpaced(a[1..], m, b);
    } else if b != [] {
      var init := b[..|b| - 1];
      assert b[|b| - 1] in b && t[|t| - 1] == b[|b| - 1];
      if m == [] {
        assert t == b && b[0] in b && t[1..] == [] + [] + b[1..];
        TrimSpaced([], m, b[1..]);
      } else {
        assert t[0] == m[0] && t[..|t| - 1] == a + m + init;
        TrimSpaced(a, m, init);
      }
    } else {
      assert t == m;
    }
  }

  lemma {:induction false} TrimSurrounded(t: Text)
    ensures Surrounds(t, Trim(t))
  {
    if t != [] && IsSpace(t[0]) {
      TrimSurrounded(t[1..]);
      MoreSpace([t[0]], t[1..], [], Trim(t));
      assert t == [t[0]] + t[1..] + [];
    } else if t != [] && IsSpace(t[|t| - 1]) {
      TrimSurrounded(t[..|t| - 1]);
      MoreSpace([], t[..|t| - 1], [t[|t| - 1]], Trim(t));
      assert t == [] + t[..|t| - 1] + [t[|t| - 1]];
    } else {
      assert AllSpace([]) && t == [] + t + [];
    }
  }

  lemma MoreSpace(x: Text, t: Text, y: Text, m: Text)
    requires AllSpace(x) && AllSpace(y) && Surrounds(t, m)
    ensures Surrounds(x + t + y, m)
  {
    var a, b :| AllSpace(a) && AllSpace(b) && t == a + m + b;
    assert x + t + y == (x + a) + m + (b + y);
    assert AllSpace(x + a) && AllSpace(b + y);
  }

  /** Trimming removes the white space around a text, all of it and nothing else. */
  lemma TrimIff(t: Text, m: Text)
    ensures Trim(t) == m <==> Surrounds(t, m)
  {
    TrimSurrounded(t);
    if Surrounds(t, m) {
      var c, d :| AllSpace(c) && AllSpace(d) && t == c + m + d;
      TrimSpaced(c, m, d);
    }
  }

  /** Something is left exactly when not all of it is white space. */
  lemma TrimEmptyIff(t: Text)
    ensures Trim(t) == [] <==> AllSpace(t)
  {
    if AllSpace(t) {
      TrimSpaced(t, [], []);
      assert t + [] + [] == t;
    } else {
      var u :| u in t && !IsSpace(u);
      TrimKeepsContent(t, u);
    }
  }
}
