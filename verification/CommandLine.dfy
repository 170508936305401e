/**
 Windows command lines: the quoter that the elevation broker and the host launcher share,
 and the rules by which a C program's start-up code takes a command line apart again.
 */
module CommandLine {
  import opened Texts

  const TAB: CodeUnit := 0x09
  const LINE_FEED: CodeUnit := 0x0A
  const VERTICAL_TAB: CodeUnit := 0x0B
  const SPACE: CodeUnit := 0x20
  const QUOTE: CodeUnit := 0x22
  const BACKSLASH: CodeUnit := 0x5C

  // ---------------------------------------------------------------- the reader

  /**
   What a quote does inside quotes when another quote follows: nothing special; it stands for
   one quote and quoting goes on (the C run-time since 2008); or it stands for one quote and
   quoting ends (CommandLineToArgvW).
   */
  datatype QuoteRule = PlainToggle | PairStaysInside | PairLeaves

  function Slashes(n: nat): (r: Text)
    ensures |r| == n
  {
    seq(n, _ => BACKSLASH)
  }

  /** Microsoft's "Parsing C command-line arguments", for the arguments after the program name. */
  function Argv(t: Text, rule: QuoteRule): seq<Text> {
    Scan(t, false, false, [], 0, rule)
  }

  /** `slashes` backslashes have been read since `arg` was last extended. */
  function Scan(t: Text, started: bool, inQuotes: bool, arg: Text, slashes: nat, rule: QuoteRule): seq<Text>
    decreases |t|
  {
    if t == [] then
      if started then [arg + Slashes(slashes)] else []
    else if t[0] == BACKSLASH then
      Scan(t[1..], true, inQuotes, arg, slashes + 1, rule)
    else if t[0] == QUOTE then
      var arg' := arg + Slashes(slashes / 2);
      if slashes % 2 == 1 then
        Scan(t[1..], true, inQuotes, arg' + [QUOTE], 0, rule)
      else if inQuotes && !rule.PlainToggle? && |t| > 1 && t[1] == QUOTE then
        Scan(t[2..], true, rule.PairStaysInside?, arg' + [QUOTE], 0, rule)
      else
        Scan(t[1..], true, !inQuotes, arg', 0, rule)
    else if (t[0] == SPACE || t[0] == TAB) && !inQuotes then
      (if started then [arg + Slashes(slashes)] else []) + Scan(t[1..], false, false, [], 0, rule)
    else
      Scan(t[1..], true, inQuotes, arg + Slashes(slashes) + [t[0]], 0, rule)
  }

  // ---------------------------------------------------------------- the writer

  predicate Special(c: CodeUnit) {
    c == SPACE || c == TAB || c == LINE_FEED || c == VERTICAL_TAB || c == QUOTE
  }

  predicate NeedsQuotes(value: Text) {
    value == [] || exists c :: c in value && Special(c)
  }

  /** What is still to be written between the quotes, `slashes` backslashes being held back. */
  function Escaped(value: Text, slashes: nat): Text {
    if value == [] then Slashes(slashes * 2)
    else if value[0] == BACKSLASH then Escaped(value[1..], slashes + 1)
    else if value[0] == QUOTE then Slashes(slashes * 2 + 1) + [QUOTE] + Escaped(value[1..], 0)
    else Slashes(slashes) + [value[0]] + Escaped(value[1..], 0)
  }

  function Quoted(value: Text): Text {
    if NeedsQuotes(value) then [QUOTE] + Escaped(value, 0) + [QUOTE] else value
  }

  /** A value is left as it is exactly when it is not empty and has no white space and no quote; others are enclosed in quotes. */
  lemma QuotedIffNeeded(value: Text)
    ensures Quoted(value) == value <==>
            value != [] && forall c :: c in value ==> c != 0x20 && c != 0x09 && c != 0x0A && c != 0x0B && c != 0x22
    ensures Quoted(value) != value ==>
              var q := Quoted(value); |q| >= 2 && q[0] == 0x22 && q[|q| - 1] == 0x22
  {
    if NeedsQuotes(value) {
      EscapedGrows(value, 0);
    }
  }

  lemma {:induction false} EscapedGrows(value: Text, slashes: nat)
    ensures |Escaped(value, slashes)| >= |value| + slashes
  {
    if value != [] {
      EscapedGrows(value[1..], if value[0] == BACKSLASH then slashes + 1 else 0);
    }
  }

  method QuoteWindowsArgument(value: Text) returns (r: Text)
    ensures r == Quoted(value)
    ensures forall rule :: Argv(r, rule) == [value]
  {
    if !NeedsQuotes(value) {
      r := value;
    } else {
      r := [QUOTE];
      var backslashes := 0;
      var i := 0;
      while i < |value|
        invariant 0 <= i <= |value|
        invariant r + Escaped(value[i..], backslashes) == [QUOTE] + Escaped(value, 0)
      {
        var character := value[i];
        assert value[i..][1..] == value[i + 1..];
        ghost var before, held := r, backslashes;
        if character == BACKSLASH {
          backslashes := backslashes + 1;
        } else if character == QUOTE {
          r := r + Slashes(backslashes * 2 + 1) + [QUOTE];
          backslashes := 0;
          assert r + Escaped(value[i + 1..], 0) ==
                 before + (Slashes(held * 2 + 1) + [QUOTE] + Escaped(value[i + 1..], 0));
        } else {
          if backslashes > 0 {
            r := r + Slashes(backslashes);
            backslashes := 0;
          }
          r := r + [character];
          assert r + Escaped(value[i + 1..], 0) ==
                 before + (Slashes(held) + [character] + Escaped(value[i + 1..], 0));
        }
        i := i + 1;
      }
      if backslashes > 0 {
        r := r + Slashes(backslashes * 2);
      }
      assert r == [QUOTE] + Escaped(value, 0);
      r := r + [QUOTE];
    }
    forall rule ensures Argv(r, rule) == [value] {
      assert r + [] == r;
      QuotedIsOneArgument(value, [], rule);
    }
  }

  /** Whatever the arguments hold, a reader following any of the rules gets exactly them back. */
  method BuildCommandLine(arguments: seq<Text>) returns (commandLine: Text)
    ensures forall rule :: Argv(commandLine, rule) == arguments
  {
    commandLine := [];
    var index := 0;
    while index < |arguments|
      invariant 0 <= index <= |arguments|
      invariant commandLine == Line(arguments[..index])
    {
      if index > 0 {
        commandLine := commandLine + [SPACE];
      }
      var quoted := QuoteWindowsArgument(arguments[index]);
      commandLine := commandLine + quoted;
      assert arguments[..index + 1][..index] == arguments[..index];
      index := index + 1;
    }
    assert arguments[..index] == arguments;
    forall rule ensures Argv(commandLine, rule) == arguments {
      assert Line(arguments) + [] == Line(arguments);
      LineRoundTrip(arguments, [], rule);
    }
  }

  function Line(arguments: seq<Text>): Text {
    if arguments == [] then []
    else
      var last := |arguments| - 1;
      Line(arguments[..last]) + (if last > 0 then [SPACE] else []) + Quoted(arguments[last])
  }

  // ---------------------------------------------------------------- reading back

  /** Text that may follow an argument. */
  predicate Boundary(rest: Text) {
    rest == [] || rest[0] == SPACE
  }

  function Following(rest: Text, rule: QuoteRule): seq<Text>
    requires Boundary(rest)
  {
    if rest == [] then [] else Argv(rest[1..], rule)
  }

  lemma {:induction false} ScanSlashes(n: nat, t: Text, inQuotes: bool, arg: Text, k: nat, rule: QuoteRule)
    ensures Scan(Slashes(n) + t, true, inQuotes, arg, k, rule) == Scan(t, true, inQuotes, arg, k + n, rule)
  {
    if n == 0 {
      assert Slashes(n) + t == t;
    } else {
      assert (Slashes(n) + t)[1..] == Slashes(n - 1) + t;
      ScanSlashes(n - 1, t, inQuotes, arg, k + 1, rule);
    }
  }

  lemma SlashesAppend(n: nat, m: nat)
    ensures Slashes(n) + Slashes(m) == Slashes(n + m)
  {
  }

  lemma ScanOrdinary(c: CodeUnit, tail: Text, started: bool, inQuotes: bool, arg: Text, k: nat, rule: QuoteRule)
    requires c != BACKSLASH && c != QUOTE && (inQuotes || (c != SPACE && c != TAB))
    ensures Scan([c] + tail, started, inQuotes, arg, k, rule) ==
            Scan(tail, true, inQuotes, arg + Slashes(k) + [c], 0, rule)
  {
    assert ([c] + tail)[1..] == tail;
  }

  /** An odd run of backslashes makes the quote literal; after an even run it closes the quotes. */
  lemma ScanQuoteMark(tail: Text, arg: Text, k: nat, rule: QuoteRule)
    ensures k % 2 == 1 ==>
              Scan([QUOTE] + tail, true, true, arg, k, rule) ==
              Scan(tail, true, true, arg + Slashes(k / 2) + [QUOTE], 0, rule)
    ensures k % 2 == 0 && Boundary(tail) ==>
              Scan([QUOTE] + tail, true, true, arg, k, rule) ==
              Scan(tail, true, false, arg + Slashes(k / 2), 0, rule)
  {
    var t := [QUOTE] + tail;
    assert t[1..] == tail;
    assert |tail| > 0 ==> t[1] == tail[0];
  }

  /** One character of the escaped body that is not a backslash, with the run held before it. */
  lemma ScanEscapedUnit(c: CodeUnit, n: nat, rest: Text, arg: Text, rule: QuoteRule)
    requires c != BACKSLASH
    ensures var held := if c == QUOTE then n * 2 + 1 else n;
            Scan(Slashes(held) + ([c] + rest), true, true, arg, 0, rule) ==
            Scan(rest, true, true, arg + Slashes(n) + [c], 0, rule)
  {
    var held := if c == QUOTE then n * 2 + 1 else n;
    ScanSlashes(held, [c] + rest, true, arg, 0, rule);
    if c == QUOTE {
      ScanQuoteMark(rest, arg, held, rule);
    } else {
      ScanOrdinary(c, rest, true, true, arg, held, rule);
    }
  }

  lemma ScanClosing(n: nat, rest: Text, arg: Text, rule: QuoteRule)
    requires Boundary(rest)
    ensures Scan(Slashes(n * 2) + [QUOTE] + rest, true, true, arg, 0, rule) ==
            Scan(rest, true, false, arg + Slashes(n), 0, rule)
  {
    assert Slashes(n * 2) + [QUOTE] + rest == Slashes(n * 2) + ([QUOTE] + rest);
    ScanSlashes(n * 2, [QUOTE] + rest, true, arg, 0, rule);
    ScanQuoteMark(rest, arg, n * 2, rule);
  }

  /** The escaped body and its closing quote put back the held backslashes and the value. */
  lemma {:induction false} ScanEscaped(value: Text, n: nat, rest: Text, arg: Text, rule: QuoteRule)
    requires Boundary(rest)
    ensures Scan(Escaped(value, n) + [QUOTE] + rest, true, true, arg, 0, rule) ==
            Scan(rest, true, false, arg + Slashes(n) + value, 0, rule)
    decreases |value|
  {
    if value == [] {
      ScanClosing(n, rest, arg, rule);
      assert arg + Slashes(n) + value == arg + Slashes(n);
    } else if value[0] == BACKSLASH {
      ScanEscaped(value[1..], n + 1, rest, arg, rule);
      SlashesAppend(n, 1);
      assert arg + Slashes(n + 1) + value[1..] == arg + Slashes(n) + value;
    } else {
      var rest' := Escaped(value[1..], 0) + [QUOTE] + rest;
      var held := if value[0] == QUOTE then n * 2 + 1 else n;
      assert Escaped(value, n) + [QUOTE] + rest == Slashes(held) + ([value[0]] + rest');
      ScanEscapedUnit(value[0], n, rest', arg, rule);
      var arg' := arg + Slashes(n) + [value[0]];
      ScanEscaped(value[1..], 0, rest, arg', rule);
      assert arg' + Slashes(0) + value[1..] == arg + Slashes(n) + value;
    }
  }

  /** An argument that needs no quotes is read as it stands, backslashes included. */
  lemma {:induction false} ScanPlain(value: Text, rest: Text, arg: Text, k: nat, started: bool, rule: QuoteRule)
    requires Boundary(rest) && (started || value != [])
    requires forall c :: c in value ==> !Special(c)
    ensures Scan(value + rest, started, false, arg, k, rule) == [arg + Slashes(k) + value] + Following(rest, rule)
    decreases |value|
  {
    if value == [] {
      assert value + rest == rest && arg + Slashes(k) + value == arg + Slashes(k);
    } else {
      assert value + rest == [value[0]] + (value[1..] + rest);
      assert !Special(value[0]);
      if value[0] == BACKSLASH {
        assert (value + rest)[1..] == value[1..] + rest;
        ScanPlain(value[1..], rest, arg, k + 1, true, rule);
        SlashesAppend(k, 1);
        assert arg + Slashes(k + 1) + value[1..] == arg + Slashes(k) + value;
      } else {
        var arg' := arg + Slashes(k) + [value[0]];
        ScanOrdinary(value[0], value[1..] + rest, started, false, arg, k, rule);
        ScanPlain(value[1..], rest, arg', 0, true, rule);
        assert arg' + Slashes(0) + value[1..] == arg + Slashes(k) + value;
      }
    }
  }

  lemma QuotedIsOneArgument(value: Text, rest: Text, rule: QuoteRule)
    requires Boundary(rest)
    ensures Argv(Quoted(value) + rest, rule) == [value] + Following(rest, rule)
  {
    if NeedsQuotes(value) {
      var body := Escaped(value, 0) + [QUOTE] + rest;
      assert Quoted(value) + rest == [QUOTE] + body;
      assert ([QUOTE] + body)[1..] == body;
      assert [] + Slashes(0) == [];
      ScanEscaped(value, 0, rest, [], rule);
      assert [] + Slashes(0) + value == value;
      assert value + Slashes(0) == value;
    } else {
      ScanPlain(value, rest, [], 0, false, rule);
      assert [] + Slashes(0) + value == value;
    }
  }

  lemma {:induction false} LineRoundTrip(arguments: seq<Text>, rest: Text, rule: QuoteRule)
    requires Boundary(rest) && (arguments == [] ==> rest == [])
    ensures Argv(Line(arguments) + rest, rule) == arguments + Following(rest, rule)
    decreases |arguments|
  {
    if arguments != [] {
      var last := |arguments| - 1;
      QuotedIsOneArgument(arguments[last], rest, rule);
      if last == 0 {
        assert Line(arguments) == Quoted(arguments[last]);
        assert arguments == [arguments[last]];
      } else {
        LineSnoc(arguments, rest);
        LineRoundTrip(arguments[..last], [SPACE] + (Quoted(arguments[last]) + rest), rule);
        assert ([SPACE] + (Quoted(arguments[last]) + rest))[1..] == Quoted(arguments[last]) + rest;
        calc {
          arguments[..last] + ([arguments[last]] + Following(rest, rule));
          (arguments[..last] + [arguments[last]]) + Following(rest, rule);
          { assert arguments == arguments[..last] + [arguments[last]]; }
          arguments + Following(rest, rule);
        }
      }
    }
  }

  lemma {:induction false} LineSnoc(arguments: seq<Text>, rest: Text)
    requires |arguments| > 1
    ensures var last := |arguments| - 1;
            Line(arguments) + rest ==
            Line(arguments[..last]) + ([SPACE] + (Quoted(arguments[last]) + rest))
  {
    var last := |arguments| - 1;
    Regroup(Line(arguments[..last]), [SPACE], Quoted(arguments[last]), rest);
  }

  lemma Regroup(a: Text, b: Text, c: Text, d: Text)
    ensures a + b + c + d == a + (b + (c + d))
  {
  }
}
