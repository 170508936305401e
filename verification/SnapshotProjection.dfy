/** Views of an accessibility snapshot: a subtree, a depth, interactive elements only, a size. */
module SnapshotProjection {
  import opened Common
  import opened Texts

  const NEWLINE: CodeUnit := 0x0A

  /** What the semantic pattern captures from a line. */
  datatype Semantic = Semantic(indent: nat, role: Text, ref: Text)

  /**
   The regular expressions and the set of interactive roles, as functions: the indent of a bullet
   line, the parts of a line with a reference, and whether a role is interactive.
   */
  datatype Classifier =
    Classifier(bullet: Text -> Option<nat>, semantic: Text -> Option<Semantic>, interactive: Text -> bool)

  datatype Filter = NoFilter | Interactive | All

  /** An empty `refId` is the same as none. */
  datatype Options = Options(filter: Filter, depth: Option<nat>, refId: Text, maxChars: Option<nat>)

  datatype State = NoState | Full(snapshot: Text) | Partial

  datatype Snapshot = Snapshot(content: Text, refs: seq<Text>, truncated: bool, state: State)

  // ---------------------------------------------------------------- selecting lines

  predicate IsInteractive(c: Classifier, refs: seq<Text>, line: Text) {
    match c.semantic(line)
    case Some(s) => s.ref in refs && c.interactive(s.role)
    case None => false
  }

  predicate Passes(c: Classifier, o: Options, refs: seq<Text>, line: Text) {
    o.filter.Interactive? ==> IsInteractive(c, refs, line)
  }

  predicate HasRef(c: Classifier, line: Text, ref: Text) {
    c.semantic(line).Some? && c.semantic(line).value.ref == ref
  }

  function Indent(m: Option<nat>): nat {
    match m case Some(n) => n case None => 0
  }

  predicate TooDeep(depth: Option<nat>, indent: int) {
    depth.Some? && indent / 2 >= depth.value
  }

  /** The loop after the anchor line: up to the next bullet that is not indented deeper. */
  function BelowAnchor(c: Classifier, o: Options, refs: seq<Text>, anchorIndent: nat, lines: seq<Text>): seq<Text> {
    if lines == [] then []
    else
      var bullet := c.bullet(lines[0]);
      if bullet.Some? && bullet.value <= anchorIndent then []
      else
        var rest := BelowAnchor(c, o, refs, anchorIndent, lines[1..]);
        if TooDeep(o.depth, Indent(bullet) - anchorIndent) || !Passes(c, o, refs, lines[0]) then rest
        else [lines[0]] + rest
  }

  function Chosen(lines: seq<Text>, keep: Text -> bool): seq<Text> {
    if lines == [] then []
    else (if keep(lines[0]) then [lines[0]] else []) + Chosen(lines[1..], keep)
  }

  /** The line test without an anchor: one filter per combination of options. */
  predicate KeepsLine(c: Classifier, o: Options, refs: seq<Text>, line: Text) {
    if o.filter.Interactive? then
      IsInteractive(c, refs, line) && !TooDeep(o.depth, c.semantic(line).value.indent)
    else
      c.bullet(line).Some? ==> !TooDeep(o.depth, c.bullet(line).value)
  }

  function LineTest(c: Classifier, o: Options, refs: seq<Text>): Text -> bool {
    line => KeepsLine(c, o, refs, line)
  }

  function FirstWithRef(c: Classifier, lines: seq<Text>, ref: Text): (r: Option<nat>)
    ensures r.Some? ==> r.value < |lines| && HasRef(c, lines[r.value], ref)
  {
    if lines == [] then None
    else if HasRef(c, lines[0], ref) then Some(0)
    else match FirstWithRef(c, lines[1..], ref) case Some(i) => Some(i + 1) case None => None
  }

  /** The selected lines, or an error when the reference is not in the text. */
  function Selected(c: Classifier, o: Options, refs: seq<Text>, lines: seq<Text>): Result<seq<Text>> {
    if o.refId == [] then Ok(Chosen(lines, LineTest(c, o, refs)))
    else
      match FirstWithRef(c, lines, o.refId)
      case None => Err
      case Some(anchor) =>
        var line := lines[anchor];
        Ok((if Passes(c, o, refs, line) then [line] else []) +
           BelowAnchor(c, o, refs, c.semantic(line).value.indent, lines[anchor + 1..]))
  }

  // ---------------------------------------------------------------- cutting to size

  function Joined(lines: seq<Text>): Text {
    JoinWith(lines, NEWLINE)
  }

  /** The largest `k <= most` such that the first `k` lines fit in `max` characters. */
  function LongestFit(lines: seq<Text>, max: nat, most: nat): (k: nat)
    requires most <= |lines|
    ensures k <= most && (k > 0 ==> |Joined(lines[..k])| <= max)
    ensures forall j :: k < j <= most ==> |Joined(lines[..j])| > max
  {
    if most == 0 || |Joined(lines[..most])| <= max then most else LongestFit(lines, max, most - 1)
  }

  /** The longest whole-line prefix that fits, or the start of the first line when not even that fits. */
  function CutText(lines: seq<Text>, max: nat): Text {
    var k := LongestFit(lines, max, |lines|);
    if k > 0 then Joined(lines[..k])
    else if lines == [] || |lines[0]| <= max then []
    else lines[0][..max]
  }

  /** The projection of a snapshot. */
  function Projected(c: Classifier, snapshot: Snapshot, o: Options): Result<Snapshot> {
    if o.filter.NoFilter? && o.depth.None? && o.refId == [] && o.maxChars.None? then Ok(snapshot)
    else if o.refId != [] && o.refId !in snapshot.refs then Err
    else if snapshot.content == [] then Ok(snapshot)
    else
      match Selected(c, o, snapshot.refs, SplitOn(snapshot.content, NEWLINE))
      case Err => Err
      case Ok(lines) =>
        var cut := o.maxChars.Some? && |Joined(lines)| > o.maxChars.value;
        var content := if cut then CutText(lines, o.maxChars.value) else Joined(lines);
        Ok(Snapshot(content, snapshot.refs, snapshot.truncated || cut,
                    if snapshot.state.Full? then Full(content) else snapshot.state))
  }

  lemma {:induction false} JoinedSnoc(lines: seq<Text>, line: Text)
    ensures |Joined(lines + [line])| == |Joined(lines)| + |line| + (if lines == [] then 0 else 1)
  {
    if lines == [] {
      assert lines + [line] == [line];
    } else {
      assert (lines + [line])[0] == lines[0] && (lines + [line])[1..] == lines[1..] + [line];
      JoinedSnoc(lines[1..], line);
    }
  }

  /** Fewer lines never take more room. */
  lemma {:induction false} JoinedGrows(lines: seq<Text>, j: nat, k: nat)
    requires j <= k <= |lines|
    ensures |Joined(lines[..j])| <= |Joined(lines[..k])|
    decreases k - j
  {
    if j < k {
      JoinedGrows(lines, j, k - 1);
      assert lines[..k] == lines[..k - 1] + [lines[k - 1]];
      JoinedSnoc(lines[..k - 1], lines[k - 1]);
    }
  }

  /** The greedy loop finds the longest fit. */
  method CutToSize(selected: seq<Text>, maxChars: nat) returns (content: Text)
    requires |Joined(selected)| > maxChars
    ensures content == CutText(selected, maxChars)
  {
    var out: seq<Text> := [];
    var used := 0;
    var i := 0;
    while i < |selected|
      invariant 0 <= i <= |selected| && out == selected[..i] && used == |Joined(out)| <= maxChars
    {
      var cost := |selected[i]| + (if |out| > 0 then 1 else 0);
      JoinedSnoc(out, selected[i]);
      assert selected[..i + 1] == out + [selected[i]];
      if used + cost > maxChars {
        break;
      }
      out := out + [selected[i]];
      used := used + cost;
      i := i + 1;
    }
    assert selected[..|selected|] == selected;
    LongestFitIs(selected, maxChars, i, |selected|);
    if |out| > 0 {
      content := Joined(out);
    } else {
      assert selected[..1] == [selected[0]];
      content := selected[0][..maxChars];
    }
  }

  lemma {:induction false} LongestFitIs(lines: seq<Text>, max: nat, k: nat, most: nat)
    requires k < most <= |lines| && |Joined(lines[..k])| <= max < |Joined(lines[..k + 1])|
    ensures LongestFit(lines, max, most) == k
  {
    JoinedGrows(lines, k + 1, most);
    if k + 1 < most {
      LongestFitIs(lines, max, k, most - 1);
    }
  }

  method ScanFromAnchor(c: Classifier, o: Options, refs: seq<Text>, lines: seq<Text>, anchor: nat) returns (selected: seq<Text>)
    requires anchor < |lines| && c.semantic(lines[anchor]).Some?
    ensures selected == (if Passes(c, o, refs, lines[anchor]) then [lines[anchor]] else []) +
                        BelowAnchor(c, o, refs, c.semantic(lines[anchor]).value.indent, lines[anchor + 1..])
  {
    var anchorIndent := c.semantic(lines[anchor]).value.indent;
    selected := [];
    ghost var whole := StillToScan(c, o, refs, anchorIndent, lines, anchor, anchor);
    var index := anchor;
    while index < |lines|
      invariant anchor <= index <= |lines|
      invariant selected + StillToScan(c, o, refs, anchorIndent, lines, anchor, index) == whole
    {
      var line := lines[index];
      var bullet := c.bullet(line);
      var indent: int := Indent(bullet);
      ScanStep(c, o, refs, anchorIndent, lines, anchor, index);
      if index > anchor && bullet.Some? && indent <= anchorIndent {
        return;
      }
      if (index > anchor && TooDeep(o.depth, indent - anchorIndent)) || !Passes(c, o, refs, line) {
        index := index + 1;
        continue;
      }
      ghost var rest := StillToScan(c, o, refs, anchorIndent, lines, anchor, index + 1);
      assert selected + ([line] + rest) == selected + [line] + rest;
      selected := selected + [line];
      index := index + 1;
    }
    assert lines[index..] == [];
  }

  /** What the loop still has to select from line `index` on. */
  function StillToScan(c: Classifier, o: Options, refs: seq<Text>, anchorIndent: nat, lines: seq<Text>, anchor: nat, index: nat): seq<Text>
    requires anchor <= index <= |lines| && anchor < |lines|
  {
    if index > anchor then BelowAnchor(c, o, refs, anchorIndent, lines[index..])
    else (if Passes(c, o, refs, lines[anchor]) then [lines[anchor]] else []) + BelowAnchor(c, o, refs, anchorIndent, lines[anchor + 1..])
  }

  lemma {:induction false} ScanStep(c: Classifier, o: Options, refs: seq<Text>, anchorIndent: nat, lines: seq<Text>, anchor: nat, index: nat)
    requires anchor <= index < |lines|
    ensures var bullet := c.bullet(lines[index]);
            var rest := StillToScan(c, o, refs, anchorIndent, lines, anchor, index + 1);
            StillToScan(c, o, refs, anchorIndent, lines, anchor, index) ==
            if index > anchor && bullet.Some? && bullet.value <= anchorIndent then []
            else if (index > anchor && TooDeep(o.depth, Indent(bullet) - anchorIndent)) || !Passes(c, o, refs, lines[index]) then rest
            else [lines[index]] + rest
  {
    BelowStep(c, o, refs, anchorIndent, lines, index);
  }

  lemma {:induction false} BelowStep(c: Classifier, o: Options, refs: seq<Text>, anchorIndent: nat, lines: seq<Text>, index: nat)
    requires index < |lines|
    ensures BelowAnchor(c, o, refs, anchorIndent, lines[index..]) ==
            var bullet := c.bullet(lines[index]);
            var rest := BelowAnchor(c, o, refs, anchorIndent, lines[index + 1..]);
            if bullet.Some? && bullet.value <= anchorIndent then []
            else if TooDeep(o.depth, Indent(bullet) - anchorIndent) || !Passes(c, o, refs, lines[index]) then rest
            else [lines[index]] + rest
  {
    assert lines[index..][1..] == lines[index + 1..];
  }

  method FindAnchor(c: Classifier, lines: seq<Text>, ref: Text) returns (anchor: int)
    ensures anchor < 0 <==> FirstWithRef(c, lines, ref).None?
    ensures anchor >= 0 ==> FirstWithRef(c, lines, ref) == Some(anchor)
  {
    var i := 0;
    while i < |lines|
      invariant 0 <= i <= |lines|
      invariant FirstWithRef(c, lines, ref) ==
                match FirstWithRef(c, lines[i..], ref) case Some(k) => Some(i + k) case None => None
    {
      assert lines[i..][1..] == lines[i + 1..];
      if HasRef(c, lines[i], ref) {
        return i;
      }
      i := i + 1;
    }
    return -1;
  }

  method ProjectBrowserSnapshot(c: Classifier, snapshot: Snapshot, o: Options) returns (r: Result<Snapshot>)
    ensures r == Projected(c, snapshot, o)
  {
    if o.filter.NoFilter? && o.depth.None? && o.refId == [] && o.maxChars.None? {
      return Ok(snapshot);
    }
    if o.refId != [] && o.refId !in snapshot.refs {
      return Err;
    }
    if snapshot.content == [] {
      return Ok(snapshot);
    }
    var lines := SplitOn(snapshot.content, NEWLINE);
    var selected;
    if o.refId != [] {
      var anchor := FindAnchor(c, lines, o.refId);
      if anchor < 0 {
        return Err;
      }
      selected := ScanFromAnchor(c, o, snapshot.refs, lines, anchor);
    } else {
      selected := Chosen(lines, LineTest(c, o, snapshot.refs));
    }
    var content := Joined(selected);
    var truncated := false;
    if o.maxChars.Some? && |content| > o.maxChars.value {
      content := CutToSize(selected, o.maxChars.value);
      truncated := true;
    }
    return Ok(Snapshot(content, snapshot.refs, snapshot.truncated || truncated,
                       if snapshot.state.Full? then Full(content) else snapshot.state));
  }

  // ---------------------------------------------------------------- errors, and calls that change nothing

  /** Without options the snapshot comes back as it is, and so does one without content. */
  lemma NothingToProject(c: Classifier, snapshot: Snapshot, o: Options)
    ensures o == Options(NoFilter, None, [], None) ==> Projected(c, snapshot, o) == Ok(snapshot)
    ensures snapshot.content == [] && (o.refId != [] ==> o.refId in snapshot.refs) ==> Projected(c, snapshot, o) == Ok(snapshot)
  {
  }

  /** The only errors: the reference is not among the refs, or on no line of a snapshot that has any. */
  lemma ErrorIff(c: Classifier, snapshot: Snapshot, o: Options)
    ensures Projected(c, snapshot, o).Err? <==>
            o.refId != [] &&
            (o.refId !in snapshot.refs ||
             (snapshot.content != [] && forall line :: line in SplitOn(snapshot.content, NEWLINE) ==> !HasRef(c, line, o.refId)))
  {
    var lines := SplitOn(snapshot.content, NEWLINE);
    FirstIff(c, lines, o.refId);
  }

  lemma {:induction false} FirstIff(c: Classifier, lines: seq<Text>, ref: Text)
    ensures FirstWithRef(c, lines, ref).None? <==> forall line :: line in lines ==> !HasRef(c, line, ref)
    ensures forall i :: FirstWithRef(c, lines, ref) == Some(i) ==> forall j :: 0 <= j < i ==> !HasRef(c, lines[j], ref)
  {
    if lines != [] {
      FirstIff(c, lines[1..], ref);
      assert forall line :: line in lines <==> line == lines[0] || line in lines[1..];
    }
  }

  // ---------------------------------------------------------------- which lines are shown

  /** The lines from `i` on that are shown, in their order. */
  function Pick(lines: seq<Text>, i: nat, shown: nat -> bool): seq<Text>
    requires i <= |lines|
    decreases |lines| - i
  {
    if i == |lines| then [] else (if shown(i) then [lines[i]] else []) + Pick(lines, i + 1, shown)
  }

  /** With the interactive filter, only lines that name a known reference and an interactive role. */
  predicate RoleShown(c: Classifier, o: Options, refs: seq<Text>, line: Text) {
    o.filter == Interactive ==>
      match c.semantic(line) case Some(s) => s.ref in refs && c.interactive(s.role) case None => false
  }

  /** Fewer levels deep than asked for, two columns being one level. */
  predicate LevelShown(depth: Option<nat>, columns: int) {
    depth.Some? ==> columns / 2 < depth.value
  }

  /** The level is taken from the reference's own indent, or from the bullet, if there is one. */
  predicate ShownAlone(c: Classifier, o: Options, refs: seq<Text>, line: Text) {
    RoleShown(c, o, refs, line) &&
    if o.filter == Interactive then c.semantic(line).Some? && LevelShown(o.depth, c.semantic(line).value.indent)
    else c.bullet(line).None? || LevelShown(o.depth, c.bullet(line).value)
  }

  /** Does line `j` end the part below an anchor with this indent? */
  predicate Closes(c: Classifier, indent: nat, line: Text) {
    match c.bullet(line) case Some(n) => n <= indent case None => false
  }

  /** Line `i` belongs to the anchor at `a`: it is the anchor, or comes before the part below it ends. */
  predicate ShownBelow(c: Classifier, o: Options, refs: seq<Text>, lines: seq<Text>, a: nat, indent: nat, i: nat)
    requires i < |lines|
  {
    a <= i && RoleShown(c, o, refs, lines[i]) &&
    (i > a ==> (forall j :: a < j <= i ==> !Closes(c, indent, lines[j])) &&
               LevelShown(o.depth, (match c.bullet(lines[i]) case Some(n) => n case None => 0) - indent))
  }

  /** The selection without a reference, line by line and for any text whatsoever. */
  lemma SelectedByLine(c: Classifier, o: Options, refs: seq<Text>, lines: seq<Text>)
    requires o.refId == []
    ensures Selected(c, o, refs, lines) == Ok(Pick(lines, 0, i => 0 <= i < |lines| && ShownAlone(c, o, refs, lines[i])))
  {
    ChosenIsPick(c, o, refs, lines, 0);
    assert lines[0..] == lines;
  }

  /** The selection below the first line with the reference, likewise. */
  lemma SelectedBelowAnchor(c: Classifier, o: Options, refs: seq<Text>, lines: seq<Text>, a: nat)
    requires a < |lines| && o.refId != [] && HasRef(c, lines[a], o.refId) && forall j :: 0 <= j < a ==> !HasRef(c, lines[j], o.refId)
    ensures Selected(c, o, refs, lines) ==
            Ok(Pick(lines, a, i => 0 <= i < |lines| && ShownBelow(c, o, refs, lines, a, c.semantic(lines[a]).value.indent, i)))
  {
    FirstIff(c, lines, o.refId);
    assert lines[a] in lines;
    assert FirstWithRef(c, lines, o.refId) == Some(a);
    BelowIsPick(c, o, refs, lines, a, c.semantic(lines[a]).value.indent, a + 1);
  }

  lemma {:induction false} ChosenIsPick(c: Classifier, o: Options, refs: seq<Text>, lines: seq<Text>, i: nat)
    requires i <= |lines|
    ensures Chosen(lines[i..], LineTest(c, o, refs)) == Pick(lines, i, i => 0 <= i < |lines| && ShownAlone(c, o, refs, lines[i]))
    decreases |lines| - i
  {
    if i < |lines| {
      ChosenIsPick(c, o, refs, lines, i + 1);
      assert lines[i..][1..] == lines[i + 1..];
      assert KeepsLine(c, o, refs, lines[i]) <==> ShownAlone(c, o, refs, lines[i]);
    }
  }

  lemma {:induction false} BelowIsPick(c: Classifier, o: Options, refs: seq<Text>, lines: seq<Text>, a: nat, indent: nat, i: nat)
    requires a < i <= |lines| && forall j :: a < j < i ==> !Closes(c, indent, lines[j])
    ensures BelowAnchor(c, o, refs, indent, lines[i..]) ==
            Pick(lines, i, i => 0 <= i < |lines| && ShownBelow(c, o, refs, lines, a, indent, i))
    decreases |lines| - i
  {
    if i < |lines| {
      BelowStep(c, o, refs, indent, lines, i);
      if Closes(c, indent, lines[i]) {
        NothingAfter(lines, i, i => 0 <= i < |lines| && ShownBelow(c, o, refs, lines, a, indent, i));
      } else {
        BelowIsPick(c, o, refs, lines, a, indent, i + 1);
        assert ShownBelow(c, o, refs, lines, a, indent, i) <==>
               RoleShown(c, o, refs, lines[i]) && LevelShown(o.depth, Indent(c.bullet(lines[i])) - indent);
      }
    }
  }

  lemma {:induction false} NothingAfter(lines: seq<Text>, i: nat, shown: nat -> bool)
    requires i <= |lines| && forall k :: i <= k < |lines| ==> !shown(k)
    ensures Pick(lines, i, shown) == []
    decreases |lines| - i
  {
    if i < |lines| {
      NothingAfter(lines, i + 1, shown);
    }
  }

  // ---------------------------------------------------------------- what the size cut guarantees

  /**
   The result never exceeds the limit. It is the longest prefix of whole lines that fits, or exactly
   `max` characters of the first line when that line alone does not fit.
   */
  lemma CutIsLongestPrefix(lines: seq<Text>, max: nat)
    requires |Joined(lines)| > max
    ensures |CutText(lines, max)| <= max
    ensures |lines[0]| <= max ==>
              exists k :: 0 < k < |lines| && CutText(lines, max) == Joined(lines[..k]) &&
                          forall j :: k < j <= |lines| ==> |Joined(lines[..j])| > max
    ensures |lines[0]| > max ==> CutText(lines, max) == lines[0][..max]
  {
    var k := LongestFit(lines, max, |lines|);
    assert lines[..|lines|] == lines;
    assert lines[..1] == [lines[0]];
    if k > 0 {
      JoinedGrows(lines, 1, k);
    }
  }

  lemma {:induction false} JoinedPrefix(lines: seq<Text>, k: nat)
    requires k <= |lines|
    ensures Joined(lines[..k]) <= Joined(lines)
  {
    if k == |lines| {
      assert lines[..k] == lines;
    } else if k > 0 {
      JoinedPrefix(lines[1..], k - 1);
      assert lines[..k][0] == lines[0] && lines[..k][1..] == lines[1..][..k - 1];
    }
  }

  lemma CutIsPrefix(lines: seq<Text>, max: nat)
    requires |Joined(lines)| > max
    ensures CutText(lines, max) <= Joined(lines) && |CutText(lines, max)| <= max
  {
    CutIsLongestPrefix(lines, max);
    var k := LongestFit(lines, max, |lines|);
    JoinedPrefix(lines, k);
    JoinedPrefix(lines, 1);
    assert lines[..1] == [lines[0]];
  }

  lemma {:induction false} ChosenAll(lines: seq<Text>, keep: Text -> bool)
    requires forall line :: line in lines ==> keep(line)
    ensures Chosen(lines, keep) == lines
  {
    if lines != [] {
      assert lines[0] in lines;
      ChosenAll(lines[1..], keep);
      assert lines == [lines[0]] + lines[1..];
    }
  }

  /**
   A size cap only shortens: the capped view is a prefix of the uncapped one and at most `max` long,
   `truncated` is newly raised exactly when the two differ, the refs are never touched, and a full
   state carries the capped text.
   */
  lemma CapOnlyShortens(c: Classifier, snapshot: Snapshot, o: Options, max: nat)
    requires o.maxChars.None? && Projected(c, snapshot, o).Ok?
    ensures Projected(c, snapshot, o.(maxChars := Some(max))).Ok?
    ensures var full, capped := Projected(c, snapshot, o).value, Projected(c, snapshot, o.(maxChars := Some(max))).value;
            && capped.content <= full.content && |capped.content| <= max
            && (capped.truncated <==> snapshot.truncated || capped.content != full.content)
            && full.truncated == snapshot.truncated && capped.refs == full.refs == snapshot.refs
            && (snapshot.content != [] && snapshot.state.Full? ==> capped.state == Full(capped.content))
            && (!snapshot.state.Full? ==> capped.state == full.state == snapshot.state)
  {
    if snapshot.content == [] {
      return;
    }
    var o' := o.(maxChars := Some(max));
    var text := SplitOn(snapshot.content, NEWLINE);
    assert Selected(c, o, snapshot.refs, text) == Selected(c, o', snapshot.refs, text) by {
      SelectedIgnoresCap(c, o, snapshot.refs, text, max);
    }
    if o.filter.NoFilter? && o.depth.None? && o.refId == [] {
      ChosenAll(text, LineTest(c, o, snapshot.refs));
      JoinOfSplit(snapshot.content, NEWLINE);
    }
    var lines := Selected(c, o, snapshot.refs, text).value;
    if |Joined(lines)| > max {
      CutIsPrefix(lines, max);
    }
  }

  lemma SelectedIgnoresCap(c: Classifier, o: Options, refs: seq<Text>, lines: seq<Text>, max: nat)
    ensures Selected(c, o, refs, lines) == Selected(c, o.(maxChars := Some(max)), refs, lines)
  {
    var o' := o.(maxChars := Some(max));
    ChosenSame(lines, LineTest(c, o, refs), LineTest(c, o', refs));
    if o.refId != [] && FirstWithRef(c, lines, o.refId).Some? {
      var anchor := FirstWithRef(c, lines, o.refId).value;
      BelowSame(c, o, o', refs, c.semantic(lines[anchor]).value.indent, lines[anchor + 1..]);
    }
  }

  lemma {:induction false} ChosenSame(lines: seq<Text>, f: Text -> bool, g: Text -> bool)
    requires forall line :: f(line) == g(line)
    ensures Chosen(lines, f) == Chosen(lines, g)
  {
    if lines != [] {
      ChosenSame(lines[1..], f, g);
    }
  }

  lemma {:induction false} BelowSame(c: Classifier, o: Options, o': Options, refs: seq<Text>, anchorIndent: nat, lines: seq<Text>)
    requires o.filter == o'.filter && o.depth == o'.depth
    ensures BelowAnchor(c, o, refs, anchorIndent, lines) == BelowAnchor(c, o', refs, anchorIndent, lines)
  {
    if lines != [] {
      BelowSame(c, o, o', refs, anchorIndent, lines[1..]);
    }
  }

  /** The lines of `a` are lines of `b`, in the same order. */
  predicate Subsequence(a: seq<Text>, b: seq<Text>) {
    a == [] || (b != [] && ((a[0] == b[0] && Subsequence(a[1..], b[1..])) || Subsequence(a, b[1..])))
  }

  lemma {:induction false} SkipLines(a: seq<Text>, pre: seq<Text>, b: seq<Text>)
    requires Subsequence(a, b)
    ensures Subsequence(a, pre + b)
  {
    if pre == [] {
      assert pre + b == b;
    } else {
      assert (pre + b)[1..] == pre[1..] + b;
      SkipLines(a, pre[1..], b);
    }
  }

  lemma {:induction false} ChosenInOrder(lines: seq<Text>, keep: Text -> bool)
    ensures Subsequence(Chosen(lines, keep), lines)
  {
    if lines != [] {
      ChosenInOrder(lines[1..], keep);
      var rest := Chosen(lines[1..], keep);
      if keep(lines[0]) {
        assert ([lines[0]] + rest)[1..] == rest;
      } else {
        assert [] + rest == rest;
      }
    }
  }

  lemma {:induction false} BelowInOrder(c: Classifier, o: Options, refs: seq<Text>, anchorIndent: nat, lines: seq<Text>)
    ensures Subsequence(BelowAnchor(c, o, refs, anchorIndent, lines), lines)
  {
    if lines != [] {
      BelowInOrder(c, o, refs, anchorIndent, lines[1..]);
      var rest := BelowAnchor(c, o, refs, anchorIndent, lines[1..]);
      assert ([lines[0]] + rest)[1..] == rest;
    }
  }

  /** Whatever the options, the selected lines are lines of the snapshot in their order. */
  lemma SelectedInOrder(c: Classifier, o: Options, refs: seq<Text>, lines: seq<Text>)
    requires Selected(c, o, refs, lines).Ok?
    ensures Subsequence(Selected(c, o, refs, lines).value, lines)
  {
    if o.refId == [] {
      ChosenInOrder(lines, LineTest(c, o, refs));
    } else {
      var anchor := FirstWithRef(c, lines, o.refId).value;
      var below := BelowAnchor(c, o, refs, c.semantic(lines[anchor]).value.indent, lines[anchor + 1..]);
      BelowInOrder(c, o, refs, c.semantic(lines[anchor]).value.indent, lines[anchor + 1..]);
      var tail := [lines[anchor]] + lines[anchor + 1..];
      assert tail[1..] == lines[anchor + 1..];
      var head := if Passes(c, o, refs, lines[anchor]) then [lines[anchor]] else [];
      assert head == [lines[anchor]] ==> (head + below)[1..] == below;
      assert head == [] ==> head + below == below;
      SkipLines(head + below, lines[..anchor], tail);
      assert lines[..anchor] + tail == lines;
    }
  }

  lemma {:induction false} PrefixInOrder(a: seq<Text>, b: seq<Text>, k: nat)
    requires Subsequence(a, b) && k <= |a|
    ensures Subsequence(a[..k], b) && forall line :: line in a ==> line in b
    decreases |b|
  {
    if a != [] {
      if a[0] == b[0] && Subsequence(a[1..], b[1..]) {
        PrefixInOrder(a[1..], b[1..], if k > 0 then k - 1 else 0);
        assert k > 0 ==> a[..k][0] == a[0] && a[..k][1..] == a[1..][..k - 1];
        assert a == [a[0]] + a[1..] && b == [b[0]] + b[1..];
      } else {
        PrefixInOrder(a, b[1..], k);
      }
    }
  }

  /**
   Everything selected is shown if it fits. When something was selected and its first line fits, the lines of the result are the first of the
   selected lines, and so lines of the snapshot in their order; when nothing was, the result is empty.
   */
  lemma OutputInOrder(c: Classifier, snapshot: Snapshot, o: Options)
    requires snapshot.content != [] && Projected(c, snapshot, o).Ok?
    ensures var text := SplitOn(snapshot.content, NEWLINE);
            var selected, output := Selected(c, o, snapshot.refs, text), Projected(c, snapshot, o).value.content;
            && selected.Ok? && (selected.value == [] ==> output == [])
            && ((o.maxChars.Some? ==> |Joined(selected.value)| <= o.maxChars.value) ==> output == Joined(selected.value))
            && (selected.value != [] && (o.maxChars.Some? ==> |selected.value[0]| <= o.maxChars.value) ==>
                  SplitOn(output, NEWLINE) <= selected.value && Subsequence(SplitOn(output, NEWLINE), text))
  {
    var text := SplitOn(snapshot.content, NEWLINE);
    JoinOfSplit(snapshot.content, NEWLINE);
    if o.filter.NoFilter? && o.depth.None? && o.refId == [] {
      ChosenAll(text, LineTest(c, o, snapshot.refs));
    }
    SelectedInOrder(c, o, snapshot.refs, text);
    var lines, output := Selected(c, o, snapshot.refs, text).value, Projected(c, snapshot, o).value.content;
    if lines != [] && (o.maxChars.Some? ==> |lines[0]| <= o.maxChars.value) {
      var k := WholeLines(lines, o, output);
      PrefixInOrder(lines, text, k);
      forall line | line in lines[..k] ensures NEWLINE !in line {
        SplitHasNoSeparator(snapshot.content, NEWLINE, line);
      }
      SplitOfJoin(lines[..k], NEWLINE);
    }
  }

  /** What else a projection touches: the mark for a cut, and the text carried by a full state. */
  lemma OnlyContentChanges(c: Classifier, snapshot: Snapshot, o: Options)
    requires snapshot.content != [] && Projected(c, snapshot, o).Ok? && o != Options(NoFilter, None, [], None)
    ensures var selected := Selected(c, o, snapshot.refs, SplitOn(snapshot.content, NEWLINE));
            var p := Projected(c, snapshot, o).value;
            && p.refs == snapshot.refs
            && (p.truncated <==> snapshot.truncated || (o.maxChars.Some? && selected.Ok? && |Joined(selected.value)| > o.maxChars.value))
            && p.state == if snapshot.state.Full? then Full(p.content) else snapshot.state
  {
  }

  lemma WholeLines(lines: seq<Text>, o: Options, output: Text) returns (k: nat)
    requires lines != [] && (o.maxChars.Some? ==> |lines[0]| <= o.maxChars.value)
    requires output == if o.maxChars.Some? && |Joined(lines)| > o.maxChars.value then CutText(lines, o.maxChars.value) else Joined(lines)
    ensures 0 < k <= |lines| && output == Joined(lines[..k])
  {
    k := |lines|;
    assert lines[..k] == lines;
    if o.maxChars.Some? && |Joined(lines)| > o.maxChars.value {
      CutIsLongestPrefix(lines, o.maxChars.value);
      k :| 0 < k < |lines| && CutText(lines, o.maxChars.value) == Joined(lines[..k]);
    }
  }

  // ---------------------------------------------------------------- the tree behind the text

  /** An accessibility node: its line, what that line says, and its children. */
  datatype Node = Node(line: Text, role: Text, ref: Option<Text>, kids: seq<Node>)

  /** The lines of a forest, one per node, in preorder. */
  function Lines(forest: seq<Node>): seq<Text> {
    if forest == [] then []
    else [forest[0].line] + Lines(forest[0].kids) + Lines(forest[1..])
  }

  /** Every line is one line of text and is read as its node, two spaces of indent per level. */
  ghost predicate Rendered(c: Classifier, forest: seq<Node>, level: nat) {
    forall n :: n in forest ==> RenderedNode(c, n, level)
  }

  ghost predicate RenderedNode(c: Classifier, n: Node, level: nat) {
    && n.line != [] && NEWLINE !in n.line && c.bullet(n.line) == Some(2 * level)
    && c.semantic(n.line) == (if n.ref.Some? then Some(Semantic(2 * level, n.role, n.ref.value)) else None)
    && forall k :: k in n.kids ==> RenderedNode(c, k, level + 1)
  }

  /** The first node in preorder with this reference. */
  function Find(forest: seq<Node>, ref: Text): Option<Node> {
    if forest == [] then None
    else if forest[0].ref == Some(ref) then Some(forest[0])
    else
      match Find(forest[0].kids, ref)
      case Some(n) => Some(n)
      case None => Find(forest[1..], ref)
  }

  function Shallower(depth: Option<nat>, levels: nat): Option<nat> {
    match depth
    case None => None
    case Some(d) => Some(if d < levels then 0 else d - levels)
  }

  /** The forest cut to `depth` levels, in preorder, showing only the nodes to keep. */
  function View(forest: seq<Node>, depth: Option<nat>, keep: Node -> bool): seq<Text> {
    if forest == [] || depth == Some(0) then []
    else
      (if keep(forest[0]) then [forest[0].line] else []) + View(forest[0].kids, Shallower(depth, 1), keep) +
      View(forest[1..], depth, keep)
  }

  predicate KeepsNode(c: Classifier, o: Options, refs: seq<Text>, n: Node) {
    o.filter.Interactive? ==> n.ref.Some? && n.ref.value in refs && c.interactive(n.role)
  }

  function NodeTest(c: Classifier, o: Options, refs: seq<Text>): Node -> bool {
    n => KeepsNode(c, o, refs, n)
  }

  lemma {:induction false} ChosenConcat(a: seq<Text>, b: seq<Text>, keep: Text -> bool)
    ensures Chosen(a + b, keep) == Chosen(a, keep) + Chosen(b, keep)
  {
    if a == [] {
      assert a + b == b;
    } else {
      assert (a + b)[0] == a[0] && (a + b)[1..] == a[1..] + b;
      ChosenConcat(a[1..], b, keep);
    }
  }

  lemma RenderedParts(c: Classifier, forest: seq<Node>, level: nat)
    requires forest != [] && Rendered(c, forest, level)
    ensures RenderedNode(c, forest[0], level) && Rendered(c, forest[0].kids, level + 1) && Rendered(c, forest[1..], level)
  {
    assert forest[0] in forest;
  }

  lemma DeeperLevel(depth: Option<nat>, level: nat)
    ensures Shallower(depth, level) == Some(0) ==> Shallower(depth, level + 1) == Some(0)
    ensures Shallower(depth, level) != Some(0) ==> Shallower(Shallower(depth, level), 1) == Shallower(depth, level + 1)
  {
  }

  /** Filtering the lines of a forest is cutting and filtering the forest. */
  lemma {:induction false} ChosenForest(c: Classifier, o: Options, refs: seq<Text>, forest: seq<Node>, level: nat)
    requires Rendered(c, forest, level)
    ensures Chosen(Lines(forest), LineTest(c, o, refs)) == View(forest, Shallower(o.depth, level), NodeTest(c, o, refs))
    decreases forest
  {
    if forest != [] {
      RenderedParts(c, forest, level);
      var n, rest := forest[0], forest[1..];
      ChosenForest(c, o, refs, n.kids, level + 1);
      ChosenForest(c, o, refs, rest, level);
      ChosenConcat([n.line] + Lines(n.kids), Lines(rest), LineTest(c, o, refs));
      ChosenConcat([n.line], Lines(n.kids), LineTest(c, o, refs));
      ChosenOne(n.line, LineTest(c, o, refs));
      DeeperLevel(o.depth, level);
    }
  }

  lemma ChosenOne(line: Text, keep: Text -> bool)
    ensures Chosen([line], keep) == if keep(line) then [line] else []
  {
    assert [line][1..] == [];
  }

  lemma Regroup<T>(a: seq<T>, b: seq<T>, c: seq<T>, d: seq<T>)
    ensures a + (b + (c + d)) == (a + b + c) + d == a + b + (c + d)
  {
  }

  /** The scan below an anchor passes through a deeper forest, showing its view, and goes on. */
  lemma {:induction false} BelowForest(c: Classifier, o: Options, refs: seq<Text>, anchorLevel: nat,
                                       forest: seq<Node>, level: nat, post: seq<Text>)
    requires Rendered(c, forest, level) && level > anchorLevel
    ensures BelowAnchor(c, o, refs, 2 * anchorLevel, Lines(forest) + post) ==
            View(forest, Shallower(o.depth, level - anchorLevel), NodeTest(c, o, refs)) +
            BelowAnchor(c, o, refs, 2 * anchorLevel, post)
    decreases forest
  {
    var below := lines => BelowAnchor(c, o, refs, 2 * anchorLevel, lines);
    var depth := Shallower(o.depth, level - anchorLevel);
    if forest == [] {
      assert Lines(forest) + post == post;
    } else {
      RenderedParts(c, forest, level);
      var n, rest := forest[0], forest[1..];
      var head := if KeepsNode(c, o, refs, n) && depth != Some(0) then [n.line] else [];
      var kids := View(n.kids, Shallower(o.depth, level + 1 - anchorLevel), NodeTest(c, o, refs));
      var others := View(rest, depth, NodeTest(c, o, refs));
      calc {
        below(Lines(forest) + post);
        { Regroup([n.line], Lines(n.kids), Lines(rest), post); }
        below([n.line] + (Lines(n.kids) + (Lines(rest) + post)));
        { BelowLine(c, o, refs, anchorLevel, n, level, Lines(n.kids) + (Lines(rest) + post)); }
        head + below(Lines(n.kids) + (Lines(rest) + post));
        { BelowForest(c, o, refs, anchorLevel, n.kids, level + 1, Lines(rest) + post); }
        head + (kids + below(Lines(rest) + post));
        { BelowForest(c, o, refs, anchorLevel, rest, level, post); }
        head + (kids + (others + below(post)));
        { Regroup(head, kids, others, below(post)); }
        head + kids + others + below(post);
        { DeeperLevel(o.depth, level - anchorLevel); }
        View(forest, depth, NodeTest(c, o, refs)) + below(post);
      }
    }
  }

  lemma BelowLine(c: Classifier, o: Options, refs: seq<Text>, anchorLevel: nat, n: Node, level: nat, after: seq<Text>)
    requires RenderedNode(c, n, level) && level > anchorLevel
    ensures BelowAnchor(c, o, refs, 2 * anchorLevel, [n.line] + after) ==
            (if KeepsNode(c, o, refs, n) && Shallower(o.depth, level - anchorLevel) != Some(0) then [n.line] else []) +
            BelowAnchor(c, o, refs, 2 * anchorLevel, after)
  {
    var lines := [n.line] + after;
    assert lines[0] == n.line && lines[1..] == after;
    assert (2 * level - 2 * anchorLevel) / 2 == level - anchorLevel;
  }

  /** The lines of `n` and its subtree stand between `pre` and `post`, `n` being the first with `ref`. */
  ghost predicate StandsBetween(c: Classifier, lines: seq<Text>, n: Node, ref: Text, level: nat, pre: seq<Text>, post: seq<Text>) {
    && n.ref == Some(ref) && RenderedNode(c, n, level)
    && lines == pre + ([n.line] + Lines(n.kids)) + post
    && (forall line :: line in pre ==> !HasRef(c, line, ref))
    && (post != [] ==> c.bullet(post[0]).Some? && c.bullet(post[0]).value <= 2 * level)
  }

  /** Where the first node with a reference stands among the lines. */
  lemma {:induction false} Locate(c: Classifier, forest: seq<Node>, level: nat, ref: Text)
    returns (pre: seq<Text>, found: nat, post: seq<Text>)
    requires Rendered(c, forest, level) && Find(forest, ref).Some?
    ensures found >= level && StandsBetween(c, Lines(forest), Find(forest, ref).value, ref, found, pre, post)
    decreases forest
  {
    RenderedParts(c, forest, level);
    var n, rest := forest[0], forest[1..];
    FirstLine(c, rest, level);
    if n.ref == Some(ref) {
      pre, found, post := [], level, Lines(rest);
      Here(c, n, ref, level, Lines(rest));
    } else if Find(n.kids, ref).Some? {
      pre, found, post := Locate(c, n.kids, level + 1, ref);
      Widen(c, [n.line], Lines(n.kids), Lines(rest), Find(n.kids, ref).value, ref, found, pre, post);
      pre, post := [n.line] + pre, post + Lines(rest);
    } else {
      NotFound(c, n.kids, level + 1, ref);
      pre, found, post := Locate(c, rest, level, ref);
      Widen(c, [n.line] + Lines(n.kids), Lines(rest), [], Find(rest, ref).value, ref, found, pre, post);
      pre := [n.line] + Lines(n.kids) + pre;
    }
  }

  lemma Here(c: Classifier, n: Node, ref: Text, level: nat, after: seq<Text>)
    requires n.ref == Some(ref) && RenderedNode(c, n, level)
    requires after != [] ==> c.bullet(after[0]).Some? && c.bullet(after[0]).value <= 2 * level
    ensures StandsBetween(c, [n.line] + Lines(n.kids) + after, n, ref, level, [], after)
  {
    var mid := [n.line] + Lines(n.kids);
    assert mid + after == [] + mid + after;
  }

  /** Lines without the reference before, and shallower ones after, do not disturb the place. */
  lemma Widen(c: Classifier, before: seq<Text>, lines: seq<Text>, after: seq<Text>, n: Node, ref: Text, level: nat,
              pre: seq<Text>, post: seq<Text>)
    requires StandsBetween(c, lines, n, ref, level, pre, post)
    requires forall line :: line in before ==> !HasRef(c, line, ref)
    requires after != [] ==> c.bullet(after[0]).Some? && c.bullet(after[0]).value <= 2 * level
    ensures StandsBetween(c, before + lines + after, n, ref, level, before + pre, post + after)
    ensures after == [] ==> StandsBetween(c, before + lines, n, ref, level, before + pre, post)
  {
    var mid := [n.line] + Lines(n.kids);
    assert before + (pre + mid + post) + after == (before + pre) + mid + (post + after);
    assert before + (pre + mid + post) == (before + pre) + mid + post;
  }

  lemma FirstLine(c: Classifier, forest: seq<Node>, level: nat)
    requires Rendered(c, forest, level)
    ensures Lines(forest) != [] ==> c.bullet(Lines(forest)[0]) == Some(2 * level)
  {
    if forest != [] {
      RenderedParts(c, forest, level);
    }
  }

  lemma {:induction false} NotFound(c: Classifier, forest: seq<Node>, level: nat, ref: Text)
    requires Rendered(c, forest, level) && Find(forest, ref).None?
    ensures forall line :: line in Lines(forest) ==> !HasRef(c, line, ref)
    decreases forest
  {
    if forest != [] {
      RenderedParts(c, forest, level);
      NotFound(c, forest[0].kids, level + 1, ref);
      NotFound(c, forest[1..], level, ref);
    }
  }

  lemma {:induction false} FirstWithRefAfter(c: Classifier, pre: seq<Text>, rest: seq<Text>, ref: Text)
    requires forall line :: line in pre ==> !HasRef(c, line, ref)
    requires rest != [] ==> HasRef(c, rest[0], ref)
    ensures FirstWithRef(c, pre + rest, ref) == if rest == [] then None else Some(|pre|)
  {
    if pre == [] {
      assert pre + rest == rest;
    } else {
      assert (pre + rest)[0] == pre[0] && (pre + rest)[1..] == pre[1..] + rest;
      assert pre[0] in pre;
      FirstWithRefAfter(c, pre[1..], rest, ref);
    }
  }

  /** What the tree says should be selected; the anchor itself is shown at any depth. */
  function TreeView(c: Classifier, o: Options, refs: seq<Text>, forest: seq<Node>): Result<seq<Text>> {
    if o.refId == [] then Ok(View(forest, o.depth, NodeTest(c, o, refs)))
    else
      match Find(forest, o.refId)
      case None => Err
      case Some(n) => Ok(View([n], if o.depth == Some(0) then Some(1) else o.depth, NodeTest(c, o, refs)))
  }

  lemma SelectedIsTreeView(c: Classifier, o: Options, refs: seq<Text>, forest: seq<Node>)
    requires Rendered(c, forest, 0)
    ensures Selected(c, o, refs, Lines(forest)) == TreeView(c, o, refs, forest)
  {
    if o.refId == [] {
      ChosenForest(c, o, refs, forest, 0);
      assert Shallower(o.depth, 0) == o.depth;
    } else if Find(forest, o.refId).None? {
      NotFound(c, forest, 0, o.refId);
      FirstWithRefAfter(c, Lines(forest), [], o.refId);
      assert Lines(forest) + [] == Lines(forest);
    } else {
      var pre, found, post := Locate(c, forest, 0, o.refId);
      AnchoredView(c, o, refs, Lines(forest), Find(forest, o.refId).value, found, pre, post);
    }
  }

  lemma AnchoredView(c: Classifier, o: Options, refs: seq<Text>, lines: seq<Text>, n: Node, level: nat,
                     pre: seq<Text>, post: seq<Text>)
    requires o.refId != [] && StandsBetween(c, lines, n, o.refId, level, pre, post)
    ensures Selected(c, o, refs, lines) == Ok(View([n], if o.depth == Some(0) then Some(1) else o.depth, NodeTest(c, o, refs)))
  {
    AnchorAt(c, lines, n, o.refId, level, pre, post);
    BelowSubtree(c, o, refs, n, level, post);
    ViewOne(n, if o.depth == Some(0) then Some(1) else o.depth, NodeTest(c, o, refs));
  }

  lemma AnchorAt(c: Classifier, lines: seq<Text>, n: Node, ref: Text, level: nat, pre: seq<Text>, post: seq<Text>)
    requires StandsBetween(c, lines, n, ref, level, pre, post)
    ensures FirstWithRef(c, lines, ref) == Some(|pre|)
    ensures |pre| < |lines| && lines[|pre|] == n.line && lines[|pre| + 1..] == Lines(n.kids) + post
  {
    var rest := [n.line] + (Lines(n.kids) + post);
    assert lines == pre + rest;
    FirstWithRefAfter(c, pre, rest, ref);
  }

  lemma BelowSubtree(c: Classifier, o: Options, refs: seq<Text>, n: Node, level: nat, post: seq<Text>)
    requires RenderedNode(c, n, level)
    requires post != [] ==> c.bullet(post[0]).Some? && c.bullet(post[0]).value <= 2 * level
    ensures BelowAnchor(c, o, refs, 2 * level, Lines(n.kids) + post) == View(n.kids, Shallower(o.depth, 1), NodeTest(c, o, refs))
  {
    BelowForest(c, o, refs, level, n.kids, level + 1, post);
    assert BelowAnchor(c, o, refs, 2 * level, post) == [];
    var kids := View(n.kids, Shallower(o.depth, 1), NodeTest(c, o, refs));
    assert kids + [] == kids;
  }

  lemma ViewOne(n: Node, depth: Option<nat>, keep: Node -> bool)
    requires depth != Some(0)
    ensures View([n], depth, keep) == (if keep(n) then [n.line] else []) + View(n.kids, Shallower(depth, 1), keep)
  {
    assert [n][1..] == [];
  }

  lemma {:induction false} LinesAreLines(c: Classifier, forest: seq<Node>, level: nat)
    requires Rendered(c, forest, level)
    ensures forall line :: line in Lines(forest) ==> line != [] && NEWLINE !in line
    decreases forest
  {
    if forest != [] {
      RenderedParts(c, forest, level);
      LinesAreLines(c, forest[0].kids, level + 1);
      LinesAreLines(c, forest[1..], level);
    }
  }

  /**
   Projection commutes with the tree: on a rendered forest, every non-empty set of options without
   a size cap gives exactly the rendered view of the selected, cut and filtered subtree.
   */
  lemma ProjectionOfTree(c: Classifier, snapshot: Snapshot, o: Options, forest: seq<Node>)
    requires forest != [] && Rendered(c, forest, 0) && snapshot.content == Joined(Lines(forest))
    requires o.maxChars.None? && !(o.filter.NoFilter? && o.depth.None? && o.refId == [])
    requires o.refId == [] || o.refId in snapshot.refs
    ensures Projected(c, snapshot, o) ==
            match TreeView(c, o, snapshot.refs, forest)
            case Err => Err
            case Ok(lines) =>
              Ok(snapshot.(content := Joined(lines), state := if snapshot.state.Full? then Full(Joined(lines)) else snapshot.state))
  {
    var lines := Lines(forest);
    LinesAreLines(c, forest, 0);
    SplitOfJoin(lines, NEWLINE);
    assert lines[0] in lines && |JoinWith(lines, NEWLINE)| >= |lines[0]| > 0;
    SelectedIsTreeView(c, o, snapshot.refs, forest);
  }
}
