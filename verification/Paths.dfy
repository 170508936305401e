/** Path keys and "is under this root", for the write policy. */
module PathKeys {
  import opened Texts

  const SLASH: CodeUnit := 0x2F
  const BACKSLASH: CodeUnit := 0x5C

  /** `replace(/\\/g, "/")`. */
  function Slashed(t: Text): (r: Text)
    ensures |r| == |t| && BACKSLASH !in r
    ensures forall i :: 0 <= i < |t| ==> r[i] == if t[i] == 0x5C then 0x2F else t[i]
  {
    seq(|t|, i requires 0 <= i < |t| => if t[i] == BACKSLASH then SLASH else t[i])
  }

  predicate EndsInSlash(t: Text) {
    t != [] && t[|t| - 1] == SLASH
  }

  /** `replace(/\/+$/, "")`. */
  function WithoutTrailing(t: Text): (r: Text)
    ensures !EndsInSlash(r) && r <= t && forall i :: |r| <= i < |t| ==> t[i] == 0x2F
  {
    if EndsInSlash(t) then WithoutTrailing(t[..|t| - 1]) else t
  }

  /** The key of a path; `lower` is `toLowerCase` on Windows and the identity elsewhere. */
  function Key(lower: Text -> Text, path: Text): Text {
    lower(WithoutTrailing(Slashed(path)))
  }

  predicate IsUnderConfiguredRoot(lower: Text -> Text, path: Text, root: Text) {
    var p, r := Key(lower, path), Key(lower, root);
    p == r || r + [SLASH] <= p
  }

  function Segments(key: Text): seq<Text> {
    SplitOn(key, SLASH)
  }

  lemma {:induction false} JoinConcat(a: seq<Text>, b: seq<Text>, sep: CodeUnit)
    requires a != [] && b != []
    ensures JoinWith(a + b, sep) == JoinWith(a, sep) + [sep] + JoinWith(b, sep)
  {
    assert (a + b)[0] == a[0] && (a + b)[1..] == a[1..] + b;
    if |a| == 1 {
      assert a[1..] + b == b;
    } else {
      JoinConcat(a[1..], b, sep);
      assert a[0] + [sep] + (JoinWith(a[1..], sep) + [sep] + JoinWith(b, sep)) ==
             a[0] + [sep] + JoinWith(a[1..], sep) + [sep] + JoinWith(b, sep);
    }
  }

  /** On any two keys, the text test is the prefix test on segments. */
  lemma SegmentsPrefixIff(r: Text, p: Text)
    ensures p == r || r + [SLASH] <= p <==> Segments(r) <= Segments(p)
  {
    if r + [SLASH] <= p {
      var rest := p[|r| + 1..];
      assert p == r + [SLASH] + rest;
      SplitAcross(r, SLASH, rest);
    } else if Segments(r) <= Segments(p) {
      JoinOfSplit(r, SLASH);
      JoinOfSplit(p, SLASH);
      var more := Segments(p)[|Segments(r)|..];
      assert Segments(p) == Segments(r) + more;
      if more != [] {
        JoinConcat(Segments(r), more, SLASH);
        assert p == r + [SLASH] + JoinWith(more, SLASH);
      } else {
        assert Segments(p) == Segments(r);
      }
    }
  }

  /** A path is under a root exactly when the root's key segments are a prefix of the path's. */
  lemma UnderIff(lower: Text -> Text, path: Text, root: Text)
    ensures IsUnderConfiguredRoot(lower, path, root) <==> Segments(Key(lower, root)) <= Segments(Key(lower, path))
  {
    SegmentsPrefixIff(Key(lower, root), Key(lower, path));
  }

  /** "Under" is a partial order on keys. */
  lemma UnderIsPartialOrder(lower: Text -> Text, a: Text, b: Text, c: Text)
    ensures IsUnderConfiguredRoot(lower, a, a)
    ensures IsUnderConfiguredRoot(lower, a, b) && IsUnderConfiguredRoot(lower, b, c) ==> IsUnderConfiguredRoot(lower, a, c)
    ensures IsUnderConfiguredRoot(lower, a, b) && IsUnderConfiguredRoot(lower, b, a) ==> Key(lower, a) == Key(lower, b)
  {
    UnderIff(lower, a, b);
    UnderIff(lower, b, c);
    UnderIff(lower, a, c);
    UnderIff(lower, b, a);
    if Segments(Key(lower, a)) == Segments(Key(lower, b)) {
      JoinOfSplit(Key(lower, a), SLASH);
      JoinOfSplit(Key(lower, b), SLASH);
    }
  }

  /** What is assumed of lower-casing: idempotent, and it neither makes backslashes nor moves slashes to the end. */
  ghost predicate Lowers(lower: Text -> Text) {
    && (forall t :: lower(lower(t)) == lower(t))
    && (forall t :: BACKSLASH !in t && !EndsInSlash(t) ==> BACKSLASH !in lower(t) && !EndsInSlash(lower(t)))
  }

  /** Trailing slashes and the direction of slashes do not matter for the key; nothing else is changed but case. */
  lemma KeyIs(lower: Text -> Text, path: Text)
    ensures Key(lower, path + [0x2F]) == Key(lower, path + [0x5C]) == Key(lower, path)
    ensures Key(lower, Slashed(path)) == Key(lower, path)
    ensures BACKSLASH !in path && !EndsInSlash(path) ==> Key(lower, path) == lower(path)
  {
    assert Slashed(path + [0x2F]) == Slashed(path) + [SLASH] == Slashed(path + [0x5C]);
    assert (Slashed(path) + [SLASH])[..|path|] == Slashed(path);
    assert Slashed(Slashed(path)) == Slashed(path);
    if BACKSLASH !in path {
      assert Slashed(path) == path;
    }
  }

  lemma KeyIdempotent(lower: Text -> Text, path: Text)
    requires Lowers(lower)
    ensures Key(lower, Key(lower, path)) == Key(lower, path)
  {
    var t := WithoutTrailing(Slashed(path));
    assert BACKSLASH !in t by {
      assert forall u :: u in t ==> u in Slashed(path);
    }
    var key := lower(t);
    assert Slashed(key) == key;
    assert WithoutTrailing(key) == key;
  }
}

/** Workspace-relative Git paths: `gitPathSchema` and the list schema over it. */
module GitPaths {
  import opened Common
  import opened Texts
  import opened PathKeys

  const DOT: Text := [0x2E]
  const DOT_DOT: Text := [0x2E, 0x2E]

  function Kept(segments: seq<Text>): (r: seq<Text>)
    ensures |r| <= |segments|
    ensures forall s :: s in r <==> s in segments && s != DOT
  {
    if segments == [] then []
    else (if segments[0] == DOT then [] else [segments[0]]) + Kept(segments[1..])
  }

  /** `normalizeGitPath`: forward slashes, and no `.` segments. */
  function Normalize(path: Text): Text {
    JoinWith(Kept(Segments(Slashed(path))), SLASH)
  }

  /** ASCII letters, and the two other characters that a case-insensitive Unicode `[a-z]` matches. */
  predicate IsDriveLetter(u: CodeUnit) {
    0x41 <= u <= 0x5A || 0x61 <= u <= 0x7A || u == 0x017F || u == 0x212A
  }

  /** `/^\/?[a-z]:\//iu`. */
  predicate HasDrive(t: Text) {
    (|t| >= 3 && IsDriveLetter(t[0]) && t[1] == 0x3A && t[2] == SLASH) ||
    (|t| >= 4 && t[0] == SLASH && IsDriveLetter(t[1]) && t[2] == 0x3A && t[3] == SLASH)
  }

  /** `segment.toLowerCase() === ".git"`. */
  predicate IsGitDirectory(s: Text) {
    |s| == 4 && s[0] == 0x2E && (s[1] == 0x67 || s[1] == 0x47) && (s[2] == 0x69 || s[2] == 0x49) && (s[3] == 0x74 || s[3] == 0x54)
  }

  predicate HasDoubleSlash(t: Text) {
    exists i :: 0 <= i < |t| - 1 && t[i] == SLASH && t[i + 1] == SLASH
  }

  predicate HasControl(t: Text) {
    exists u :: u in t && (u < 0x20 || u == 0x7F)
  }

  /** The checks on the normalised path. */
  predicate Acceptable(t: Text) {
    !(t == [] || t == DOT || t[0] == SLASH || HasDrive(t) || EndsInSlash(t) || HasDoubleSlash(t) ||
      DOT_DOT in Segments(t) || exists s :: s in Segments(t) && IsGitDirectory(s)) && !HasControl(t)
  }

  /** The schema: checks, then the normalised path. */
  function Validate(path: Text): Result<Text> {
    if 1 <= |path| <= 4_096 && Acceptable(Normalize(path)) then Ok(Normalize(path)) else Err
  }

  // ---------------------------------------------------------------- what acceptance means

  predicate SafeSegment(s: Text) {
    s != [] && s != DOT && s != DOT_DOT && !IsGitDirectory(s) && SLASH !in s && BACKSLASH !in s
  }

  /** Lexical resolution, by POSIX rules, below a directory given by its segments. */
  function Resolve(root: seq<Text>, segments: seq<Text>): seq<Text>
    decreases |segments|
  {
    if segments == [] then root
    else
      var s := segments[0];
      Resolve(if s == DOT || s == [] then root
              else if s == DOT_DOT then (if root == [] then [] else root[..|root| - 1])
              else root + [s], segments[1..])
  }

  lemma {:induction false} JoinedLength(parts: seq<Text>)
    ensures |JoinWith(Kept(parts), SLASH)| <= |JoinWith(parts, SLASH)|
  {
    if parts != [] {
      JoinedLength(parts[1..]);
      var rest := Kept(parts[1..]);
      if parts[0] == DOT {
        assert Kept(parts) == rest;
      } else {
        assert Kept(parts) == [parts[0]] + rest && ([parts[0]] + rest)[1..] == rest;
        if rest != [] {
          assert parts[1..] != [];
        }
      }
    }
  }

  lemma {:induction false} KeptIsFixed(segments: seq<Text>)
    requires DOT !in segments
    ensures Kept(segments) == segments
  {
    if segments != [] {
      KeptIsFixed(segments[1..]);
      assert segments == [segments[0]] + segments[1..];
    }
  }

  /** A `.` segment can stand anywhere or be left out. */
  lemma {:induction false} DotsAreDropped(a: seq<Text>, b: seq<Text>)
    ensures Kept(a + [DOT] + b) == Kept(a + b)
  {
    if a == [] {
      assert (a + [DOT] + b)[0] == DOT && (a + [DOT] + b)[1..] == b && a + b == b;
    } else {
      DotsAreDropped(a[1..], b);
      assert (a + [DOT] + b)[0] == a[0] && (a + [DOT] + b)[1..] == a[1..] + [DOT] + b;
      assert (a + b)[0] == a[0] && (a + b)[1..] == a[1..] + b;
    }
  }

  /** The segments of a normalised path are the ones that were kept. */
  lemma NormalizedSegments(path: Text)
    requires Kept(Segments(Slashed(path))) != []
    ensures Segments(Normalize(path)) == Kept(Segments(Slashed(path)))
  {
    var kept := Kept(Segments(Slashed(path)));
    forall s | s in kept ensures SLASH !in s {
      SplitHasNoSeparator(Slashed(path), SLASH, s);
    }
    SplitOfJoin(kept, SLASH);
  }

  lemma {:induction false} PartUnits(t: Text, sep: CodeUnit, part: Text, u: CodeUnit)
    requires part in SplitOn(t, sep) && u in part
    ensures u in t
  {
    if t != [] {
      var rest := SplitOn(t[1..], sep);
      if part in rest {
        PartUnits(t[1..], sep, part, u);
      } else if t[0] != sep && u != t[0] {
        assert part == [t[0]] + rest[0];
        assert u in rest[0] && rest[0] in rest;
        PartUnits(t[1..], sep, rest[0], u);
      }
    }
  }

  lemma {:induction false} JoinUnits(parts: seq<Text>, sep: CodeUnit, u: CodeUnit)
    requires u in JoinWith(parts, sep) && u != sep
    ensures exists part :: part in parts && u in part
  {
    if parts == [] {
    } else if u in parts[0] {
      assert parts[0] in parts;
    } else {
      assert |parts| > 1 && u in JoinWith(parts[1..], sep);
      JoinUnits(parts[1..], sep, u);
      var part :| part in parts[1..] && u in part;
      assert part in parts;
    }
  }

  lemma NormalizedHasNoBackslash(path: Text)
    ensures BACKSLASH !in Normalize(path)
  {
    if BACKSLASH in Normalize(path) {
      JoinUnits(Kept(Segments(Slashed(path))), SLASH, BACKSLASH);
      var part :| part in Kept(Segments(Slashed(path))) && BACKSLASH in part;
      PartUnits(Slashed(path), SLASH, part, BACKSLASH);
    }
  }

  /** An empty segment shows as a slash at either end or two in a row. */
  lemma {:induction false} EmptySegment(t: Text, k: nat)
    requires k < |Segments(t)| && Segments(t)[k] == []
    ensures k == 0 ==> t == [] || t[0] == SLASH
    ensures k > 0 ==> EndsInSlash(t) || HasDoubleSlash(t)
  {
    if t != [] && k > 0 {
      var rest := t[1..];
      var j := if t[0] == SLASH then k - 1 else k;
      assert Segments(t)[k] == Segments(rest)[j];
      EmptySegment(rest, j);
      if rest == [] {
      } else if j == 0 {
        assert t[0] == SLASH && t[1] == SLASH;
      } else if HasDoubleSlash(rest) {
        var i :| 0 <= i < |rest| - 1 && rest[i] == SLASH && rest[i + 1] == SLASH;
        assert t[i + 1] == SLASH && t[i + 1 + 1] == SLASH;
      }
    }
  }

  lemma SlashesMakeEmptySegments(t: Text)
    requires t == [] || t[0] == SLASH || EndsInSlash(t) || HasDoubleSlash(t)
    ensures [] in Segments(t)
  {
    if t == [] || t[0] == SLASH {
      assert Segments(t)[0] == [];
    } else {
      var i := if EndsInSlash(t) then |t| - 1 else var j :| 0 <= j < |t| - 1 && t[j] == SLASH && t[j + 1] == SLASH; j;
      var a, b := t[..i], t[i + 1..];
      assert t == a + [SLASH] + b;
      SplitAcross(a, SLASH, b);
      assert Segments(b)[0] == [];
      assert Segments(t)[|Segments(a)|] == [];
    }
  }

  /** A path without backslashes is acceptable exactly when every segment is safe and it names no drive. */
  lemma AcceptableIff(t: Text)
    requires BACKSLASH !in t && DOT !in Segments(t)
    ensures Acceptable(t) <==> (forall s :: s in Segments(t) ==> SafeSegment(s)) && !HasDrive(t) && !HasControl(t)
  {
    forall s | s in Segments(t) ensures SLASH !in s && BACKSLASH !in s {
      SplitHasNoSeparator(t, SLASH, s);
      if BACKSLASH in s {
        PartUnits(t, SLASH, s, BACKSLASH);
      }
    }
    if t == [] || t[0] == SLASH || EndsInSlash(t) || HasDoubleSlash(t) {
      SlashesMakeEmptySegments(t);
    } else {
      forall s | s in Segments(t) ensures s != [] {
        var k :| 0 <= k < |Segments(t)| && Segments(t)[k] == s;
        if s == [] {
          EmptySegment(t, k);
        }
      }
    }
    if t == DOT {
      SplitWithoutSeparator(t, SLASH);
    }
  }

  /**
   Exactly which paths are accepted: of allowed length, and such that after dropping `.` segments
   something remains, every segment is safe, and there is no drive or control character.
   */
  lemma ValidateIff(path: Text)
    ensures Validate(path).Ok? <==>
            && 1 <= |path| <= 4_096 && Kept(Segments(Slashed(path))) != []
            && (forall s :: s in Segments(Slashed(path)) && s != DOT ==> SafeSegment(s))
            && !HasDrive(Normalize(path)) && !HasControl(Normalize(path))
    ensures Validate(path).Ok? ==> Segments(Validate(path).value) == Kept(Segments(Slashed(path)))
  {
    NormalizedHasNoBackslash(path);
    if Kept(Segments(Slashed(path))) != [] {
      NormalizedSegments(path);
      AcceptableIff(Normalize(path));
    }
  }

  /** `.git` in letters of either case. */
  lemma GitDirectoryIff(s: Text)
    ensures IsGitDirectory(s) <==> |s| == 4 && forall i :: 0 <= i < 4 ==> s[i] == ".git"[i] as int || (i > 0 && s[i] == ".GIT"[i] as int)
  {
    assert IsGitDirectory(s) ==> |s| == 4;
    if |s| == 4 {
      assert ".git"[0] == '.' && ".git"[1] == 'g' && ".git"[2] == 'i' && ".git"[3] == 't';
      assert ".GIT"[1] == 'G' && ".GIT"[2] == 'I' && ".GIT"[3] == 'T';
    }
  }

  /** A segment that may stand in an accepted path. */
  predicate Harmless(s: Text) {
    s != [] && s != [0x2E, 0x2E] && !IsGitDirectory(s) && forall u :: u in s ==> u >= 0x20 && u != 0x7F
  }

  /** The path goes on after a letter and a colon, as after a drive. */
  predicate BeginsWithDrive(segments: seq<Text>) {
    |segments| > 1 && |segments[0]| == 2 && segments[0][1] == 0x3A &&
    (0x41 <= segments[0][0] <= 0x5A || 0x61 <= segments[0][0] <= 0x7A || segments[0][0] == 0x017F || segments[0][0] == 0x212A)
  }

  /** Acceptance in terms of the segments alone. */
  lemma ValidateExactly(path: Text)
    ensures var segments := Kept(Segments(Slashed(path)));
            Validate(path).Ok? <==>
            1 <= |path| <= 4_096 && segments != [] && (forall s :: s in segments ==> Harmless(s)) && !BeginsWithDrive(segments)
  {
    var segments := Kept(Segments(Slashed(path)));
    ValidateIff(path);
    if segments != [] {
      NormalizedSegments(path);
      var t := Normalize(path);
      ControlsAreInSegments(t);
      forall s | s in segments ensures SLASH !in s && BACKSLASH !in s && s != DOT {
        SplitHasNoSeparator(Slashed(path), SLASH, s);
        if BACKSLASH in s {
          PartUnits(Slashed(path), SLASH, s, BACKSLASH);
        }
      }
      assert segments[0] in segments;
      if segments[0] != [] {
        DriveIsFirst(segments);
      }
    }
  }

  lemma ControlsAreInSegments(t: Text)
    ensures HasControl(t) <==> exists s, u :: s in Segments(t) && u in s && (u < 0x20 || u == 0x7F)
  {
    JoinOfSplit(t, SLASH);
    if HasControl(t) {
      var u :| u in t && (u < 0x20 || u == 0x7F);
      JoinUnits(Segments(t), SLASH, u);
    }
    forall s, u | s in Segments(t) && u in s && (u < 0x20 || u == 0x7F) ensures HasControl(t) {
      PartUnits(t, SLASH, s, u);
    }
  }

  lemma DriveIsFirst(segments: seq<Text>)
    requires segments != [] && segments[0] != [] && SLASH !in segments[0]
    ensures HasDrive(JoinWith(segments, SLASH)) <==> BeginsWithDrive(segments)
  {
    var t, first := JoinWith(segments, SLASH), segments[0];
    assert forall i :: 0 <= i < |first| ==> first[i] in first;
    assert forall i :: 0 <= i < |first| ==> t[i] == first[i];
    assert |segments| > 1 ==> t[|first|] == SLASH;
  }

  /** Validation is a projection: an accepted result validates again, unchanged. */
  lemma ValidateIdempotent(path: Text)
    requires Validate(path).Ok?
    ensures Validate(Validate(path).value) == Validate(path)
  {
    var n := Normalize(path);
    ValidateIff(path);
    NormalizedHasNoBackslash(path);
    assert Slashed(n) == n;
    KeptIsFixed(Segments(n));
    JoinOfSplit(n, SLASH);
    JoinedLength(Segments(Slashed(path)));
    JoinOfSplit(Slashed(path), SLASH);
  }

  lemma {:induction false} ResolveSafe(root: seq<Text>, segments: seq<Text>)
    requires forall s :: s in segments ==> SafeSegment(s)
    ensures Resolve(root, segments) == root + segments
    decreases |segments|
  {
    if segments != [] {
      assert segments[0] in segments;
      ResolveSafe(root + [segments[0]], segments[1..]);
      assert root + [segments[0]] + segments[1..] == root + segments;
    }
  }

  /** By POSIX rules, an accepted path stays strictly below whatever root it is resolved against. */
  lemma AcceptedStaysBelow(root: seq<Text>, path: Text)
    requires Validate(path).Ok?
    ensures var r := Resolve(root, Segments(Validate(path).value)); root <= r && |r| > |root|
  {
    ValidateIff(path);
    ResolveSafe(root, Segments(Validate(path).value));
  }

  // ---------------------------------------------------------------- Windows drives

  const COLON: CodeUnit := 0x3A

  /** A directory on a drive, which is an upper-case ASCII letter. */
  datatype Place = Place(drive: CodeUnit, segments: seq<Text>)

  function UpperLetter(u: CodeUnit): CodeUnit {
    if 0x61 <= u <= 0x7A then u - 0x20 else u
  }

  /** Does the segment begin with an ASCII letter and a colon? */
  predicate NamesDrive(s: Text) {
    |s| >= 2 && 0x41 <= UpperLetter(s[0]) <= 0x5A && s[1] == COLON
  }

  /**
   Lexical resolution by Windows rules. A path that begins with a drive but not with a slash is
   relative to the current directory of that drive, which is the root itself if it is on that drive.
   */
  function ResolveOnWindows(current: CodeUnit -> seq<Text>, root: Place, segments: seq<Text>): Place {
    if segments == [] || !NamesDrive(segments[0]) then Place(root.drive, Resolve(root.segments, segments))
    else
      var drive := UpperLetter(segments[0][0]);
      Place(drive, Resolve(if drive == root.drive then root.segments else current(drive), [segments[0][2..]] + segments[1..]))
  }

  predicate StrictlyBelow(root: Place, p: Place) {
    p.drive == root.drive && root.segments <= p.segments && |p.segments| > |root.segments|
  }

  /** The path stays below every root, whatever the current directories are. */
  ghost predicate StaysBelowOnWindows(segments: seq<Text>) {
    forall current, root :: StrictlyBelow(root, ResolveOnWindows(current, root, segments))
  }

  /**
   By Windows rules, an accepted path stays strictly below every root if and only if its first
   segment does not begin with a drive letter and a colon.
   */
  lemma AcceptedStaysBelowOnWindowsIff(path: Text)
    requires Validate(path).Ok?
    ensures StaysBelowOnWindows(Segments(Validate(path).value)) <==> !NamesDrive(Segments(Validate(path).value)[0])
  {
    var segments := Segments(Validate(path).value);
    if NamesDrive(segments[0]) {
      var elsewhere := Place(if UpperLetter(segments[0][0]) == 0x41 then 0x42 else 0x41, []);
      assert !StrictlyBelow(elsewhere, ResolveOnWindows(_ => [], elsewhere, segments));
    } else {
      forall current, root ensures StrictlyBelow(root, ResolveOnWindows(current, root, segments)) {
        AcceptedStaysBelow(root.segments, path);
      }
    }
  }

  /**
   The check for a drive wants a slash after the colon, so `C:x` and `C:..` are accepted, with any
   letter and any name: the first leaves every root on another drive, the second even a root on its own.
   */
  lemma DriveRelativeIsAccepted(letter: CodeUnit, name: Text, current: CodeUnit -> seq<Text>, root: Place)
    requires 0x41 <= UpperLetter(letter) <= 0x5A && |name| <= 4_094
    requires SLASH !in name && BACKSLASH !in name && !HasControl(name)
    ensures var path := [letter, COLON] + name;
            && Validate(path) == Ok(path) && Segments(path) == [path]
            && (root.drive != UpperLetter(letter) || (name == DOT_DOT && root.segments != []) ==>
                  !StrictlyBelow(root, ResolveOnWindows(current, root, [path])))
  {
    var path := [letter, COLON] + name;
    assert path[1] == COLON && forall u :: u in path ==> u == letter || u == COLON || u in name;
    OneSegment(path);
    assert path[2..] == name && [name] + [path][1..] == [name];
    if name == DOT_DOT && root.segments != [] {
      assert Resolve(root.segments, [name]) == Resolve(root.segments[..|root.segments| - 1], [name][1..]);
    }
  }

  /** A text of one safe segment, without control characters and without a slash, is accepted as it is. */
  lemma OneSegment(t: Text)
    requires 1 <= |t| <= 4_096 && SafeSegment(t) && !HasControl(t)
    ensures Validate(t) == Ok(t) && Segments(t) == [t]
  {
    assert Slashed(t) == t;
    SplitWithoutSeparator(t, SLASH);
    assert Kept([t]) == [t];
    assert JoinWith([t], SLASH) == t;
    ValidateIff(t);
  }

  predicate PairwiseDistinct(ts: seq<Text>) {
    forall i, j :: 0 <= i < j < |ts| ==> ts[i] != ts[j]
  }

  /** The list schema: every path accepted, and no two the same once normalised. */
  method ValidateList(paths: seq<Text>) returns (r: Result<seq<Text>>)
    ensures r.Ok? <==>
            && 1 <= |paths| <= 200 && (forall i :: 0 <= i < |paths| ==> Validate(paths[i]).Ok?)
            && forall i, j :: 0 <= i < j < |paths| ==> Validate(paths[i]) != Validate(paths[j])
    ensures r.Ok? ==> |r.value| == |paths| && (forall i :: 0 <= i < |paths| ==> Ok(r.value[i]) == Validate(paths[i]))
    ensures r.Ok? ==> PairwiseDistinct(r.value)
  {
    if !(1 <= |paths| <= 200) {
      return Err;
    }
    var out: seq<Text> := [];
    for i := 0 to |paths|
      invariant |out| == i && forall j :: 0 <= j < i ==> Ok(out[j]) == Validate(paths[j])
    {
      var v := Validate(paths[i]);
      if v.Err? {
        return Err;
      }
      out := out + [v.value];
    }
    var distinct := AllDistinct(out);
    if distinct {
      r := Ok(out);
    } else {
      r := Err;
    }
  }

  /** The refinement's loop over the paths seen so far. */
  method AllDistinct(paths: seq<Text>) returns (distinct: bool)
    ensures distinct <==> PairwiseDistinct(paths)
  {
    var seen: set<Text> := {};
    distinct := true;
    for i := 0 to |paths|
      invariant forall t :: t in seen <==> t in paths[..i]
      invariant distinct <==> PairwiseDistinct(paths[..i])
    {
      assert paths[..i + 1] == paths[..i] + [paths[i]];
      DistinctSnoc(paths[..i], paths[i]);
      if paths[i] in seen {
        distinct := false;
      }
      seen := seen + {paths[i]};
    }
    assert paths[..|paths|] == paths;
  }

  lemma DistinctSnoc(ts: seq<Text>, t: Text)
    ensures PairwiseDistinct(ts + [t]) <==> PairwiseDistinct(ts) && t !in ts
  {
    var all := ts + [t];
    assert forall i :: 0 <= i < |ts| ==> all[i] == ts[i];
    assert all[|ts|] == t;
  }
}
