/** Automatic write access and the merge of explicit policies with discovered workspaces. */
module PolicyMerge {
  import opened Common
  import opened Texts
  import opened PathKeys

  // ---------------------------------------------------------------- limits

  datatype LimitKey = MaxFileBytes | MaxSearchResults | MaxSearchSnippetBytes | MaxDiffBytes | MaxListedFiles

  type Limits = map<LimitKey, int>

  /** A JavaScript number. */
  datatype Number = Finite(value: real) | NotFinite

  function Ceiling(k: LimitKey): int {
    match k
    case MaxFileBytes => 64_000
    case MaxSearchResults => 100
    case MaxSearchSnippetBytes => 20_000
    case MaxDiffBytes => 500_000
    case MaxListedFiles => 500
  }

  const LIMIT_KEYS := [MaxFileBytes, MaxSearchResults, MaxSearchSnippetBytes, MaxDiffBytes, MaxListedFiles]

  predicate Reduces(override: map<LimitKey, Number>, k: LimitKey) {
    k in override && override[k].Finite? && override[k].value > 0.0
  }

  /** The ceiling, or a positive override below it. */
  function Clamped(override: map<LimitKey, Number>, k: LimitKey): real {
    var ceiling := Ceiling(k) as real;
    if Reduces(override, k) && override[k].value < ceiling then override[k].value else ceiling
  }

  predicate IsInteger(x: real) {
    x == x.Floor as real
  }

  lemma AllKeys(k: LimitKey)
    ensures exists i :: 0 <= i < 5 && LIMIT_KEYS[i] == k
  {
    var i := match k case MaxFileBytes => 0 case MaxSearchResults => 1 case MaxSearchSnippetBytes => 2 case MaxDiffBytes => 3 case MaxListedFiles => 4;
    assert LIMIT_KEYS[i] == k;
  }

  /** A finite positive override counts up to the ceiling; without one the ceiling holds. */
  lemma ClampedIs(override: map<LimitKey, Number>, k: LimitKey)
    ensures k in override && override[k].Finite? && override[k].value > 0.0 ==>
              Clamped(override, k) == if override[k].value <= Ceiling(k) as real then override[k].value else Ceiling(k) as real
    ensures k !in override || override[k].NotFinite? || override[k].value <= 0.0 ==> Clamped(override, k) == Ceiling(k) as real
  {
  }

  /** Overrides can only lower a limit; one that leaves a fraction is refused by the schema. */
  method ClampDiscoveredLimits(override: map<LimitKey, Number>) returns (r: Result<Limits>)
    ensures r.Ok? <==> forall k :: IsInteger(Clamped(override, k))
    ensures r.Ok? ==> forall k :: k in r.value && r.value[k] as real == Clamped(override, k) && 1 <= r.value[k] <= Ceiling(k)
  {
    var clamped: map<LimitKey, real> := map k: LimitKey | true :: Ceiling(k) as real;
    for i := 0 to |LIMIT_KEYS|
      invariant forall k :: k in clamped
      invariant forall j :: 0 <= j < i ==> clamped[LIMIT_KEYS[j]] == Clamped(override, LIMIT_KEYS[j])
      invariant forall j :: i <= j < |LIMIT_KEYS| ==> clamped[LIMIT_KEYS[j]] == Ceiling(LIMIT_KEYS[j]) as real
    {
      var key := LIMIT_KEYS[i];
      if Reduces(override, key) {
        var value, ceiling := override[key].value, Ceiling(key) as real;
        clamped := clamped[key := if value < ceiling then value else ceiling];
      }
    }
    forall k ensures clamped[k] == Clamped(override, k) {
      AllKeys(k);
    }
    if k: LimitKey :| !IsInteger(clamped[k]) {
      return Err;
    }
    return Ok(map k: LimitKey | true :: clamped[k].Floor);
  }

  // ---------------------------------------------------------------- write access

  datatype Kind = Repository | Aggregate

  datatype Profile = PlanningReadonly | PlanningHandoff | BuilderReview | RestrictedArea | FullRepoReadonly | FullRepoWrite

  datatype Shell = Powershell | Pwsh | Cmd | Sh | Bash | Wsl | GitBash

  const SUPPORTED_SHELLS := [Powershell, Pwsh, Cmd, Sh, Bash, Wsl, GitBash]
  const HERE: Text := [0x2E]

  datatype Workspace = Workspace(
    id: Text, name: Text, rootPath: Text, kind: Option<Kind>, enabled: bool, profile: Profile, trustedMode: bool,
    allowedRoots: seq<Text>, blockedGlobs: seq<Text>, limits: Limits,
    allowWrites: seq<Text>, allowShell: seq<Text>, allowedShells: seq<Shell>)

  /** An empty root is the same as none. */
  datatype Options = Options(
    includeOpen: bool, alwaysExpose: bool, requireTrusted: bool,
    projectWrites: bool, projectRoot: Text, developmentWrites: bool, developmentRoot: Text)

  predicate IsAutoWriteEligible(lower: Text -> Text, path: Text, o: Options) {
    (o.projectWrites && o.projectRoot != [] && IsUnderConfiguredRoot(lower, path, o.projectRoot)) ||
    (o.developmentWrites && o.developmentRoot != [] && IsUnderConfiguredRoot(lower, path, o.developmentRoot))
  }

  predicate IsConfiguredProjectRoot(lower: Text -> Text, path: Text, o: Options) {
    o.projectWrites && o.projectRoot != [] && Key(lower, path) == Key(lower, o.projectRoot)
  }

  function WithAutoWriteAccess(lower: Text -> Text, w: Workspace, path: Text, o: Options): Workspace {
    if !IsAutoWriteEligible(lower, path, o) then w
    else
      w.(kind := if IsConfiguredProjectRoot(lower, path, o) then Some(Aggregate) else w.kind,
         profile := FullRepoWrite, allowWrites := [HERE], allowShell := [HERE], allowedShells := SUPPORTED_SHELLS)
  }

  /** Access depends on the path only through its key, and is added exactly under an enabled root. */
  lemma AccessFollowsKey(lower: Text -> Text, w: Workspace, p: Text, q: Text, o: Options)
    requires Key(lower, p) == Key(lower, q)
    ensures WithAutoWriteAccess(lower, w, p, o) == WithAutoWriteAccess(lower, w, q, o)
    ensures !IsAutoWriteEligible(lower, p, o) ==> WithAutoWriteAccess(lower, w, p, o) == w
    ensures IsAutoWriteEligible(lower, p, o) <==>
            || (o.projectWrites && o.projectRoot != [] && Segments(Key(lower, o.projectRoot)) <= Segments(Key(lower, p)))
            || (o.developmentWrites && o.developmentRoot != [] && Segments(Key(lower, o.developmentRoot)) <= Segments(Key(lower, p)))
    ensures IsAutoWriteEligible(lower, p, o) ==>
              var g := WithAutoWriteAccess(lower, w, p, o);
              && g.profile == FullRepoWrite && g.allowWrites == [HERE] && g.allowShell == [HERE]
              && g.allowedShells == [Powershell, Pwsh, Cmd, Sh, Bash, Wsl, GitBash]
              && g.kind == (if o.projectWrites && o.projectRoot != [] && Key(lower, p) == Key(lower, o.projectRoot) then Some(Aggregate) else w.kind)
              && (g.id, g.name, g.rootPath, g.enabled, g.trustedMode) == (w.id, w.name, w.rootPath, w.enabled, w.trustedMode)
              && (g.allowedRoots, g.blockedGlobs, g.limits) == (w.allowedRoots, w.blockedGlobs, w.limits)
  {
    UnderIff(lower, p, o.projectRoot);
    UnderIff(lower, p, o.developmentRoot);
  }

  // ---------------------------------------------------------------- the merge, declaratively

  datatype Entry = Entry(workspace: Workspace, path: Text)

  datatype Candidate = Candidate(name: Text, rootPath: Text, path: Text, trusted: bool)

  /** What the merge takes as given: which candidates have technical names, their two ids, and the order of ids. */
  datatype Naming = Naming(technical: Candidate -> bool, firstId: Candidate -> Text, otherId: Candidate -> Text, before: (Text, Text) -> bool)

  /** Path keys and the write rule, as functions, and the naming. */
  datatype Env = Env(key: Text -> Text, grant: (Workspace, Text) -> Workspace, naming: Naming)

  /** The environment of a call with these options. */
  function EnvFor(lower: Text -> Text, o: Options, naming: Naming): Env {
    Env(p => Key(lower, p), (w, p) => WithAutoWriteAccess(lower, w, p, o), naming)
  }

  /** The last base entry for a key: it is the one that counts. */
  function ExplicitAt(env: Env, base: seq<Entry>, k: Text): Option<Entry> {
    if base == [] then None
    else if env.key(base[|base| - 1].path) == k then Some(base[|base| - 1])
    else ExplicitAt(env, base[..|base| - 1], k)
  }

  function ExplicitPolicy(env: Env, base: seq<Entry>, k: Text): Option<Workspace> {
    match ExplicitAt(env, base, k) case Some(e) => Some(e.workspace) case None => None
  }

  /** Some base entry for the key is disabled. */
  predicate DeniedAt(env: Env, base: seq<Entry>, k: Text) {
    base != [] && ((env.key(base[|base| - 1].path) == k && !base[|base| - 1].workspace.enabled) || DeniedAt(env, base[..|base| - 1], k))
  }

  /** The first enabled base entry for a key. */
  function FirstEnabled(env: Env, base: seq<Entry>, k: Text): Option<Entry> {
    if base == [] then None
    else
      var e := base[|base| - 1];
      match FirstEnabled(env, base[..|base| - 1], k)
      case Some(x) => Some(x)
      case None => if env.key(e.path) == k && e.workspace.enabled then Some(e) else None
  }

  /** Trusted if trust is required, not denied, and not a technical name unless it is explicit. */
  predicate Counts(env: Env, o: Options, base: seq<Entry>, c: Candidate) {
    (c.trusted || !o.requireTrusted) && !DeniedAt(env, base, env.key(c.path)) &&
    (ExplicitAt(env, base, env.key(c.path)).Some? || !env.naming.technical(c))
  }

  /** A candidate that is listed on its own account. */
  predicate Creates(env: Env, o: Options, base: seq<Entry>, c: Candidate) {
    Counts(env, o, base, c) && ExplicitAt(env, base, env.key(c.path)).None?
  }

  /** The first id, or the other one when the first is taken. */
  function IdFor(env: Env, c: Candidate, used: set<Text>): Text {
    if env.naming.firstId(c) in used then env.naming.otherId(c) else env.naming.firstId(c)
  }

  function BaseIds(base: seq<Entry>): set<Text> {
    set e | e in base :: e.workspace.id
  }

  /** The ids taken once these candidates have been gone through. */
  function UsedIds(env: Env, o: Options, base: seq<Entry>, cs: seq<Candidate>): set<Text> {
    if cs == [] then BaseIds(base)
    else
      var c, used := cs[|cs| - 1], UsedIds(env, o, base, cs[..|cs| - 1]);
      if Creates(env, o, base, c) then used + {IdFor(env, c, used)} else used
  }

  /** A candidate and the id it would be listed under. */
  datatype Opening = Opening(c: Candidate, id: Text)

  function LastCounting(env: Env, o: Options, base: seq<Entry>, cs: seq<Candidate>, k: Text): Option<Opening> {
    if cs == [] then None
    else
      var c, earlier := cs[|cs| - 1], cs[..|cs| - 1];
      if env.key(c.path) == k && Counts(env, o, base, c) then Some(Opening(c, IdFor(env, c, UsedIds(env, o, base, earlier))))
      else LastCounting(env, o, base, earlier, k)
  }

  datatype Expected = Absent | Explicit(e: Entry, path: Text) | Discovered(opening: Opening)

  /** What the discovered folders alone put under a key. */
  function Opened(env: Env, o: Options, base: seq<Entry>, cs: seq<Candidate>, k: Text): Expected {
    match LastCounting(env, o, base, cs, k)
    case None => Absent
    case Some(opening) =>
      match ExplicitAt(env, base, k)
      case Some(e) => Explicit(e, opening.c.path)
      case None => Discovered(opening)
  }

  /** What the merge puts under a key. */
  function ExpectedAt(env: Env, o: Options, base: seq<Entry>, cs: seq<Candidate>, k: Text): Expected {
    var open := if o.includeOpen then Opened(env, o, base, cs, k) else Absent;
    if !open.Absent? || !o.alwaysExpose then open
    else match FirstEnabled(env, base, k)
         case Some(e) => Explicit(e, e.path)
         case None => Absent
  }

  function DiscoveredWorkspace(c: Candidate, limits: Limits, id: Text): Workspace {
    Workspace(id, c.name, c.rootPath, Some(Repository), true, PlanningReadonly, false, [HERE], [], limits, [], [], [Powershell])
  }

  /** The policy that goes with what is expected. */
  function PolicyFor(env: Env, limits: Limits, exp: Expected): (w: Option<Workspace>)
    ensures w.None? <==> exp.Absent?
  {
    match exp
    case Absent => None
    case Explicit(e, path) => Some(env.grant(e.workspace, path))
    case Discovered(opening) => Some(env.grant(DiscoveredWorkspace(opening.c, limits, opening.id), opening.c.path))
  }

  datatype Source = ExplicitSource | DiscoveredSource | DenyIndex

  datatype Row = Row(source: Source, id: Text, name: Text, rootPath: Text, path: Text, trusted: bool, enabled: bool)

  function RowOf(source: Source, w: Workspace, path: Text, trusted: bool): Row {
    Row(source, w.id, w.name, w.rootPath, path, trusted, !source.DenyIndex?)
  }

  function DenyRows(base: seq<Entry>): seq<Row> {
    if base == [] then []
    else
      var e := base[|base| - 1];
      DenyRows(base[..|base| - 1]) + if e.workspace.enabled then [] else [RowOf(DenyIndex, e.workspace, e.path, true)]
  }

  function OpenRow(env: Env, limits: Limits, base: seq<Entry>, opening: Opening): Row {
    match ExplicitAt(env, base, env.key(opening.c.path))
    case Some(e) => RowOf(ExplicitSource, e.workspace, opening.c.path, opening.c.trusted)
    case None => RowOf(DiscoveredSource, PolicyFor(env, limits, Discovered(opening)).value, opening.c.path, opening.c.trusted)
  }

  /** One row for each candidate that counts, repeated ones included. */
  function OpenRows(env: Env, o: Options, limits: Limits, base: seq<Entry>, cs: seq<Candidate>): seq<Row> {
    if cs == [] then []
    else
      var c, earlier := cs[|cs| - 1], cs[..|cs| - 1];
      OpenRows(env, o, limits, base, earlier) +
      if Counts(env, o, base, c) then [OpenRow(env, limits, base, Opening(c, IdFor(env, c, UsedIds(env, o, base, earlier))))] else []
  }

  predicate IsOpen(env: Env, o: Options, base: seq<Entry>, cs: seq<Candidate>, k: Text) {
    o.includeOpen && !Opened(env, o, base, cs, k).Absent?
  }

  /** One row for the first enabled one of the first `n` base entries for each key that is not open. */
  function ExposedRows(env: Env, o: Options, base: seq<Entry>, cs: seq<Candidate>, n: nat): seq<Row>
    requires n <= |base|
  {
    if n == 0 then []
    else
      var e := base[n - 1];
      ExposedRows(env, o, base, cs, n - 1) +
      if e.workspace.enabled && !IsOpen(env, o, base, cs, env.key(e.path)) && FirstEnabled(env, base[..n - 1], env.key(e.path)).None?
      then [RowOf(ExplicitSource, e.workspace, e.path, true)] else []
  }

  function Catalog(env: Env, o: Options, limits: Limits, base: seq<Entry>, cs: seq<Candidate>): seq<Row> {
    DenyRows(base) + (if o.includeOpen then OpenRows(env, o, limits, base, cs) else []) +
    (if o.alwaysExpose then ExposedRows(env, o, base, cs, |base|) else [])
  }

  function Lookup<V>(m: map<Text, V>, k: Text): Option<V> {
    if k in m then Some(m[k]) else None
  }

  lemma {:induction false} ExplicitIsEnabled(env: Env, base: seq<Entry>, k: Text)
    requires !DeniedAt(env, base, k)
    ensures ExplicitAt(env, base, k).Some? ==> ExplicitAt(env, base, k).value.workspace.enabled
  {
    if base != [] {
      ExplicitIsEnabled(env, base[..|base| - 1], k);
    }
  }

  // ---------------------------------------------------------------- the merge, as it is done

  predicate NoRepeats(keys: seq<Text>) {
    forall i, j :: 0 <= i < j < |keys| ==> keys[i] != keys[j]
  }

  /** A JavaScript `Map`: its entries and the order in which its keys came in. */
  ghost predicate OrderedMap<V>(m: map<Text, V>, keys: seq<Text>) {
    NoRepeats(keys) && forall k :: k in keys <==> k in m
  }

  function Ordered(keys: seq<Text>, m: map<Text, Workspace>, k: Text): seq<Text> {
    if k in m then keys else keys + [k]
  }

  lemma SetKeepsOrder(m: map<Text, Workspace>, keys: seq<Text>, k: Text, w: Workspace)
    requires OrderedMap(m, keys)
    ensures OrderedMap(m[k := w], Ordered(keys, m, k))
  {
  }

  method IndexBase(env: Env, base: seq<Entry>)
    returns (explicitByPath: map<Text, Workspace>, denyPaths: set<Text>, usedIds: set<Text>, catalog: seq<Row>)
    ensures forall k :: Lookup(explicitByPath, k) == ExplicitPolicy(env, base, k)
    ensures forall k :: k in denyPaths <==> DeniedAt(env, base, k)
    ensures usedIds == BaseIds(base) && catalog == DenyRows(base)
  {
    explicitByPath, denyPaths, usedIds, catalog := map[], {}, {}, [];
    for i := 0 to |base|
      invariant forall k :: Lookup(explicitByPath, k) == ExplicitPolicy(env, base[..i], k)
      invariant forall k :: k in denyPaths <==> DeniedAt(env, base[..i], k)
      invariant usedIds == BaseIds(base[..i]) && catalog == DenyRows(base[..i])
    {
      var e := base[i];
      var key := env.key(e.path);
      ghost var before, denied := explicitByPath, denyPaths;
      OneMoreIndexed(base, i);
      explicitByPath := explicitByPath[key := e.workspace];
      usedIds := usedIds + {e.workspace.id};
      if !e.workspace.enabled {
        denyPaths := denyPaths + {key};
        catalog := catalog + [RowOf(DenyIndex, e.workspace, e.path, true)];
      }
      forall k ensures Lookup(explicitByPath, k) == ExplicitPolicy(env, base[..i + 1], k)
               ensures k in denyPaths <==> DeniedAt(env, base[..i + 1], k)
      {
        assert Lookup(before, k) == ExplicitPolicy(env, base[..i], k) && (k in denied <==> DeniedAt(env, base[..i], k));
        OneMoreExplicit(env, base, i, k);
      }
    }
    assert base[..|base|] == base;
  }

  method OpenWorkspaces(env: Env, o: Options, base: seq<Entry>, discovered: seq<Candidate>, limits: Limits)
    returns (merged: map<Text, Workspace>, keys: seq<Text>, catalog: seq<Row>)
    ensures OrderedMap(merged, keys)
    ensures forall k :: Lookup(merged, k) == PolicyFor(env, limits, if o.includeOpen then Opened(env, o, base, discovered, k) else Absent)
    ensures catalog == DenyRows(base) + if o.includeOpen then OpenRows(env, o, limits, base, discovered) else []
  {
    var explicitByPath, denyPaths, usedIds;
    explicitByPath, denyPaths, usedIds, catalog := IndexBase(env, base);
    merged, keys := map[], [];
    if !o.includeOpen {
      return;
    }
    for i := 0 to |discovered|
      invariant OrderedMap(merged, keys)
      invariant forall k :: Lookup(merged, k) == PolicyFor(env, limits, Opened(env, o, base, discovered[..i], k))
      invariant usedIds == UsedIds(env, o, base, discovered[..i])
      invariant catalog == DenyRows(base) + OpenRows(env, o, limits, base, discovered[..i])
    {
      ghost var was := merged;
      OneMoreCandidate(env, o, limits, base, discovered, i);
      merged, keys, usedIds, catalog :=
        OpenCandidate(env, o, base, limits, explicitByPath, denyPaths, discovered[i], merged, keys, usedIds, catalog);
      CandidateOpened(env, o, limits, base, discovered, i, was, merged);
    }
    assert discovered[..|discovered|] == discovered;
  }

  /** The body of the loop over the discovered candidates. */
  method OpenCandidate(env: Env, o: Options, ghost base: seq<Entry>, limits: Limits, explicitByPath: map<Text, Workspace>, denyPaths: set<Text>,
                       c: Candidate, merged: map<Text, Workspace>, keys: seq<Text>, usedIds: set<Text>, catalog: seq<Row>)
    returns (merged': map<Text, Workspace>, keys': seq<Text>, usedIds': set<Text>, catalog': seq<Row>)
    requires forall k :: Lookup(explicitByPath, k) == ExplicitPolicy(env, base, k)
    requires forall k :: k in denyPaths <==> DeniedAt(env, base, k)
    requires OrderedMap(merged, keys)
    ensures OrderedMap(merged', keys')
    ensures var opening := Opening(c, IdFor(env, c, usedIds));
            if Counts(env, o, base, c)
            then merged' == merged[env.key(c.path) := OpenPolicy(env, limits, base, opening)] &&
                 catalog' == catalog + [OpenRow(env, limits, base, opening)]
            else merged' == merged && catalog' == catalog
    ensures usedIds' == if Creates(env, o, base, c) then usedIds + {IdFor(env, c, usedIds)} else usedIds
  {
    merged', keys', usedIds', catalog' := merged, keys, usedIds, catalog;
    var key := env.key(c.path);
    assert Lookup(explicitByPath, key) == ExplicitPolicy(env, base, key);
    if (o.requireTrusted && !c.trusted) || key in denyPaths {
      return;
    }
    var w;
    if key in explicitByPath {
      var explicit := explicitByPath[key];
      ExplicitIsEnabled(env, base, key);
      if !explicit.enabled {
        return;
      }
      w := env.grant(explicit, c.path);
      catalog' := catalog + [RowOf(ExplicitSource, explicit, c.path, c.trusted)];
    } else {
      if env.naming.technical(c) {
        return;
      }
      var id := env.naming.firstId(c);
      if id in usedIds {
        id := env.naming.otherId(c);
      }
      usedIds' := usedIds + {id};
      w := env.grant(DiscoveredWorkspace(c, limits, id), c.path);
      catalog' := catalog + [RowOf(DiscoveredSource, w, c.path, c.trusted)];
    }
    SetKeepsOrder(merged, keys, key, w);
    merged', keys' := merged[key := w], Ordered(keys, merged, key);
  }

  /** The policies under the keys, in order. */
  function ValuesOf(m: map<Text, Workspace>, keys: seq<Text>): (ws: seq<Workspace>)
    requires forall k :: k in keys ==> k in m
    ensures |ws| == |keys|
  {
    seq(|keys|, i requires 0 <= i < |keys| => m[keys[i]])
  }

  function InsertById(before: (Text, Text) -> bool, w: Workspace, sorted: seq<Workspace>): (r: seq<Workspace>)
    ensures multiset(r) == multiset(sorted) + multiset{w}
  {
    if sorted == [] || before(w.id, sorted[0].id) then [w] + sorted
    else
      assert sorted == [sorted[0]] + sorted[1..];
      [sorted[0]] + InsertById(before, w, sorted[1..])
  }

  function SortById(before: (Text, Text) -> bool, ws: seq<Workspace>): (r: seq<Workspace>)
    ensures multiset(r) == multiset(ws)
  {
    if ws == [] then []
    else
      assert ws == [ws[0]] + ws[1..];
      InsertById(before, ws[0], SortById(before, ws[1..]))
  }

  datatype Merge = Merge(workspaces: seq<Workspace>, catalog: seq<Row>)

  /**
   The merge finds, under every key, exactly what is expected there; the policy lists those
   workspaces, each once; the catalog has the expected rows; and there is an error exactly when
   nothing is expected.
   */
  method MergeWithLimits(env: Env, o: Options, base: seq<Entry>, discovered: seq<Candidate>, limits: Limits)
    returns (r: Result<Merge>, merged: map<Text, Workspace>, keys: seq<Text>)
    ensures OrderedMap(merged, keys)
    ensures forall k :: Lookup(merged, k) == PolicyFor(env, limits, ExpectedAt(env, o, base, discovered, k))
    ensures r.Err? <==> forall k :: ExpectedAt(env, o, base, discovered, k).Absent?
    ensures r.Ok? ==> multiset(r.value.workspaces) == multiset(ValuesOf(merged, keys))
    ensures r.Ok? && TotalPreorder(env.naming.before) ==> SortedById(env.naming.before, r.value.workspaces)
    ensures r.Ok? ==> r.value.catalog == Catalog(env, o, limits, base, discovered)
  {
    var catalog;
    merged, keys, catalog := OpenWorkspaces(env, o, base, discovered, limits);
    ghost var openOnes := merged;
    forall k ensures k in openOnes <==> IsOpen(env, o, base, discovered, k) {
      assert Lookup(openOnes, k) == PolicyFor(env, limits, if o.includeOpen then Opened(env, o, base, discovered, k) else Absent);
    }
    if o.alwaysExpose {
      merged, keys, catalog := ExposeExplicit(env, o, base, discovered, merged, keys, catalog);
    }
    forall k ensures Lookup(merged, k) == PolicyFor(env, limits, ExpectedAt(env, o, base, discovered, k)) {
      assert Lookup(openOnes, k) == PolicyFor(env, limits, if o.includeOpen then Opened(env, o, base, discovered, k) else Absent);
      assert o.alwaysExpose ==> Lookup(merged, k) == Exposed(env, openOnes, base, k);
    }
    var listed := Listed(env, merged, keys);
    PresentIff(env, o, base, discovered, limits, merged, keys);
    r := match listed case Ok(workspaces) => Ok(Merge(workspaces, catalog)) case Err => Err;
  }

  /** The loop that adds the enabled base entries whose keys are not there yet. */
  method ExposeExplicit(env: Env, o: Options, base: seq<Entry>, ghost discovered: seq<Candidate>,
                        openOnes: map<Text, Workspace>, openKeys: seq<Text>, openRows: seq<Row>)
    returns (merged: map<Text, Workspace>, keys: seq<Text>, catalog: seq<Row>)
    requires OrderedMap(openOnes, openKeys) && forall k :: k in openOnes <==> IsOpen(env, o, base, discovered, k)
    ensures OrderedMap(merged, keys) && forall k :: Lookup(merged, k) == Exposed(env, openOnes, base, k)
    ensures catalog == openRows + ExposedRows(env, o, base, discovered, |base|)
  {
    merged, keys, catalog := openOnes, openKeys, openRows;
    for i := 0 to |base|
      invariant OrderedMap(merged, keys)
      invariant forall k :: Lookup(merged, k) == Exposed(env, openOnes, base[..i], k)
      invariant catalog == openRows + ExposedRows(env, o, base, discovered, i)
    {
      var e := base[i];
      var key := env.key(e.path);
      ghost var was := merged;
      assert Lookup(was, key) == Exposed(env, openOnes, base[..i], key);
      if e.workspace.enabled && key !in merged {
        SetKeepsOrder(merged, keys, key, env.grant(e.workspace, e.path));
        merged, keys := merged[key := env.grant(e.workspace, e.path)], Ordered(keys, merged, key);
        catalog := catalog + [RowOf(ExplicitSource, e.workspace, e.path, true)];
      }
      forall k ensures Lookup(merged, k) == Exposed(env, openOnes, base[..i + 1], k) {
        assert Lookup(was, k) == Exposed(env, openOnes, base[..i], k);
        OneMoreEntry(env, base, i, k);
      }
    }
    assert base[..|base|] == base;
  }

  /** The whole merge: clamp the limits, then merge; either step may fail. */
  method MergeWorkspacePolicies(lower: Text -> Text, naming: Naming, o: Options, base: seq<Entry>, discovered: seq<Candidate>,
                                override: map<LimitKey, Number>)
    returns (r: Result<Merge>, limits: Limits, merged: map<Text, Workspace>, keys: seq<Text>)
    ensures var env := EnvFor(lower, o, naming);
            && (r.Err? <==> !(forall k :: IsInteger(Clamped(override, k))) || forall k :: ExpectedAt(env, o, base, discovered, k).Absent?)
            && (r.Ok? ==> forall k :: Lookup(merged, k) == PolicyFor(env, limits, ExpectedAt(env, o, base, discovered, k)))
            && (r.Ok? ==> r.value.catalog == Catalog(env, o, limits, base, discovered))
    ensures r.Ok? ==> forall k :: k in limits && limits[k] as real == Clamped(override, k) && 1 <= limits[k] <= Ceiling(k)
    ensures r.Ok? ==> OrderedMap(merged, keys) && multiset(r.value.workspaces) == multiset(ValuesOf(merged, keys))
    ensures r.Ok? && TotalPreorder(naming.before) ==> SortedById(naming.before, r.value.workspaces)
    ensures var env := EnvFor(lower, o, naming);
            && (r.Err? <==> !(forall k :: IsInteger(Clamped(override, k))) || forall k :: !MustList(env, o, base, discovered, k))
            && (r.Ok? ==> forall k :: k in merged <==> MustList(env, o, base, discovered, k))
    ensures r.Ok? ==> forall w :: w in r.value.workspaces ==> exists k :: Warranted(lower, naming, o, base, discovered, limits, k, w)
  {
    r, limits, merged, keys := Err, map[], map[], [];
    AllListed(EnvFor(lower, o, naming), o, base, discovered);
    var clamped := ClampDiscoveredLimits(override);
    if clamped.Ok? {
      limits := clamped.value;
      r, merged, keys := MergeWithLimits(EnvFor(lower, o, naming), o, base, discovered, limits);
      if r.Ok? {
        AllWarranted(lower, naming, o, base, discovered, limits, merged, keys, r.value.workspaces);
      }
    }
  }

  /** The final list, or the error for an empty one. */
  method Listed(env: Env, merged: map<Text, Workspace>, keys: seq<Text>) returns (r: Result<seq<Workspace>>)
    requires OrderedMap(merged, keys)
    ensures r.Err? <==> keys == []
    ensures r.Ok? ==> multiset(r.value) == multiset(ValuesOf(merged, keys))
    ensures r.Ok? && TotalPreorder(env.naming.before) ==> SortedById(env.naming.before, r.value)
  {
    var workspaces := SortById(env.naming.before, ValuesOf(merged, keys));
    if TotalPreorder(env.naming.before) {
      SortIsSorted(env.naming.before, ValuesOf(merged, keys));
    }
    assert |multiset(workspaces)| == |multiset(ValuesOf(merged, keys))|;
    if |workspaces| == 0 {
      r := Err;
    } else {
      r := Ok(workspaces);
    }
  }

  lemma PresentIff(env: Env, o: Options, base: seq<Entry>, cs: seq<Candidate>, limits: Limits, merged: map<Text, Workspace>, keys: seq<Text>)
    requires OrderedMap(merged, keys)
    requires forall k :: Lookup(merged, k) == PolicyFor(env, limits, ExpectedAt(env, o, base, cs, k))
    ensures keys == [] <==> forall k :: ExpectedAt(env, o, base, cs, k).Absent?
  {
    if keys != [] {
      assert keys[0] in keys;
      assert Lookup(merged, keys[0]) == PolicyFor(env, limits, ExpectedAt(env, o, base, cs, keys[0]));
    } else {
      forall k ensures ExpectedAt(env, o, base, cs, k).Absent? {
        assert Lookup(merged, k) == PolicyFor(env, limits, ExpectedAt(env, o, base, cs, k));
        assert k !in keys;
      }
    }
  }

  lemma {:induction false} LastIsNew(env: Env, o: Options, base: seq<Entry>, cs: seq<Candidate>, i: nat, k: Text)
    requires i < |cs|
    ensures LastCounting(env, o, base, cs[..i + 1], k) ==
            if env.key(cs[i].path) == k && Counts(env, o, base, cs[i]) then Some(Opening(cs[i], IdFor(env, cs[i], UsedIds(env, o, base, cs[..i]))))
            else LastCounting(env, o, base, cs[..i], k)
  {
    assert cs[..i + 1][..i] == cs[..i];
  }

  lemma {:induction false} OneMoreExplicit(env: Env, base: seq<Entry>, i: nat, k: Text)
    requires i < |base|
    ensures var e := base[i];
            && ExplicitPolicy(env, base[..i + 1], k) == (if env.key(e.path) == k then Some(e.workspace) else ExplicitPolicy(env, base[..i], k))
            && (DeniedAt(env, base[..i + 1], k) <==> (env.key(e.path) == k && !e.workspace.enabled) || DeniedAt(env, base[..i], k))
  {
    assert base[..i + 1][..i] == base[..i];
  }

  lemma {:induction false} OneMoreIndexed(base: seq<Entry>, i: nat)
    requires i < |base|
    ensures BaseIds(base[..i + 1]) == BaseIds(base[..i]) + {base[i].workspace.id}
    ensures DenyRows(base[..i + 1]) ==
            DenyRows(base[..i]) + if base[i].workspace.enabled then [] else [RowOf(DenyIndex, base[i].workspace, base[i].path, true)]
  {
    assert base[..i + 1][..i] == base[..i] && base[..i + 1] == base[..i] + [base[i]];
  }

  /** What the loop does to the map with one more candidate. */
  lemma CandidateOpened(env: Env, o: Options, limits: Limits, base: seq<Entry>, cs: seq<Candidate>, i: nat,
                        was: map<Text, Workspace>, merged: map<Text, Workspace>)
    requires i < |cs| && forall k :: Lookup(was, k) == PolicyFor(env, limits, Opened(env, o, base, cs[..i], k))
    requires merged == if Counts(env, o, base, cs[i])
                       then was[env.key(cs[i].path) := OpenPolicy(env, limits, base, Opening(cs[i], IdFor(env, cs[i], UsedIds(env, o, base, cs[..i]))))]
                       else was
    ensures forall k :: Lookup(merged, k) == PolicyFor(env, limits, Opened(env, o, base, cs[..i + 1], k))
  {
    forall k ensures Lookup(merged, k) == PolicyFor(env, limits, Opened(env, o, base, cs[..i + 1], k)) {
      assert Lookup(was, k) == PolicyFor(env, limits, Opened(env, o, base, cs[..i], k));
      LastIsNew(env, o, base, cs, i, k);
    }
  }

  function OpenPolicy(env: Env, limits: Limits, base: seq<Entry>, opening: Opening): Workspace {
    match ExplicitAt(env, base, env.key(opening.c.path))
    case Some(e) => env.grant(e.workspace, opening.c.path)
    case None => env.grant(DiscoveredWorkspace(opening.c, limits, opening.id), opening.c.path)
  }

  lemma {:induction false} OneMoreCandidate(env: Env, o: Options, limits: Limits, base: seq<Entry>, cs: seq<Candidate>, i: nat)
    requires i < |cs|
    ensures var c, used := cs[i], UsedIds(env, o, base, cs[..i]);
            && UsedIds(env, o, base, cs[..i + 1]) == (if Creates(env, o, base, c) then used + {IdFor(env, c, used)} else used)
            && OpenRows(env, o, limits, base, cs[..i + 1]) ==
               OpenRows(env, o, limits, base, cs[..i]) +
               if Counts(env, o, base, c) then [OpenRow(env, limits, base, Opening(c, IdFor(env, c, used)))] else []
  {
    assert cs[..i + 1][..i] == cs[..i];
  }

  lemma {:induction false} OneMoreEntry(env: Env, base: seq<Entry>, i: nat, k: Text)
    requires i < |base|
    ensures FirstEnabled(env, base[..i + 1], k) ==
            match FirstEnabled(env, base[..i], k)
            case Some(x) => Some(x)
            case None => if env.key(base[i].path) == k && base[i].workspace.enabled then Some(base[i]) else None
  {
    assert base[..i + 1][..i] == base[..i];
  }

  /** What the last loop leaves under a key: what was open there, or the first enabled base entry. */
  function Exposed(env: Env, openOnes: map<Text, Workspace>, base: seq<Entry>, k: Text): Option<Workspace> {
    if k in openOnes then Some(openOnes[k])
    else match FirstEnabled(env, base, k)
         case Some(e) => Some(env.grant(e.workspace, e.path))
         case None => None
  }

  // ---------------------------------------------------------------- what the merge guarantees

  ghost predicate DistinctKeys(env: Env, base: seq<Entry>) {
    forall i, j :: 0 <= i < j < |base| ==> env.key(base[i].path) != env.key(base[j].path)
  }

  lemma {:induction false} DeniedHasEntry(env: Env, base: seq<Entry>, k: Text)
    ensures DeniedAt(env, base, k) <==> exists i :: 0 <= i < |base| && env.key(base[i].path) == k && !base[i].workspace.enabled
  {
    if base != [] {
      var init := base[..|base| - 1];
      DeniedHasEntry(env, init, k);
      assert forall i :: 0 <= i < |init| ==> init[i] == base[i];
    }
  }

  lemma {:induction false} EnabledHasEntry(env: Env, base: seq<Entry>, k: Text)
    ensures FirstEnabled(env, base, k).Some? <==> exists i :: 0 <= i < |base| && env.key(base[i].path) == k && base[i].workspace.enabled
  {
    if base != [] {
      var init := base[..|base| - 1];
      EnabledHasEntry(env, init, k);
      assert forall i :: 0 <= i < |init| ==> init[i] == base[i];
    }
  }

  /**
   A denied path stays out unless the base also holds an enabled entry for the same key and explicit
   entries are always exposed; with distinct keys it always stays out.
   */
  lemma DenyWins(env: Env, o: Options, base: seq<Entry>, cs: seq<Candidate>, k: Text)
    requires DeniedAt(env, base, k)
    ensures ExpectedAt(env, o, base, cs, k).Absent? <==> !(o.alwaysExpose && FirstEnabled(env, base, k).Some?)
    ensures DistinctKeys(env, base) ==> ExpectedAt(env, o, base, cs, k).Absent?
  {
    NothingCounts(env, o, base, cs, k);
    DeniedHasEntry(env, base, k);
    EnabledHasEntry(env, base, k);
  }

  lemma {:induction false} NothingCounts(env: Env, o: Options, base: seq<Entry>, cs: seq<Candidate>, k: Text)
    requires DeniedAt(env, base, k)
    ensures LastCounting(env, o, base, cs, k).None?
  {
    if cs != [] {
      NothingCounts(env, o, base, cs[..|cs| - 1], k);
    }
  }

  /** The key lies under an enabled root. */
  predicate UnderEnabledRoot(lower: Text -> Text, o: Options, k: Text) {
    || (o.projectWrites && o.projectRoot != [] && Segments(Key(lower, o.projectRoot)) <= Segments(k))
    || (o.developmentWrites && o.developmentRoot != [] && Segments(Key(lower, o.developmentRoot)) <= Segments(k))
  }

  predicate HasFullAccess(w: Workspace) {
    w.profile == FullRepoWrite && w.allowWrites == [HERE] && w.allowShell == [HERE] && w.allowedShells == SUPPORTED_SHELLS
  }

  /** What a discovered workspace is where no root grants it more. */
  predicate IsDiscovered(w: Workspace, c: Candidate, limits: Limits) {
    && (w.name, w.rootPath, w.kind, w.enabled, w.profile) == (c.name, c.rootPath, Some(Repository), true, PlanningReadonly)
    && !w.trustedMode && w.allowedRoots == [HERE] && w.blockedGlobs == [] && w.limits == limits
    && w.allowWrites == [] && w.allowShell == [] && w.allowedShells == [Powershell]
  }

  /**
   Why a workspace is listed under a key and what it may do: it is an enabled explicit entry for the
   key, or, if there is none, a candidate for it, trusted if need be, without a technical name, and
   with the clamped limits; under an enabled root it
   has full access, and elsewhere exactly what the entry had, or none.
   */
  ghost predicate Warranted(lower: Text -> Text, naming: Naming, o: Options, base: seq<Entry>, cs: seq<Candidate>, limits: Limits, k: Text, w: Workspace) {
    && (UnderEnabledRoot(lower, o, k) ==> HasFullAccess(w))
    && ((exists e :: e in base && e.workspace.enabled && Key(lower, e.path) == k && w.id == e.workspace.id &&
                     (!UnderEnabledRoot(lower, o, k) ==> w == e.workspace)) ||
        ((forall e :: e in base ==> Key(lower, e.path) != k) &&
         exists c :: c in cs && Key(lower, c.path) == k && (o.requireTrusted ==> c.trusted) && !naming.technical(c) &&
                     w.limits == limits && w.name == c.name && w.rootPath == c.rootPath && (!UnderEnabledRoot(lower, o, k) ==> IsDiscovered(w, c, limits))))
  }

  lemma {:induction false} ExplicitIsEntry(env: Env, base: seq<Entry>, k: Text)
    ensures var e := ExplicitAt(env, base, k); e.Some? ==> e.value in base && env.key(e.value.path) == k
    ensures ExplicitAt(env, base, k).None? ==> forall e :: e in base ==> env.key(e.path) != k
    ensures var e := FirstEnabled(env, base, k); e.Some? ==> e.value in base && env.key(e.value.path) == k && e.value.workspace.enabled
  {
    if base != [] {
      ExplicitIsEntry(env, base[..|base| - 1], k);
      assert forall e :: e in base ==> e == base[|base| - 1] || e in base[..|base| - 1];
    }
  }

  lemma {:induction false} CountingIsCandidate(env: Env, o: Options, base: seq<Entry>, cs: seq<Candidate>, k: Text)
    ensures var x := LastCounting(env, o, base, cs, k);
            x.Some? ==> x.value.c in cs && env.key(x.value.c.path) == k && Counts(env, o, base, x.value.c)
  {
    if cs != [] {
      CountingIsCandidate(env, o, base, cs[..|cs| - 1], k);
    }
  }

  /** Whatever is expected under a key is warranted there. */
  lemma ExpectedIsWarranted(lower: Text -> Text, naming: Naming, o: Options, base: seq<Entry>, cs: seq<Candidate>, limits: Limits, k: Text)
    ensures var env := EnvFor(lower, o, naming);
            var w := PolicyFor(env, limits, ExpectedAt(env, o, base, cs, k));
            w.Some? ==> Warranted(lower, naming, o, base, cs, limits, k, w.value)
  {
    var env := EnvFor(lower, o, naming);
    var exp := ExpectedAt(env, o, base, cs, k);
    ExplicitIsEntry(env, base, k);
    CountingIsCandidate(env, o, base, cs, k);
    match exp {
      case Absent =>
      case Explicit(e, path) =>
        if IsOpen(env, o, base, cs, k) {
          ExplicitIsEnabled(env, base, k);
        }
        assert e in base && e.workspace.enabled && Key(lower, e.path) == k == Key(lower, path);
        AccessFollowsKey(lower, e.workspace, path, e.path, o);
        assert WithAutoWriteAccess(lower, e.workspace, path, o).id == e.workspace.id;
      case Discovered(opening) =>
        var c := opening.c;
        AccessFollowsKey(lower, DiscoveredWorkspace(c, limits, opening.id), c.path, c.path, o);
        assert c in cs && Key(lower, c.path) == k;
    }
  }

  lemma AllWarranted(lower: Text -> Text, naming: Naming, o: Options, base: seq<Entry>, cs: seq<Candidate>, limits: Limits,
                     merged: map<Text, Workspace>, keys: seq<Text>, ws: seq<Workspace>)
    requires OrderedMap(merged, keys) && multiset(ws) == multiset(ValuesOf(merged, keys))
    requires var env := EnvFor(lower, o, naming); forall k :: Lookup(merged, k) == PolicyFor(env, limits, ExpectedAt(env, o, base, cs, k))
    ensures forall w :: w in ws ==> exists k :: Warranted(lower, naming, o, base, cs, limits, k, w)
  {
    forall w | w in ws ensures exists k :: Warranted(lower, naming, o, base, cs, limits, k, w) {
      assert w in multiset(ws) && w in ValuesOf(merged, keys);
      var i :| 0 <= i < |keys| && ValuesOf(merged, keys)[i] == w;
      assert Lookup(merged, keys[i]) == Some(w);
      ExpectedIsWarranted(lower, naming, o, base, cs, limits, keys[i]);
    }
  }

  // ---------------------------------------------------------------- what must be listed

  predicate EntryFor(env: Env, base: seq<Entry>, i: int, k: Text) {
    0 <= i < |base| && env.key(base[i].path) == k
  }

  /** The last entry for the key. */
  ghost predicate LastEntry(env: Env, base: seq<Entry>, i: int, k: Text) {
    EntryFor(env, base, i, k) && forall j :: i < j < |base| ==> !EntryFor(env, base, j, k)
  }

  /** The first enabled entry for the key. */
  ghost predicate FirstEnabledEntry(env: Env, base: seq<Entry>, i: int, k: Text) {
    EntryFor(env, base, i, k) && base[i].workspace.enabled && forall j :: 0 <= j < i && EntryFor(env, base, j, k) ==> !base[j].workspace.enabled
  }

  /**
   Candidate `j` opens the key: it is trusted if need be, no entry for the key is disabled, and there
   is an entry for it or the candidate has no technical name.
   */
  ghost predicate Opens(env: Env, o: Options, base: seq<Entry>, cs: seq<Candidate>, j: int, k: Text) {
    && 0 <= j < |cs| && env.key(cs[j].path) == k && (o.requireTrusted ==> cs[j].trusted)
    && (forall i :: EntryFor(env, base, i, k) ==> base[i].workspace.enabled)
    && ((exists i :: EntryFor(env, base, i, k)) || !env.naming.technical(cs[j]))
  }

  ghost predicate LastOpening(env: Env, o: Options, base: seq<Entry>, cs: seq<Candidate>, j: int, k: Text) {
    Opens(env, o, base, cs, j, k) && forall i :: j < i < |cs| ==> !Opens(env, o, base, cs, i, k)
  }

  lemma {:induction false} ExplicitIsLast(env: Env, base: seq<Entry>, k: Text)
    ensures ExplicitAt(env, base, k).None? <==> forall i :: !EntryFor(env, base, i, k)
    ensures forall i :: LastEntry(env, base, i, k) ==> ExplicitAt(env, base, k) == Some(base[i])
  {
    if base != [] {
      var n := |base| - 1;
      ExplicitIsLast(env, base[..n], k);
      assert forall i :: EntryFor(env, base[..n], i, k) <==> i < n && EntryFor(env, base, i, k);
      assert EntryFor(env, base, n, k) <==> env.key(base[n].path) == k;
      forall i | LastEntry(env, base, i, k) ensures ExplicitAt(env, base, k) == Some(base[i]) {
        if i < n {
          assert LastEntry(env, base[..n], i, k);
        }
      }
    }
  }

  lemma {:induction false} EnabledIsFirst(env: Env, base: seq<Entry>, k: Text)
    ensures forall i :: FirstEnabledEntry(env, base, i, k) ==> FirstEnabled(env, base, k) == Some(base[i])
  {
    if base != [] {
      var n := |base| - 1;
      EnabledIsFirst(env, base[..n], k);
      EnabledHasEntry(env, base[..n], k);
      forall i | FirstEnabledEntry(env, base, i, k) ensures FirstEnabled(env, base, k) == Some(base[i]) {
        if i < n {
          assert forall j :: EntryFor(env, base[..n], j, k) ==> j < n && EntryFor(env, base, j, k);
          assert FirstEnabledEntry(env, base[..n], i, k);
        } else {
          assert forall j :: 0 <= j < n && env.key(base[j].path) == k ==> EntryFor(env, base, j, k);
        }
      }
    }
  }

  lemma CountsIff(env: Env, o: Options, base: seq<Entry>, cs: seq<Candidate>, j: nat)
    requires j < |cs|
    ensures Counts(env, o, base, cs[j]) <==> Opens(env, o, base, cs, j, env.key(cs[j].path))
  {
    var k := env.key(cs[j].path);
    DeniedHasEntry(env, base, k);
    ExplicitIsLast(env, base, k);
    assert forall i :: EntryFor(env, base, i, k) <==> 0 <= i < |base| && env.key(base[i].path) == k;
  }

  predicate CountsFor(env: Env, o: Options, base: seq<Entry>, c: Candidate, k: Text) {
    env.key(c.path) == k && Counts(env, o, base, c)
  }

  lemma {:induction false} NoneCounting(env: Env, o: Options, base: seq<Entry>, cs: seq<Candidate>, k: Text, n: nat)
    requires n <= |cs| && forall j :: 0 <= j < n ==> !CountsFor(env, o, base, cs[j], k)
    ensures LastCounting(env, o, base, cs[..n], k).None?
  {
    if n > 0 {
      NoneCounting(env, o, base, cs, k, n - 1);
      LastIsNew(env, o, base, cs, n - 1, k);
    }
  }

  lemma {:induction false} LastCountingAt(env: Env, o: Options, base: seq<Entry>, cs: seq<Candidate>, k: Text, n: nat, j: nat)
    requires j < n <= |cs| && CountsFor(env, o, base, cs[j], k) && forall i :: j < i < n ==> !CountsFor(env, o, base, cs[i], k)
    ensures LastCounting(env, o, base, cs[..n], k) == Some(Opening(cs[j], IdFor(env, cs[j], UsedIds(env, o, base, cs[..j]))))
  {
    LastIsNew(env, o, base, cs, n - 1, k);
    if j < n - 1 {
      LastCountingAt(env, o, base, cs, k, n - 1, j);
    }
  }

  lemma {:induction false} LastOf(env: Env, o: Options, base: seq<Entry>, cs: seq<Candidate>, k: Text, n: nat) returns (j: int)
    requires n <= |cs|
    ensures j < n && (j >= 0 ==> CountsFor(env, o, base, cs[j], k)) && forall i :: 0 <= i && j < i < n ==> !CountsFor(env, o, base, cs[i], k)
  {
    j := -1;
    if n > 0 {
      j := if CountsFor(env, o, base, cs[n - 1], k) then n - 1 else -1;
      if j < 0 {
        j := LastOf(env, o, base, cs, k, n - 1);
      }
    }
  }

  /** What is found under a key: the candidate that opens it last, the entry that counts, the entry to expose. */
  lemma FoundUnder(env: Env, o: Options, base: seq<Entry>, cs: seq<Candidate>, k: Text)
    ensures LastCounting(env, o, base, cs, k).None? <==> forall j :: !Opens(env, o, base, cs, j, k)
    ensures forall j :: LastOpening(env, o, base, cs, j, k) ==>
              LastCounting(env, o, base, cs, k) == Some(Opening(cs[j], IdFor(env, cs[j], UsedIds(env, o, base, cs[..j]))))
    ensures FirstEnabled(env, base, k).None? <==> forall i :: EntryFor(env, base, i, k) ==> !base[i].workspace.enabled
  {
    forall j ensures Opens(env, o, base, cs, j, k) <==> 0 <= j < |cs| && CountsFor(env, o, base, cs[j], k) {
      if 0 <= j < |cs| {
        CountsIff(env, o, base, cs, j);
      }
    }
    assert cs[..|cs|] == cs;
    var last := LastOf(env, o, base, cs, k, |cs|);
    if last < 0 {
      NoneCounting(env, o, base, cs, k, |cs|);
    } else {
      LastCountingAt(env, o, base, cs, k, |cs|, last);
      assert forall j :: LastOpening(env, o, base, cs, j, k) ==> j == last;
    }
    EnabledHasEntry(env, base, k);
    assert forall i :: EntryFor(env, base, i, k) <==> 0 <= i < |base| && env.key(base[i].path) == k;
  }

  /** Some candidate opens the key. */
  ghost predicate IsOpened(env: Env, o: Options, base: seq<Entry>, cs: seq<Candidate>, k: Text) {
    o.includeOpen && exists j :: Opens(env, o, base, cs, j, k)
  }

  /** Some entry for the key is enabled. */
  ghost predicate HasEnabled(env: Env, base: seq<Entry>, k: Text) {
    exists i :: EntryFor(env, base, i, k) && base[i].workspace.enabled
  }

  /**
   What is listed under a key, by quantifiers over entries and candidates alone. Open: the last entry
   for the key if there is one, else the last candidate that opens it. Not open, but always exposed:
   the first enabled entry. Nothing in any other case.
   */
  lemma ListedExactly(env: Env, o: Options, base: seq<Entry>, cs: seq<Candidate>, limits: Limits, k: Text)
    ensures PolicyFor(env, limits, ExpectedAt(env, o, base, cs, k)).None? <==>
            !IsOpened(env, o, base, cs, k) && !(o.alwaysExpose && HasEnabled(env, base, k))
    ensures forall i, j :: o.includeOpen && LastOpening(env, o, base, cs, j, k) && LastEntry(env, base, i, k) ==>
              PolicyFor(env, limits, ExpectedAt(env, o, base, cs, k)) == Some(env.grant(base[i].workspace, cs[j].path))
    ensures forall j :: o.includeOpen && LastOpening(env, o, base, cs, j, k) && (forall i :: !EntryFor(env, base, i, k)) ==>
              PolicyFor(env, limits, ExpectedAt(env, o, base, cs, k)) ==
              Some(env.grant(DiscoveredWorkspace(cs[j], limits, IdFor(env, cs[j], UsedIds(env, o, base, cs[..j]))), cs[j].path))
    ensures forall i :: !IsOpened(env, o, base, cs, k) && o.alwaysExpose && FirstEnabledEntry(env, base, i, k) ==>
              PolicyFor(env, limits, ExpectedAt(env, o, base, cs, k)) == Some(env.grant(base[i].workspace, base[i].path))
  {
    FoundUnder(env, o, base, cs, k);
    ExplicitIsLast(env, base, k);
    EnabledIsFirst(env, base, k);
  }

  /** A workspace must be listed under the key, and nothing may be otherwise. */
  ghost predicate MustList(env: Env, o: Options, base: seq<Entry>, cs: seq<Candidate>, k: Text) {
    IsOpened(env, o, base, cs, k) || (o.alwaysExpose && HasEnabled(env, base, k))
  }

  lemma AllListed(env: Env, o: Options, base: seq<Entry>, cs: seq<Candidate>)
    ensures forall k :: ExpectedAt(env, o, base, cs, k).Absent? <==> !MustList(env, o, base, cs, k)
  {
    forall k ensures ExpectedAt(env, o, base, cs, k).Absent? <==> !MustList(env, o, base, cs, k) {
      ListedExactly(env, o, base, cs, map[], k);
    }
  }

  /**
   When the first id of a candidate counts as taken: certainly if a base entry has it or an earlier
   candidate, listed on its own account, had the same first id; and only if it is an id of a base
   entry or one of the two ids of an earlier candidate.
   */
  lemma {:induction false} TakenIds(env: Env, o: Options, base: seq<Entry>, cs: seq<Candidate>, id: Text)
    ensures (exists e :: e in base && e.workspace.id == id) ==> id in UsedIds(env, o, base, cs)
    ensures (exists c :: c in cs && Creates(env, o, base, c) && env.naming.firstId(c) == id) ==> id in UsedIds(env, o, base, cs)
    ensures id in UsedIds(env, o, base, cs) ==>
              (exists e :: e in base && e.workspace.id == id) ||
              (exists c :: c in cs && Creates(env, o, base, c) && (env.naming.firstId(c) == id || env.naming.otherId(c) == id))
  {
    if cs != [] {
      TakenIds(env, o, base, cs[..|cs| - 1], id);
      var c := cs[|cs| - 1];
      assert forall x :: x in cs <==> x in cs[..|cs| - 1] || x == c;
      assert c in cs;
    }
  }

  /**
   The id of a candidate listed on its own account: the other one if the first is the id of a base
   entry or was the first of an earlier such candidate, the first one if nothing earlier has it.
   */
  lemma IdIs(env: Env, o: Options, base: seq<Entry>, earlier: seq<Candidate>, c: Candidate)
    ensures (exists e :: e in base && e.workspace.id == env.naming.firstId(c)) ||
            (exists d :: d in earlier && Creates(env, o, base, d) && env.naming.firstId(d) == env.naming.firstId(c)) ==>
              IdFor(env, c, UsedIds(env, o, base, earlier)) == env.naming.otherId(c)
    ensures (forall e :: e in base ==> e.workspace.id != env.naming.firstId(c)) &&
            (forall d :: d in earlier ==> env.naming.firstId(d) != env.naming.firstId(c) && env.naming.otherId(d) != env.naming.firstId(c)) ==>
              IdFor(env, c, UsedIds(env, o, base, earlier)) == env.naming.firstId(c)
  {
    TakenIds(env, o, base, earlier, env.naming.firstId(c));
  }

  /** The grant changes neither id nor name nor root. */
  ghost predicate KeepsNames(env: Env) {
    forall w, p :: var g := env.grant(w, p); g.id == w.id && g.name == w.name && g.rootPath == w.rootPath
  }

  /** An enabled row for the key. */
  ghost predicate Rowed(env: Env, rows: seq<Row>, k: Text) {
    exists row :: row in rows && row.enabled && env.key(row.path) == k
  }

  /** An enabled row for the key that names the workspace. */
  ghost predicate Names(env: Env, rows: seq<Row>, k: Text, w: Workspace) {
    exists row :: row in rows && row.enabled && env.key(row.path) == k && row.id == w.id && row.name == w.name && row.rootPath == w.rootPath
  }

  lemma {:induction false} OpenRowsFollow(env: Env, o: Options, limits: Limits, base: seq<Entry>, cs: seq<Candidate>, k: Text)
    requires KeepsNames(env)
    ensures Rowed(env, OpenRows(env, o, limits, base, cs), k) <==> !Opened(env, o, base, cs, k).Absent?
    ensures var w := PolicyFor(env, limits, Opened(env, o, base, cs, k)); w.Some? ==> Names(env, OpenRows(env, o, limits, base, cs), k, w.value)
  {
    if cs != [] {
      var c, earlier := cs[|cs| - 1], cs[..|cs| - 1];
      OpenRowsFollow(env, o, limits, base, earlier, k);
      var opening := Opening(c, IdFor(env, c, UsedIds(env, o, base, earlier)));
      var row, rows := OpenRow(env, limits, base, opening), OpenRows(env, o, limits, base, earlier);
      assert row.enabled && row.path == c.path;
      if Counts(env, o, base, c) {
        MoreRows(env, rows, row, k);
        assert row in rows + [row];
      }
    }
  }

  lemma MoreRows(env: Env, rows: seq<Row>, row: Row, k: Text)
    requires row.enabled
    ensures Rowed(env, rows + [row], k) <==> Rowed(env, rows, k) || env.key(row.path) == k
    ensures forall w :: Names(env, rows, k, w) ==> Names(env, rows + [row], k, w)
  {
    assert forall x :: x in rows + [row] <==> x in rows || x == row;
    assert row in rows + [row];
  }

  lemma {:induction false} ExposedRowsFollow(env: Env, o: Options, base: seq<Entry>, cs: seq<Candidate>, n: nat, k: Text)
    requires n <= |base| && KeepsNames(env)
    ensures Rowed(env, ExposedRows(env, o, base, cs, n), k) <==> !IsOpen(env, o, base, cs, k) && FirstEnabled(env, base[..n], k).Some?
    ensures !IsOpen(env, o, base, cs, k) && FirstEnabled(env, base[..n], k).Some? ==>
              Names(env, ExposedRows(env, o, base, cs, n), k, FirstEnabled(env, base[..n], k).value.workspace)
  {
    if n > 0 {
      var e := base[n - 1];
      ExposedRowsFollow(env, o, base, cs, n - 1, k);
      OneMoreEntry(env, base, n - 1, k);
      var row := RowOf(ExplicitSource, e.workspace, e.path, true);
      MoreRows(env, ExposedRows(env, o, base, cs, n - 1), row, k);
      assert row in ExposedRows(env, o, base, cs, n - 1) + [row];
    }
  }

  lemma {:induction false} DenyRowsAreDisabled(base: seq<Entry>)
    ensures forall row :: row in DenyRows(base) ==> !row.enabled
  {
    if base != [] {
      DenyRowsAreDisabled(base[..|base| - 1]);
    }
  }

  /**
   The catalog has an enabled row for a key exactly when a workspace is listed under it, and one of
   these rows names that workspace. (Repeated candidates leave further rows.)
   */
  lemma CatalogFollows(env: Env, o: Options, limits: Limits, base: seq<Entry>, cs: seq<Candidate>, k: Text)
    requires KeepsNames(env)
    ensures Rowed(env, Catalog(env, o, limits, base, cs), k) <==> !ExpectedAt(env, o, base, cs, k).Absent?
    ensures var w := PolicyFor(env, limits, ExpectedAt(env, o, base, cs, k)); w.Some? ==> Names(env, Catalog(env, o, limits, base, cs), k, w.value)
  {
    OpenRowsFollow(env, o, limits, base, cs, k);
    ExposedRowsFollow(env, o, base, cs, |base|, k);
    DenyRowsAreDisabled(base);
    assert base[..|base|] == base;
    var a, b := if o.includeOpen then OpenRows(env, o, limits, base, cs) else [], if o.alwaysExpose then ExposedRows(env, o, base, cs, |base|) else [];
    assert forall row :: row in Catalog(env, o, limits, base, cs) <==> row in DenyRows(base) || row in a || row in b;
  }

  /** The rows of the catalog: one for each disabled entry, and enabled ones for entries and candidates. */
  lemma CatalogRows(env: Env, o: Options, limits: Limits, base: seq<Entry>, cs: seq<Candidate>, row: Row)
    requires KeepsNames(env)
    ensures row in Catalog(env, o, limits, base, cs) && !row.enabled <==>
            exists e :: e in base && !e.workspace.enabled &&
                        row == Row(DenyIndex, e.workspace.id, e.workspace.name, e.workspace.rootPath, e.path, true, false)
    ensures row in Catalog(env, o, limits, base, cs) && row.enabled ==>
              || (exists e :: e in base && row == Row(ExplicitSource, e.workspace.id, e.workspace.name, e.workspace.rootPath, e.path, true, true))
              || (exists c, e :: c in cs && e in base && env.key(e.path) == env.key(c.path) &&
                                 row == Row(ExplicitSource, e.workspace.id, e.workspace.name, e.workspace.rootPath, c.path, c.trusted, true))
              || (exists c, id :: c in cs && (forall e :: e in base ==> env.key(e.path) != env.key(c.path)) &&
                                  row == Row(DiscoveredSource, id, c.name, c.rootPath, c.path, c.trusted, true))
  {
    DenyRowsAre(base, row);
    OpenRowsAre(env, o, limits, base, cs, row);
    ExposedRowsAre(env, o, base, cs, |base|, row);
    var a, b := if o.includeOpen then OpenRows(env, o, limits, base, cs) else [], if o.alwaysExpose then ExposedRows(env, o, base, cs, |base|) else [];
    assert row in Catalog(env, o, limits, base, cs) <==> row in DenyRows(base) || row in a || row in b;
  }

  lemma {:induction false} DenyRowsAre(base: seq<Entry>, row: Row)
    ensures row in DenyRows(base) <==>
            exists e :: e in base && !e.workspace.enabled &&
                        row == Row(DenyIndex, e.workspace.id, e.workspace.name, e.workspace.rootPath, e.path, true, false)
  {
    if base != [] {
      DenyRowsAre(base[..|base| - 1], row);
      assert forall e :: e in base <==> e in base[..|base| - 1] || e == base[|base| - 1];
    }
  }

  lemma {:induction false} OpenRowsAre(env: Env, o: Options, limits: Limits, base: seq<Entry>, cs: seq<Candidate>, row: Row)
    requires KeepsNames(env)
    ensures row in OpenRows(env, o, limits, base, cs) ==> row.enabled
    ensures row in OpenRows(env, o, limits, base, cs) ==>
            ((exists c, e :: c in cs && e in base && env.key(e.path) == env.key(c.path) &&
                             row == Row(ExplicitSource, e.workspace.id, e.workspace.name, e.workspace.rootPath, c.path, c.trusted, true)) ||
             (exists c, id :: c in cs && (forall e :: e in base ==> env.key(e.path) != env.key(c.path)) &&
                              row == Row(DiscoveredSource, id, c.name, c.rootPath, c.path, c.trusted, true)))
  {
    if cs != [] {
      var c, earlier := cs[|cs| - 1], cs[..|cs| - 1];
      OpenRowsAre(env, o, limits, base, earlier, row);
      assert c in cs && forall x :: x in earlier ==> x in cs;
      ExplicitIsEntry(env, base, env.key(c.path));
      var opening := Opening(c, IdFor(env, c, UsedIds(env, o, base, earlier)));
      if row == OpenRow(env, limits, base, opening) && ExplicitAt(env, base, env.key(c.path)).None? {
        assert row == Row(DiscoveredSource, opening.id, c.name, c.rootPath, c.path, c.trusted, true);
      }
    }
  }

  lemma {:induction false} ExposedRowsAre(env: Env, o: Options, base: seq<Entry>, cs: seq<Candidate>, n: nat, row: Row)
    requires n <= |base|
    ensures row in ExposedRows(env, o, base, cs, n) ==> row.enabled
    ensures row in ExposedRows(env, o, base, cs, n) ==>
            exists e :: e in base && row == Row(ExplicitSource, e.workspace.id, e.workspace.name, e.workspace.rootPath, e.path, true, true)
  {
    if n > 0 {
      ExposedRowsAre(env, o, base, cs, n - 1, row);
      assert base[n - 1] in base;
    }
  }

  lemma GrantKeepsNames(lower: Text -> Text, o: Options, naming: Naming)
    ensures KeepsNames(EnvFor(lower, o, naming))
  {
  }

  ghost predicate TotalPreorder(before: (Text, Text) -> bool) {
    && (forall a, b :: before(a, b) || before(b, a))
    && (forall a, b, c :: before(a, b) && before(b, c) ==> before(a, c))
  }

  ghost predicate SortedById(before: (Text, Text) -> bool, ws: seq<Workspace>) {
    forall i, j :: 0 <= i < j < |ws| ==> before(ws[i].id, ws[j].id)
  }

  lemma {:induction false} InsertIsSorted(before: (Text, Text) -> bool, w: Workspace, sorted: seq<Workspace>)
    requires TotalPreorder(before) && SortedById(before, sorted)
    ensures SortedById(before, InsertById(before, w, sorted))
  {
    if sorted != [] {
      var first, rest := sorted[0], sorted[1..];
      if before(w.id, first.id) {
        forall x | x in sorted ensures before(w.id, x.id) {
          var j :| 0 <= j < |sorted| && sorted[j] == x;
          assert j > 0 ==> before(first.id, sorted[j].id);
        }
        SortedCons(before, w, sorted);
      } else {
        InsertIsSorted(before, w, rest);
        var inserted := InsertById(before, w, rest);
        forall x | x in inserted ensures before(first.id, x.id) {
          assert x in multiset(inserted);
          if x in rest {
            var j :| 0 <= j < |rest| && rest[j] == x;
            assert before(sorted[0].id, sorted[j + 1].id);
          }
        }
        SortedCons(before, first, inserted);
      }
    }
  }

  lemma SortedCons(before: (Text, Text) -> bool, w: Workspace, sorted: seq<Workspace>)
    requires SortedById(before, sorted) && forall x :: x in sorted ==> before(w.id, x.id)
    ensures SortedById(before, [w] + sorted)
  {
  }

  /** The list of workspaces comes out in the order of their ids. */
  lemma {:induction false} SortIsSorted(before: (Text, Text) -> bool, ws: seq<Workspace>)
    requires TotalPreorder(before)
    ensures SortedById(before, SortById(before, ws))
  {
    if ws != [] {
      SortIsSorted(before, ws[1..]);
      InsertIsSorted(before, ws[0], SortById(before, ws[1..]));
    }
  }
}
