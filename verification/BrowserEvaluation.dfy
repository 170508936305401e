/** Sanitising a value that came back from a page: any object graph, cyclic ones included. */
module BrowserEvaluation {
  import opened Common
  import opened Texts

  const MAX_NODES := 5000
  const MAX_DEPTH := 12
  const MAX_ENTRIES := 1000
  const MAX_KEY := 200
  const REDACTED: Text := Ascii("[redacted]")

  // ---------------------------------------------------------------- values

  type Id = nat

  /** A JavaScript value; objects are references into a graph. `Other` is a function, symbol or big integer. */
  datatype Value = Undefined | Null | Bool(b: bool) | Number(n: real) | Str(s: Text) | Other | Ref(id: Id)

  datatype Property = Property(key: Text, value: Value)

  datatype Object = Arr(items: seq<Value>) | Record(properties: seq<Property>)

  type Graph = map<Id, Object>

  predicate Closed(g: Graph, v: Value) {
    v.Ref? ==> v.id in g
  }

  /** References stay inside the graph. */
  predicate ClosedGraph(g: Graph) {
    forall id :: id in g ==>
      match g[id]
      case Arr(items) => forall i :: 0 <= i < |items| ==> Closed(g, items[i])
      case Record(ps) => forall i :: 0 <= i < |ps| ==> Closed(g, ps[i].value)
  }

  /** Sanitised data: a finite tree. */
  datatype Clean = Scalar(v: Value) | Text(s: Text) | List(items: seq<Clean>) | Fields(fields: map<Text, Clean>)

  /** String redaction and the test for private names. */
  datatype Rules = Rules(redact: Text -> Text, isPrivate: Text -> bool)

  function FoldUnit(u: CodeUnit): CodeUnit {
    if 0x41 <= u <= 0x5A then u + 0x20
    else if u == 0x017F then 0x73   // long s folds to s
    else if u == 0x212A then 0x6B   // the Kelvin sign folds to k
    else u
  }

  function Fold(t: Text): (r: Text)
    ensures |r| == |t|
  {
    seq(|t|, i requires 0 <= i < |t| => FoldUnit(t[i]))
  }

  /** The case-insensitive pattern for private field names. */
  predicate PrivateField(key: Text) {
    exists name :: name in ["password", "passwd", "secret", "token", "accesstoken", "refreshtoken", "authorization",
                            "cookie", "session", "privatekey", "clientsecret"] && Fold(key) == Ascii(name)
  }

  // ---------------------------------------------------------------- the specification

  /** One visit, or the reason why a visit fails for being too deep or too wide. */
  datatype Step = At(v: Value) | TooDeep | TooWide

  function Entries(o: Object): nat {
    match o case Arr(items) => |items| case Record(ps) => |ps|
  }

  /** The unfolding of the graph from `v`, `fuel` levels deep, in the order it is visited. */
  function Walk(rules: Rules, g: Graph, v: Value, fuel: nat): seq<Step>
    decreases fuel, 0, 1
  {
    if fuel == 0 then [TooDeep]
    else if v.Ref? && v.id in g then [At(v)] + WalkInside(rules, g, g[v.id], fuel - 1)
    else [At(v)]
  }

  function WalkInside(rules: Rules, g: Graph, o: Object, fuel: nat): seq<Step>
    decreases fuel, 2, 0
  {
    if Entries(o) > MAX_ENTRIES then [TooWide]
    else match o
         case Arr(items) => WalkItems(rules, g, items, fuel)
         case Record(ps) => WalkProperties(rules, g, ps, fuel)
  }

  function WalkItems(rules: Rules, g: Graph, vs: seq<Value>, fuel: nat): seq<Step>
    decreases fuel, 1, |vs|
  {
    if vs == [] then []
    else WalkItems(rules, g, vs[..|vs| - 1], fuel) + Walk(rules, g, vs[|vs| - 1], fuel)
  }

  function WalkProperties(rules: Rules, g: Graph, ps: seq<Property>, fuel: nat): seq<Step>
    decreases fuel, 1, |ps|
  {
    if ps == [] then []
    else WalkProperties(rules, g, ps[..|ps| - 1], fuel) + PropertySteps(rules, g, ps[|ps| - 1], fuel)
  }

  /** A property with a private name is not visited. */
  function PropertySteps(rules: Rules, g: Graph, p: Property, fuel: nat): seq<Step>
    decreases fuel, 0, 2
  {
    if rules.isPrivate(p.key) then [] else Walk(rules, g, p.value, fuel)
  }

  function IdOf(step: Step): set<Id> {
    if step.At? && step.v.Ref? then {step.v.id} else {}
  }

  function Ids(steps: seq<Step>): set<Id> {
    if steps == [] then {} else IdOf(steps[0]) + Ids(steps[1..])
  }

  /** The visits go through one after the other, after `nodes` visits that saw the objects in `seen`. */
  predicate Goes(steps: seq<Step>, nodes: nat, seen: set<Id>) {
    steps == [] ||
    (steps[0].At? && nodes + 1 <= MAX_NODES && IdOf(steps[0]) !! seen && Goes(steps[1..], nodes + 1, seen + IdOf(steps[0])))
  }

  lemma {:induction false} GoesConcat(a: seq<Step>, b: seq<Step>, nodes: nat, seen: set<Id>)
    ensures Ids(a + b) == Ids(a) + Ids(b)
    ensures Goes(a + b, nodes, seen) <==> Goes(a, nodes, seen) && Goes(b, nodes + |a|, seen + Ids(a))
  {
    if a == [] {
      assert a + b == b && seen + Ids(a) == seen;
    } else {
      assert (a + b)[0] == a[0] && (a + b)[1..] == a[1..] + b;
      GoesConcat(a[1..], b, nodes + 1, seen + IdOf(a[0]));
      assert seen + IdOf(a[0]) + Ids(a[1..]) == seen + Ids(a);
    }
  }

  /** No two visits are of the same object. */
  predicate Distinct(steps: seq<Step>) {
    forall i, j :: 0 <= i < j < |steps| ==> IdOf(steps[i]) !! IdOf(steps[j])
  }

  lemma {:induction false} IdsAre(steps: seq<Step>, id: Id)
    ensures id in Ids(steps) <==> exists i :: 0 <= i < |steps| && id in IdOf(steps[i])
  {
    if steps != [] {
      IdsAre(steps[1..], id);
      if id in Ids(steps[1..]) {
        var i :| 0 <= i < |steps[1..]| && id in IdOf(steps[1..][i]);
        assert steps[i + 1] == steps[1..][i];
      }
      if i :| 0 <= i < |steps| && id in IdOf(steps[i]) && i > 0 {
        assert steps[1..][i - 1] == steps[i];
      }
    }
  }

  /** They go through exactly when none is refused, they are few enough, and all objects are new. */
  lemma {:induction false} GoesIff(steps: seq<Step>, nodes: nat, seen: set<Id>)
    ensures Goes(steps, nodes, seen) <==>
            && (forall i :: 0 <= i < |steps| ==> steps[i].At?)
            && (steps == [] || nodes + |steps| <= MAX_NODES) && Distinct(steps) && Ids(steps) !! seen
  {
    if steps != [] {
      var first, rest := steps[0], steps[1..];
      GoesIff(rest, nodes + 1, seen + IdOf(first));
      assert forall i :: 0 < i < |steps| ==> steps[i] == rest[i - 1];
      assert (forall i :: 0 <= i < |steps| ==> steps[i].At?) <==> first.At? && forall i :: 0 <= i < |rest| ==> rest[i].At?;
      DistinctCons(steps);
      assert Ids(steps) !! seen <==> IdOf(first) !! seen && Ids(rest) !! seen;
    }
  }

  lemma DistinctCons(steps: seq<Step>)
    requires steps != []
    ensures Distinct(steps) <==> Distinct(steps[1..]) && IdOf(steps[0]) !! Ids(steps[1..])
  {
    var first, rest := steps[0], steps[1..];
    assert forall i :: 0 < i < |steps| ==> steps[i] == rest[i - 1];
    if first.At? && first.v.Ref? {
      IdsAre(rest, first.v.id);
    }
    if Distinct(steps) {
      forall i, j | 0 <= i < j < |rest| ensures IdOf(rest[i]) !! IdOf(rest[j]) {
        assert rest[i] == steps[i + 1] && rest[j] == steps[j + 1];
      }
      forall i | 0 <= i < |rest| ensures IdOf(first) !! IdOf(rest[i]) {
        assert rest[i] == steps[i + 1];
      }
    }
  }

  /** `key.slice(0, 200)`. */
  function Shortened(key: Text): (r: Text)
    ensures r <= key && |r| == if |key| < 200 then |key| else 200
  {
    if |key| > MAX_KEY then key[..MAX_KEY] else key
  }

  /** The sanitised form of a value whose unfolding fits in `fuel` levels. */
  function Image(rules: Rules, g: Graph, v: Value, fuel: nat): Clean
    decreases fuel, 0, 1
  {
    match v
    case Str(s) => Text(rules.redact(s))
    case Other => Scalar(Null)
    case Ref(id) =>
      if fuel == 0 || id !in g then Scalar(Null)
      else
        (match g[id]
         case Arr(items) => List(ImageOfItems(rules, g, items, fuel - 1))
         case Record(ps) => Fields(ImageOfProperties(rules, g, ps, fuel - 1)))
    case _ => Scalar(v)
  }

  function ImageOfItems(rules: Rules, g: Graph, vs: seq<Value>, fuel: nat): seq<Clean>
    decreases fuel, 1, |vs|
  {
    if vs == [] then []
    else ImageOfItems(rules, g, vs[..|vs| - 1], fuel) + [Image(rules, g, vs[|vs| - 1], fuel)]
  }

  /** A property with a private name is replaced. */
  function PropertyImage(rules: Rules, g: Graph, p: Property, fuel: nat): Clean
    decreases fuel, 0, 2
  {
    if rules.isPrivate(p.key) then Text(REDACTED) else Image(rules, g, p.value, fuel)
  }

  /** `Object.fromEntries`: of two properties whose shortened names agree, the later one wins. */
  function ImageOfProperties(rules: Rules, g: Graph, ps: seq<Property>, fuel: nat): map<Text, Clean>
    decreases fuel, 1, |ps|
  {
    if ps == [] then map[]
    else
      var p := ps[|ps| - 1];
      ImageOfProperties(rules, g, ps[..|ps| - 1], fuel)[Shortened(p.key) := PropertyImage(rules, g, p, fuel)]
  }

  /** One more item is walked after the others. */
  lemma {:induction false} OneMoreItem(rules: Rules, g: Graph, vs: seq<Value>, i: nat, fuel: nat)
    requires i < |vs|
    ensures WalkItems(rules, g, vs[..i + 1], fuel) == WalkItems(rules, g, vs[..i], fuel) + Walk(rules, g, vs[i], fuel)
    ensures ImageOfItems(rules, g, vs[..i + 1], fuel) == ImageOfItems(rules, g, vs[..i], fuel) + [Image(rules, g, vs[i], fuel)]
  {
    assert vs[..i + 1][..i] == vs[..i];
  }

  lemma {:induction false} OneMoreProperty(rules: Rules, g: Graph, ps: seq<Property>, i: nat, fuel: nat)
    requires i < |ps|
    ensures WalkProperties(rules, g, ps[..i + 1], fuel) == WalkProperties(rules, g, ps[..i], fuel) + PropertySteps(rules, g, ps[i], fuel)
    ensures ImageOfProperties(rules, g, ps[..i + 1], fuel) ==
            ImageOfProperties(rules, g, ps[..i], fuel)[Shortened(ps[i].key) := PropertyImage(rules, g, ps[i], fuel)]
  {
    assert ps[..i + 1][..i] == ps[..i];
  }

  /** What does not go through up to some point does not go through as a whole. */
  lemma {:induction false} ItemsFail(rules: Rules, g: Graph, vs: seq<Value>, i: nat, fuel: nat, nodes: nat, seen: set<Id>)
    requires i <= |vs| && !Goes(WalkItems(rules, g, vs[..i], fuel), nodes, seen)
    ensures !Goes(WalkItems(rules, g, vs, fuel), nodes, seen)
    decreases |vs| - i
  {
    if i == |vs| {
      assert vs[..i] == vs;
    } else {
      OneMoreItem(rules, g, vs, i, fuel);
      GoesConcat(WalkItems(rules, g, vs[..i], fuel), Walk(rules, g, vs[i], fuel), nodes, seen);
      ItemsFail(rules, g, vs, i + 1, fuel, nodes, seen);
    }
  }

  lemma {:induction false} PropertiesFail(rules: Rules, g: Graph, ps: seq<Property>, i: nat, fuel: nat, nodes: nat, seen: set<Id>)
    requires i <= |ps| && !Goes(WalkProperties(rules, g, ps[..i], fuel), nodes, seen)
    ensures !Goes(WalkProperties(rules, g, ps, fuel), nodes, seen)
    decreases |ps| - i
  {
    if i == |ps| {
      assert ps[..i] == ps;
    } else {
      OneMoreProperty(rules, g, ps, i, fuel);
      GoesConcat(WalkProperties(rules, g, ps[..i], fuel), PropertySteps(rules, g, ps[i], fuel), nodes, seen);
      PropertiesFail(rules, g, ps, i + 1, fuel, nodes, seen);
    }
  }

  /** The first visit, of an object or of anything else, and the rest. */
  lemma GoesFirst(v: Value, rest: seq<Step>, nodes: nat, seen: set<Id>)
    ensures Goes([At(v)] + rest, nodes, seen) <==>
            nodes + 1 <= MAX_NODES && IdOf(At(v)) !! seen && Goes(rest, nodes + 1, seen + IdOf(At(v)))
    ensures Ids([At(v)] + rest) == IdOf(At(v)) + Ids(rest)
  {
    assert ([At(v)] + rest)[1..] == rest;
  }

  /** The steps went through, taking the counter and the seen objects from `n, s` to `n', s'`. */
  ghost predicate Done(steps: seq<Step>, n: nat, s: set<Id>, n': nat, s': set<Id>) {
    Goes(steps, n, s) && n' == n + |steps| && s' == s + Ids(steps)
  }

  lemma DoneConcat(a: seq<Step>, n: nat, s: set<Id>, n': nat, s': set<Id>, b: seq<Step>)
    requires Done(a, n, s, n', s')
    ensures Goes(a + b, n, s) <==> Goes(b, n', s')
    ensures Goes(b, n', s') ==> Done(a + b, n, s, n' + |b|, s' + Ids(b))
  {
    GoesConcat(a, b, n, s);
    assert s + Ids(a) + Ids(b) == s + (Ids(a) + Ids(b));
  }

  class Sanitizer {
    const rules: Rules
    const graph: Graph
    var nodes: nat
    var seen: set<Id>

    constructor (rules: Rules, graph: Graph)
      ensures this.rules == rules && this.graph == graph && nodes == 0 && seen == {}
    {
      this.rules, this.graph, nodes, seen := rules, graph, 0, {};
    }

    /** Succeeds exactly when the walk goes through; then it has been counted and its objects seen. */
    method Visit(current: Value, depth: nat) returns (r: Result<Clean>)
      requires ClosedGraph(graph) && Closed(graph, current) && depth <= MAX_DEPTH + 1
      modifies this
      ensures var steps := Walk(rules, graph, current, MAX_DEPTH + 1 - depth);
              && (r.Ok? <==> Goes(steps, old(nodes), old(seen)))
              && (r.Ok? ==> nodes == old(nodes) + |steps| && seen == old(seen) + Ids(steps) &&
                            r.value == Image(rules, graph, current, MAX_DEPTH + 1 - depth))
      decreases MAX_DEPTH + 1 - depth, 0
    {
      nodes := nodes + 1;
      if nodes > MAX_NODES || depth > MAX_DEPTH {
        return Err;
      }
      GoesFirst(current, [], old(nodes), old(seen));
      assert [At(current)] + [] == [At(current)];
      match current {
        case Ref(id) =>
          if id in seen {
            return Err;
          }
          seen := seen + {id};
          r := VisitObject(id, depth);
          GoesFirst(current, WalkInside(rules, graph, graph[id], MAX_DEPTH - depth), old(nodes), old(seen));
        case Str(s) => r := Ok(Text(rules.redact(s)));
        case Other => r := Ok(Scalar(Null));
        case _ => r := Ok(Scalar(current));
      }
    }

    /** The part of a visit that looks inside an object. */
    method VisitObject(id: Id, depth: nat) returns (r: Result<Clean>)
      requires ClosedGraph(graph) && id in graph && depth <= MAX_DEPTH
      modifies this
      ensures var steps := WalkInside(rules, graph, graph[id], MAX_DEPTH - depth);
              && (r.Ok? <==> Goes(steps, old(nodes), old(seen)))
              && (r.Ok? ==> Done(steps, old(nodes), old(seen), nodes, seen) &&
                            r.value == Image(rules, graph, Ref(id), MAX_DEPTH + 1 - depth))
      decreases MAX_DEPTH - depth, 4
    {
      var node := graph[id];
      if Entries(node) > MAX_ENTRIES {
        return Err;
      }
      match node {
        case Arr(items) =>
          var list := VisitItems(items, depth + 1);
          r := match list case Ok(x) => Ok(List(x)) case Err => Err;
        case Record(properties) =>
          var fields := VisitProperties(properties, depth + 1);
          r := match fields case Ok(x) => Ok(Fields(x)) case Err => Err;
      }
    }

    /** A visit that continues `steps`, the ones made since the counter was `n` and the objects `s`. */
    method VisitNext(current: Value, depth: nat, ghost steps: seq<Step>, ghost n: nat, ghost s: set<Id>) returns (r: Result<Clean>)
      requires ClosedGraph(graph) && Closed(graph, current) && depth <= MAX_DEPTH + 1 && Done(steps, n, s, nodes, seen)
      modifies this
      ensures var more := steps + Walk(rules, graph, current, MAX_DEPTH + 1 - depth);
              && (r.Ok? <==> Goes(more, n, s))
              && (r.Ok? ==> Done(more, n, s, nodes, seen) && r.value == Image(rules, graph, current, MAX_DEPTH + 1 - depth))
      decreases MAX_DEPTH + 1 - depth, 1
    {
      DoneConcat(steps, n, s, nodes, seen, Walk(rules, graph, current, MAX_DEPTH + 1 - depth));
      r := Visit(current, depth);
    }

    method VisitProperty(p: Property, depth: nat, ghost steps: seq<Step>, ghost n: nat, ghost s: set<Id>) returns (r: Result<Clean>)
      requires ClosedGraph(graph) && Closed(graph, p.value) && depth <= MAX_DEPTH + 1 && Done(steps, n, s, nodes, seen)
      modifies this
      ensures var more := steps + PropertySteps(rules, graph, p, MAX_DEPTH + 1 - depth);
              && (r.Ok? <==> Goes(more, n, s))
              && (r.Ok? ==> Done(more, n, s, nodes, seen) && r.value == PropertyImage(rules, graph, p, MAX_DEPTH + 1 - depth))
      decreases MAX_DEPTH + 1 - depth, 2
    {
      if rules.isPrivate(p.key) {
        assert steps + [] == steps;
        r := Ok(Text(REDACTED));
      } else {
        r := VisitNext(p.value, depth, steps, n, s);
      }
    }

    method VisitItems(items: seq<Value>, depth: nat) returns (r: Result<seq<Clean>>)
      requires ClosedGraph(graph) && depth <= MAX_DEPTH + 1 && forall i :: 0 <= i < |items| ==> Closed(graph, items[i])
      modifies this
      ensures var steps := WalkItems(rules, graph, items, MAX_DEPTH + 1 - depth);
              && (r.Ok? <==> Goes(steps, old(nodes), old(seen)))
              && (r.Ok? ==> Done(steps, old(nodes), old(seen), nodes, seen) &&
                            r.value == ImageOfItems(rules, graph, items, MAX_DEPTH + 1 - depth))
      decreases MAX_DEPTH + 1 - depth, 3
    {
      ghost var fuel, n, s := MAX_DEPTH + 1 - depth, nodes, seen;
      var out: seq<Clean> := [];
      for i := 0 to |items|
        invariant Done(WalkItems(rules, graph, items[..i], fuel), n, s, nodes, seen)
        invariant out == ImageOfItems(rules, graph, items[..i], fuel)
      {
        OneMoreItem(rules, graph, items, i, fuel);
        var x := VisitNext(items[i], depth, WalkItems(rules, graph, items[..i], fuel), n, s);
        if x.Err? {
          ItemsFail(rules, graph, items, i + 1, fuel, n, s);
          return Err;
        }
        out := out + [x.value];
      }
      assert items[..|items|] == items;
      return Ok(out);
    }

    method VisitProperties(properties: seq<Property>, depth: nat) returns (r: Result<map<Text, Clean>>)
      requires ClosedGraph(graph) && depth <= MAX_DEPTH + 1
      requires forall i :: 0 <= i < |properties| ==> Closed(graph, properties[i].value)
      modifies this
      ensures var steps := WalkProperties(rules, graph, properties, MAX_DEPTH + 1 - depth);
              && (r.Ok? <==> Goes(steps, old(nodes), old(seen)))
              && (r.Ok? ==> Done(steps, old(nodes), old(seen), nodes, seen) &&
                            r.value == ImageOfProperties(rules, graph, properties, MAX_DEPTH + 1 - depth))
      decreases MAX_DEPTH + 1 - depth, 3
    {
      ghost var fuel, n, s := MAX_DEPTH + 1 - depth, nodes, seen;
      var out: map<Text, Clean> := map[];
      for i := 0 to |properties|
        invariant Done(WalkProperties(rules, graph, properties[..i], fuel), n, s, nodes, seen)
        invariant out == ImageOfProperties(rules, graph, properties[..i], fuel)
      {
        OneMoreProperty(rules, graph, properties, i, fuel);
        var x := VisitProperty(properties[i], depth, WalkProperties(rules, graph, properties[..i], fuel), n, s);
        if x.Err? {
          PropertiesFail(rules, graph, properties, i + 1, fuel, n, s);
          return Err;
        }
        out := out[Shortened(properties[i].key) := x.value];
      }
      assert properties[..|properties|] == properties;
      return Ok(out);
    }
  }

  // ---------------------------------------------------------------- what success means

  /** `sanitizeBrowserEvaluation`; `fits` is the final limit on the size of the printed result. */
  method SanitizeBrowserEvaluation(rules: Rules, graph: Graph, value: Value, fits: Clean -> bool) returns (r: Result<Clean>)
    requires ClosedGraph(graph) && Closed(graph, value)
    ensures value != Undefined ==> Start(value) == value
    ensures value == Undefined ==> Start(value) == Null
    ensures r.Ok? <==> SmallTree(rules, graph, Start(value)) && fits(Image(rules, graph, Start(value), MAX_DEPTH + 1))
    ensures r.Ok? ==> r.value == Image(rules, graph, Start(value), MAX_DEPTH + 1)
    ensures r.Ok? ==> Represents(rules, graph, Start(value), r.value)
    ensures r.Ok? && ShortPrivateNames(rules) ==> Redacted(rules, r.value)
  {
    var sanitizer := new Sanitizer(rules, graph);
    var start := Start(value);
    r := sanitizer.Visit(start, 0);
    GoesExactly(rules, graph, start);
    if r.Ok? && !fits(r.value) {
      r := Err;
    }
  }

  /** When the whole walk goes through, and what is true of the image then. */
  lemma GoesExactly(rules: Rules, g: Graph, v: Value)
    requires ClosedGraph(g) && Closed(g, v)
    ensures Goes(Walk(rules, g, v, MAX_DEPTH + 1), 0, {}) <==> SmallTree(rules, g, v)
    ensures SmallTree(rules, g, v) ==> Represents(rules, g, v, Image(rules, g, v, MAX_DEPTH + 1))
    ensures ShortPrivateNames(rules) ==> Redacted(rules, Image(rules, g, v, MAX_DEPTH + 1))
  {
    GoesIff(Walk(rules, g, v, MAX_DEPTH + 1), 0, {});
    SanitizableIff(rules, g, v);
    if Sanitizable(rules, g, v) {
      ImageRepresents(rules, g, v, MAX_DEPTH + 1);
    }
    if ShortPrivateNames(rules) {
      ImageIsRedacted(rules, g, v, MAX_DEPTH + 1);
    }
  }

  /** `value ?? null`. */
  function Start(value: Value): Value {
    if value.Undefined? then Null else value
  }

  /**
   The walk meets no limit and no object twice. `SanitizableIff` below says what that means for the
   graph: the part reachable through names that are not private is a small tree.
   */
  predicate Sanitizable(rules: Rules, g: Graph, v: Value) {
    var steps := Walk(rules, g, v, MAX_DEPTH + 1);
    (forall i :: 0 <= i < |steps| ==> steps[i].At?) && |steps| <= MAX_NODES && Distinct(steps)
  }

  /** In every object of the result, at every depth, a private name maps to the redaction mark. */
  predicate Redacted(rules: Rules, c: Clean) {
    match c
    case List(items) => forall i :: 0 <= i < |items| ==> Redacted(rules, items[i])
    case Fields(fields) =>
      forall k :: k in fields ==> (rules.isPrivate(k) ==> fields[k] == Text(REDACTED)) && Redacted(rules, fields[k])
    case _ => true
  }

  /** Private names are too short to be the result of shortening a longer name. */
  ghost predicate ShortPrivateNames(rules: Rules) {
    forall k :: rules.isPrivate(k) ==> |k| < MAX_KEY
  }

  /** The key spells the name in letters of either case, a long s or a Kelvin sign included. */
  predicate Spells(key: Text, name: string) {
    |key| == |name| &&
    forall i :: 0 <= i < |name| ==>
      var c := name[i] as int;
      key[i] == c || ('a' <= name[i] <= 'z' && key[i] == c - 0x20) || (name[i] == 's' && key[i] == 0x017F) || (name[i] == 'k' && key[i] == 0x212A)
  }

  /** Exactly which names are private. */
  lemma PrivateFieldIff(key: Text)
    ensures PrivateField(key) <==>
            || Spells(key, "password") || Spells(key, "passwd") || Spells(key, "secret") || Spells(key, "token")
            || Spells(key, "accesstoken") || Spells(key, "refreshtoken") || Spells(key, "authorization")
            || Spells(key, "cookie") || Spells(key, "session") || Spells(key, "privatekey") || Spells(key, "clientsecret")
  {
    SpellsIff(key, "password");
    SpellsIff(key, "passwd");
    SpellsIff(key, "secret");
    SpellsIff(key, "token");
    SpellsIff(key, "accesstoken");
    SpellsIff(key, "refreshtoken");
    SpellsIff(key, "authorization");
    SpellsIff(key, "cookie");
    SpellsIff(key, "session");
    SpellsIff(key, "privatekey");
    SpellsIff(key, "clientsecret");
  }

  lemma SpellsIff(key: Text, name: string)
    requires forall i :: 0 <= i < |name| ==> 'a' <= name[i] <= 'z'
    ensures Fold(key) == Ascii(name) <==> Spells(key, name)
  {
    if |key| == |name| {
      assert forall i :: 0 <= i < |name| ==> Ascii(name)[i] == name[i] as int;
      if Fold(key) == Ascii(name) {
        forall i | 0 <= i < |name| ensures FoldUnit(key[i]) == name[i] as int {
          assert Fold(key)[i] == Ascii(name)[i];
        }
      }
    }
  }

  lemma PrivateFieldsAreShort(redact: Text -> Text)
    ensures ShortPrivateNames(Rules(redact, PrivateField))
  {
  }

  lemma {:induction false} ImageIsRedacted(rules: Rules, g: Graph, v: Value, fuel: nat)
    requires ShortPrivateNames(rules)
    ensures Redacted(rules, Image(rules, g, v, fuel))
    decreases fuel, 0, 1
  {
    if v.Ref? && fuel > 0 && v.id in g {
      match g[v.id] {
        case Arr(items) => ItemsAreRedacted(rules, g, items, fuel - 1);
        case Record(ps) => PropertiesAreRedacted(rules, g, ps, fuel - 1);
      }
    }
  }

  lemma {:induction false} ItemsAreRedacted(rules: Rules, g: Graph, vs: seq<Value>, fuel: nat)
    requires ShortPrivateNames(rules)
    ensures Redacted(rules, List(ImageOfItems(rules, g, vs, fuel)))
    decreases fuel, 1, |vs|
  {
    if vs != [] {
      ItemsAreRedacted(rules, g, vs[..|vs| - 1], fuel);
      ImageIsRedacted(rules, g, vs[|vs| - 1], fuel);
    }
  }

  lemma {:induction false} PropertiesAreRedacted(rules: Rules, g: Graph, ps: seq<Property>, fuel: nat)
    requires ShortPrivateNames(rules)
    ensures Redacted(rules, Fields(ImageOfProperties(rules, g, ps, fuel)))
    decreases fuel, 1, |ps|
  {
    if ps != [] {
      var p := ps[|ps| - 1];
      PropertiesAreRedacted(rules, g, ps[..|ps| - 1], fuel);
      if !rules.isPrivate(p.key) {
        ImageIsRedacted(rules, g, p.value, fuel);
      }
      assert rules.isPrivate(Shortened(p.key)) ==> Shortened(p.key) == p.key;
    }
  }

  /** No later property has the same shortened name. */
  predicate Wins(ps: seq<Property>, i: nat)
    requires i < |ps|
  {
    forall j :: i < j < |ps| ==> Shortened(ps[j].key) != Shortened(ps[i].key)
  }

  predicate Named(ps: seq<Property>, k: Text) {
    exists i :: 0 <= i < |ps| && Shortened(ps[i].key) == k
  }

  /**
   `c` says what `v` says: the same scalars, the strings after redaction, all items in order, and
   under each shortened name what the last property of that name holds, unless it is private.
   */
  ghost predicate Represents(rules: Rules, g: Graph, v: Value, c: Clean)
    decreases c
  {
    match c
    case Scalar(x) => !v.Str? && !v.Ref? && x == if v.Other? then Null else v
    case Text(s) => v.Str? && s == rules.redact(v.s)
    case List(items) =>
      && v.Ref? && v.id in g && g[v.id].Arr? && |items| == |g[v.id].items|
      && forall i :: 0 <= i < |items| ==> Represents(rules, g, g[v.id].items[i], items[i])
    case Fields(fields) =>
      && v.Ref? && v.id in g && g[v.id].Record?
      && var ps := g[v.id].properties;
      && (forall k :: k in fields <==> Named(ps, k))
      && forall i, k :: 0 <= i < |ps| && Wins(ps, i) && k == Shortened(ps[i].key) && k in fields ==>
           if rules.isPrivate(ps[i].key) then fields[k] == Text(REDACTED) else Represents(rules, g, ps[i].value, fields[k])
  }

  ghost predicate AllVisited(steps: seq<Step>) {
    forall i :: 0 <= i < |steps| ==> steps[i].At?
  }

  /** Nothing is lost or invented: where the walk meets no limit, the sanitised form says what the value says. */
  lemma {:induction false} ImageRepresents(rules: Rules, g: Graph, v: Value, fuel: nat)
    requires ClosedGraph(g) && Closed(g, v) && AllVisited(Walk(rules, g, v, fuel))
    ensures Represents(rules, g, v, Image(rules, g, v, fuel))
    decreases fuel, 0, 1
  {
    WalkedSomewhere(rules, g, v, fuel);
    if v.Ref? {
      var inside := WalkInside(rules, g, g[v.id], fuel - 1);
      VisitedParts([At(v)], inside);
      InsideIsNarrow(rules, g, g[v.id], fuel - 1);
      match g[v.id] {
        case Arr(items) => ItemsRepresent(rules, g, items, fuel - 1);
        case Record(ps) =>
          PropertiesRepresent(rules, g, ps, fuel - 1);
          assert FieldsFit(rules, g, ps, ImageOfProperties(rules, g, ps, fuel - 1));
      }
    }
  }

  lemma WalkedSomewhere(rules: Rules, g: Graph, v: Value, fuel: nat)
    requires AllVisited(Walk(rules, g, v, fuel))
    ensures fuel > 0
  {
    var steps := Walk(rules, g, v, fuel);
    assert steps[0].At?;
  }

  lemma InsideIsNarrow(rules: Rules, g: Graph, o: Object, fuel: nat)
    requires AllVisited(WalkInside(rules, g, o, fuel))
    ensures Entries(o) <= MAX_ENTRIES
  {
    var steps := WalkInside(rules, g, o, fuel);
    assert steps != [] ==> steps[0].At?;
  }

  lemma VisitedParts(a: seq<Step>, b: seq<Step>)
    requires AllVisited(a + b)
    ensures AllVisited(a) && AllVisited(b)
  {
    forall i | 0 <= i < |a| ensures a[i].At? {
      assert (a + b)[i] == a[i];
    }
    forall i | 0 <= i < |b| ensures b[i].At? {
      assert (a + b)[|a| + i] == b[i];
    }
  }

  lemma {:induction false} ItemsRepresent(rules: Rules, g: Graph, vs: seq<Value>, fuel: nat)
    requires ClosedGraph(g) && (forall i :: 0 <= i < |vs| ==> Closed(g, vs[i])) && AllVisited(WalkItems(rules, g, vs, fuel))
    ensures var cs := ImageOfItems(rules, g, vs, fuel);
            |cs| == |vs| && forall i :: 0 <= i < |vs| ==> Represents(rules, g, vs[i], cs[i])
    decreases fuel, 1, |vs|
  {
    if vs != [] {
      var init, last := vs[..|vs| - 1], vs[|vs| - 1];
      VisitedParts(WalkItems(rules, g, init, fuel), Walk(rules, g, last, fuel));
      ItemsRepresent(rules, g, init, fuel);
      ImageRepresents(rules, g, last, fuel);
    }
  }

  lemma {:induction false} PropertiesRepresent(rules: Rules, g: Graph, ps: seq<Property>, fuel: nat)
    requires ClosedGraph(g) && (forall i :: 0 <= i < |ps| ==> Closed(g, ps[i].value))
    requires AllVisited(WalkProperties(rules, g, ps, fuel))
    ensures var fields := ImageOfProperties(rules, g, ps, fuel);
            (forall k :: k in fields <==> Named(ps, k)) && FieldsFit(rules, g, ps, fields)
    decreases fuel, 1, |ps|
  {
    if ps != [] {
      var n := |ps| - 1;
      var init, last := ps[..n], ps[n];
      VisitedParts(WalkProperties(rules, g, init, fuel), PropertySteps(rules, g, last, fuel));
      PropertiesRepresent(rules, g, init, fuel);
      if !rules.isPrivate(last.key) {
        ImageRepresents(rules, g, last.value, fuel);
      }
      FieldsFitSnoc(rules, g, ps, ImageOfProperties(rules, g, init, fuel), PropertyImage(rules, g, last, fuel));
      forall k ensures Named(ps, k) <==> Named(init, k) || k == Shortened(last.key) {
        NamedSnoc(ps, k);
      }
    }
  }

  ghost predicate Fits(rules: Rules, g: Graph, p: Property, c: Clean) {
    if rules.isPrivate(p.key) then c == Text(REDACTED) else Represents(rules, g, p.value, c)
  }

  ghost predicate FieldsFit(rules: Rules, g: Graph, ps: seq<Property>, fields: map<Text, Clean>) {
    forall i, k :: 0 <= i < |ps| && Wins(ps, i) && k == Shortened(ps[i].key) && k in fields ==> Fits(rules, g, ps[i], fields[k])
  }

  lemma FieldsFitSnoc(rules: Rules, g: Graph, ps: seq<Property>, fields: map<Text, Clean>, c: Clean)
    requires ps != [] && FieldsFit(rules, g, ps[..|ps| - 1], fields) && Fits(rules, g, ps[|ps| - 1], c)
    ensures FieldsFit(rules, g, ps, fields[Shortened(ps[|ps| - 1].key) := c])
  {
    var n := |ps| - 1;
    forall i | 0 <= i < n && Wins(ps, i)
      ensures Wins(ps[..n], i) && Shortened(ps[i].key) != Shortened(ps[n].key)
    {
      assert forall j :: i < j < n ==> ps[..n][j] == ps[j];
    }
  }

  lemma NamedSnoc(ps: seq<Property>, k: Text)
    requires ps != []
    ensures Named(ps, k) <==> Named(ps[..|ps| - 1], k) || k == Shortened(ps[|ps| - 1].key)
  {
    var init := ps[..|ps| - 1];
    if Named(init, k) {
      var i :| 0 <= i < |init| && Shortened(init[i].key) == k;
      assert Shortened(ps[i].key) == k;
    }
    if Named(ps, k) {
      var i :| 0 <= i < |ps| && Shortened(ps[i].key) == k;
      assert i < |init| ==> Shortened(init[i].key) == k;
    }
  }

  lemma {:induction false} ItemIsWalked(rules: Rules, g: Graph, vs: seq<Value>, i: nat, k: nat, fuel: nat)
    requires i < k <= |vs| && fuel > 0 && vs[i].Ref?
    ensures vs[i].id in Ids(WalkItems(rules, g, vs[..k], fuel))
    decreases k
  {
    var last := Walk(rules, g, vs[k - 1], fuel);
    OneMoreItem(rules, g, vs, k - 1, fuel);
    GoesConcat(WalkItems(rules, g, vs[..k - 1], fuel), last, 0, {});
    if i == k - 1 {
      assert last[0] == At(vs[i]) && IdOf(last[0]) <= Ids(last);
    } else {
      ItemIsWalked(rules, g, vs, i, k - 1, fuel);
    }
  }

  lemma SameItemTwiceFails(rules: Rules, g: Graph, items: seq<Value>, i: nat, j: nat, fuel: nat, nodes: nat, seen: set<Id>)
    requires i < j < |items| && items[i] == items[j] && items[i].Ref? && fuel > 0
    ensures !Goes(WalkItems(rules, g, items, fuel), nodes, seen)
  {
    var before, again := WalkItems(rules, g, items[..j], fuel), Walk(rules, g, items[j], fuel);
    assert !Goes(before + again, nodes, seen) by {
      ItemIsWalked(rules, g, items, i, j, fuel);
      GoesConcat(before, again, nodes, seen);
      assert again[0] == At(items[j]);
    }
    OneMoreItem(rules, g, items, j, fuel);
    ItemsFail(rules, g, items, j + 1, fuel, nodes, seen);
  }

  /**
   "Cyclic" is reported for sharing too: an array that holds one object twice is refused, although
   nothing about it is cyclic.
   */
  lemma SharedObjectIsRefused(rules: Rules, g: Graph, id: Id, items: seq<Value>, i: nat, j: nat)
    requires id in g && g[id] == Arr(items) && i < j < |items| && items[i] == items[j] && items[i].Ref?
    ensures !Sanitizable(rules, g, Ref(id))
  {
    var inside := WalkInside(rules, g, g[id], MAX_DEPTH);
    assert !Goes(inside, 1, {} + IdOf(At(Ref(id)))) by {
      if |items| <= MAX_ENTRIES {
        SameItemTwiceFails(rules, g, items, i, j, MAX_DEPTH, 1, {} + IdOf(At(Ref(id))));
      }
    }
    GoesFirst(Ref(id), inside, 0, {});
    GoesIff(Walk(rules, g, Ref(id), MAX_DEPTH + 1), 0, {});
  }

  // ---------------------------------------------------------------- the same in terms of the graph

  /** The positions of the entries to go through, one after the other. */
  type Path = seq<nat>

  function Child(o: Object, k: nat): Value
    requires k < Entries(o)
  {
    match o case Arr(items) => items[k] case Record(ps) => ps[k].value
  }

  predicate Visible(rules: Rules, o: Object, k: nat)
    requires k < Entries(o)
  {
    o.Record? ==> !rules.isPrivate(o.properties[k].key)
  }

  /** The path can be followed from `v` without passing a private name. */
  predicate Leads(rules: Rules, g: Graph, v: Value, p: Path)
    decreases |p|
  {
    p == [] ||
    (v.Ref? && v.id in g && p[0] < Entries(g[v.id]) && Visible(rules, g[v.id], p[0]) &&
     Leads(rules, g, Child(g[v.id], p[0]), p[1..]))
  }

  predicate LeadsInside(rules: Rules, g: Graph, o: Object, p: Path) {
    p != [] && p[0] < Entries(o) && Visible(rules, o, p[0]) && Leads(rules, g, Child(o, p[0]), p[1..])
  }

  function End(rules: Rules, g: Graph, v: Value, p: Path): Value
    requires Leads(rules, g, v, p)
    decreases |p|
  {
    if p == [] then v else End(rules, g, Child(g[v.id], p[0]), p[1..])
  }

  predicate Narrow(g: Graph, v: Value) {
    v.Ref? && v.id in g ==> Entries(g[v.id]) <= MAX_ENTRIES
  }

  predicate NoDuplicates(paths: seq<Path>) {
    forall i, j :: 0 <= i < j < |paths| ==> paths[i] != paths[j]
  }

  /**
   No path is longer than the depth limit, no object reached is too wide, every object is reached by
   one path only, and there are at most as many paths as visits are allowed.
   */
  ghost predicate SmallTree(rules: Rules, g: Graph, v: Value) {
    && (forall p :: Leads(rules, g, v, p) ==> |p| <= MAX_DEPTH && Narrow(g, End(rules, g, v, p)))
    && OnePathEach(rules, g, v)
    && exists all: seq<Path> :: |all| <= MAX_NODES && forall p :: Leads(rules, g, v, p) ==> p in all
  }

  ghost predicate OnePathEach(rules: Rules, g: Graph, v: Value) {
    forall p, q :: Leads(rules, g, v, p) && Leads(rules, g, v, q) ==>
      End(rules, g, v, p).Ref? && End(rules, g, v, p) == End(rules, g, v, q) ==> p == q
  }

  /** The paths of the visits, in their order. */
  function Trail(rules: Rules, g: Graph, v: Value, fuel: nat): seq<Path>
    decreases fuel, 1, 0
  {
    if fuel > 0 && v.Ref? && v.id in g then [[]] + TrailInside(rules, g, g[v.id], Entries(g[v.id]), fuel - 1) else [[]]
  }

  function TrailInside(rules: Rules, g: Graph, o: Object, n: nat, fuel: nat): seq<Path>
    requires n <= Entries(o)
    decreases fuel, 2, n
  {
    if n == 0 then []
    else TrailInside(rules, g, o, n - 1, fuel) +
         if Visible(rules, o, n - 1) then Under(n - 1, Trail(rules, g, Child(o, n - 1), fuel)) else []
  }

  function Under(k: nat, paths: seq<Path>): (r: seq<Path>)
    ensures |r| == |paths| && forall i :: 0 <= i < |paths| ==> r[i] == [k] + paths[i]
  {
    seq(|paths|, i requires 0 <= i < |paths| => [k] + paths[i])
  }

  function StepsInside(rules: Rules, g: Graph, o: Object, n: nat, fuel: nat): seq<Step>
    requires n <= Entries(o)
  {
    match o case Arr(items) => WalkItems(rules, g, items[..n], fuel) case Record(ps) => WalkProperties(rules, g, ps[..n], fuel)
  }

  function StepsBelow(rules: Rules, g: Graph, o: Object, k: nat, fuel: nat): seq<Step>
    requires k < Entries(o)
  {
    if Visible(rules, o, k) then Walk(rules, g, Child(o, k), fuel) else []
  }

  lemma OneMoreStep(rules: Rules, g: Graph, o: Object, k: nat, fuel: nat)
    requires k < Entries(o)
    ensures StepsInside(rules, g, o, k + 1, fuel) == StepsInside(rules, g, o, k, fuel) + StepsBelow(rules, g, o, k, fuel)
  {
    match o {
      case Arr(items) => OneMoreItem(rules, g, items, k, fuel);
      case Record(ps) => OneMoreProperty(rules, g, ps, k, fuel);
    }
  }

  lemma AllSteps(rules: Rules, g: Graph, o: Object, fuel: nat)
    ensures Entries(o) <= MAX_ENTRIES ==> WalkInside(rules, g, o, fuel) == StepsInside(rules, g, o, Entries(o), fuel)
  {
    match o {
      case Arr(items) => assert items[..|items|] == items;
      case Record(ps) => assert ps[..|ps|] == ps;
    }
  }

  /** The visit `step` is of the end of the path, which is short and leads to nothing too wide. */
  predicate Visits(rules: Rules, g: Graph, v: Value, p: Path, step: Step, fuel: nat) {
    Leads(rules, g, v, p) && |p| < fuel && Narrow(g, End(rules, g, v, p)) && step == At(End(rules, g, v, p))
  }

  /** The steps visit the ends of exactly these paths, all different. */
  ghost predicate Traces(rules: Rules, g: Graph, v: Value, paths: seq<Path>, steps: seq<Step>, fuel: nat) {
    && |paths| == |steps| && NoDuplicates(paths)
    && (forall i :: 0 <= i < |paths| ==> Visits(rules, g, v, paths[i], steps[i], fuel))
    && forall p :: Leads(rules, g, v, p) ==> p in paths
  }

  predicate VisitsInside(rules: Rules, g: Graph, o: Object, n: nat, p: Path, step: Step, fuel: nat) {
    p != [] && p[0] < n && LeadsInside(rules, g, o, p) && Visits(rules, g, Child(o, p[0]), p[1..], step, fuel)
  }

  ghost predicate TracesInside(rules: Rules, g: Graph, o: Object, n: nat, paths: seq<Path>, steps: seq<Step>, fuel: nat) {
    && |paths| == |steps| && NoDuplicates(paths)
    && (forall i :: 0 <= i < |paths| ==> VisitsInside(rules, g, o, n, paths[i], steps[i], fuel))
    && forall p :: LeadsInside(rules, g, o, p) && p[0] < n ==> p in paths
  }

  /** A walk that meets no limit goes along its trail and misses nothing. */
  lemma {:induction false} TrailTraces(rules: Rules, g: Graph, v: Value, fuel: nat)
    requires ClosedGraph(g) && Closed(g, v) && AllVisited(Walk(rules, g, v, fuel))
    ensures Traces(rules, g, v, Trail(rules, g, v, fuel), Walk(rules, g, v, fuel), fuel)
    decreases fuel, 1, 0
  {
    WalkedSomewhere(rules, g, v, fuel);
    if v.Ref? {
      var o := g[v.id];
      VisitedParts([At(v)], WalkInside(rules, g, o, fuel - 1));
      InsideIsNarrow(rules, g, o, fuel - 1);
      AllSteps(rules, g, o, fuel - 1);
      InsideTraces(rules, g, o, Entries(o), fuel - 1);
      FromInside(rules, g, v, TrailInside(rules, g, o, Entries(o), fuel - 1), StepsInside(rules, g, o, Entries(o), fuel - 1), fuel);
    }
  }

  lemma FromInside(rules: Rules, g: Graph, v: Value, paths: seq<Path>, steps: seq<Step>, fuel: nat)
    requires v.Ref? && v.id in g && fuel > 0 && Narrow(g, v)
    requires TracesInside(rules, g, g[v.id], Entries(g[v.id]), paths, steps, fuel - 1)
    ensures Traces(rules, g, v, [[]] + paths, [At(v)] + steps, fuel)
  {
    forall i | 0 <= i < |paths| ensures paths[i] != [] && Visits(rules, g, v, paths[i], steps[i], fuel) {
      VisitFromInside(rules, g, v, paths[i], steps[i], fuel);
    }
    assert Visits(rules, g, v, [], At(v), fuel);
    StartFirst(rules, g, v, paths, steps, fuel);
    forall p | Leads(rules, g, v, p) ensures p in [[]] + paths {
      if p == [] {
        assert ([[]] + paths)[0] == p;
      } else {
        assert LeadsInside(rules, g, g[v.id], p) && p in paths;
      }
    }
  }

  lemma StartFirst(rules: Rules, g: Graph, v: Value, paths: seq<Path>, steps: seq<Step>, fuel: nat)
    requires |paths| == |steps| && NoDuplicates(paths) && Visits(rules, g, v, [], At(v), fuel)
    requires forall i :: 0 <= i < |paths| ==> paths[i] != [] && Visits(rules, g, v, paths[i], steps[i], fuel)
    ensures var all, visits := [[]] + paths, [At(v)] + steps;
            NoDuplicates(all) && forall i :: 0 <= i < |all| ==> Visits(rules, g, v, all[i], visits[i], fuel)
  {
  }

  lemma VisitFromInside(rules: Rules, g: Graph, v: Value, p: Path, step: Step, fuel: nat)
    requires v.Ref? && v.id in g && fuel > 0 && VisitsInside(rules, g, g[v.id], Entries(g[v.id]), p, step, fuel - 1)
    ensures p != [] && Visits(rules, g, v, p, step, fuel)
  {
  }

  lemma {:induction false} InsideTraces(rules: Rules, g: Graph, o: Object, n: nat, fuel: nat)
    requires ClosedGraph(g) && n <= Entries(o) && AllVisited(StepsInside(rules, g, o, n, fuel))
    requires forall k :: 0 <= k < Entries(o) ==> Closed(g, Child(o, k))
    ensures TracesInside(rules, g, o, n, TrailInside(rules, g, o, n, fuel), StepsInside(rules, g, o, n, fuel), fuel)
    decreases fuel, 2, n
  {
    if n > 0 {
      var k := n - 1;
      OneMoreStep(rules, g, o, k, fuel);
      VisitedParts(StepsInside(rules, g, o, k, fuel), StepsBelow(rules, g, o, k, fuel));
      InsideTraces(rules, g, o, k, fuel);
      if Visible(rules, o, k) {
        TrailTraces(rules, g, Child(o, k), fuel);
      }
      MoreInside(rules, g, o, k, TrailInside(rules, g, o, k, fuel), StepsInside(rules, g, o, k, fuel),
                 if Visible(rules, o, k) then Trail(rules, g, Child(o, k), fuel) else [], StepsBelow(rules, g, o, k, fuel), fuel);
    }
  }

  lemma MoreInside(rules: Rules, g: Graph, o: Object, k: nat, paths: seq<Path>, steps: seq<Step>, below: seq<Path>, more: seq<Step>, fuel: nat)
    requires k < Entries(o) && TracesInside(rules, g, o, k, paths, steps, fuel)
    requires if Visible(rules, o, k) then Traces(rules, g, Child(o, k), below, more, fuel) else below == [] && more == []
    ensures TracesInside(rules, g, o, k + 1, paths + Under(k, below), steps + more, fuel)
  {
    var all, visits := paths + Under(k, below), steps + more;
    forall i | 0 <= i < |all| ensures VisitsInside(rules, g, o, k + 1, all[i], visits[i], fuel) {
      if i < |paths| {
        assert VisitsInside(rules, g, o, k, paths[i], steps[i], fuel);
      } else {
        var b := i - |paths|;
        assert Visits(rules, g, Child(o, k), below[b], more[b], fuel);
        assert all[i] == [k] + below[b] && all[i][1..] == below[b];
      }
    }
    forall p | LeadsInside(rules, g, o, p) && p[0] < k + 1 ensures p in all {
      if p[0] == k {
        assert p[1..] in below;
        var b :| 0 <= b < |below| && below[b] == p[1..];
        assert p == [k] + p[1..] == Under(k, below)[b];
      } else {
        assert p in paths;
      }
    }
    forall i, j | 0 <= i < j < |all| ensures all[i] != all[j] {
      if i < |paths| {
        assert VisitsInside(rules, g, o, k, paths[i], steps[i], fuel);
      } else {
        assert all[i][1..] == below[i - |paths|] && all[j][1..] == below[j - |paths|];
      }
    }
  }

  /** Short paths and narrow objects keep the walk within its limits. */
  lemma {:induction false} ShortPathsVisit(rules: Rules, g: Graph, v: Value, fuel: nat)
    requires ClosedGraph(g) && Closed(g, v)
    requires forall p :: Leads(rules, g, v, p) ==> |p| < fuel && Narrow(g, End(rules, g, v, p))
    ensures AllVisited(Walk(rules, g, v, fuel))
    decreases fuel, 1, 0
  {
    assert Leads(rules, g, v, []);
    if v.Ref? {
      var o := g[v.id];
      forall k, q | 0 <= k < Entries(o) && Visible(rules, o, k) && Leads(rules, g, Child(o, k), q)
        ensures |q| < fuel - 1 && Narrow(g, End(rules, g, Child(o, k), q))
      {
        var p := [k] + q;
        assert p[0] == k && p[1..] == q;
        assert Leads(rules, g, v, p);
      }
      ShortInside(rules, g, o, Entries(o), fuel - 1);
      AllSteps(rules, g, o, fuel - 1);
    }
  }

  ghost predicate ShortBelow(rules: Rules, g: Graph, o: Object, fuel: nat) {
    forall k, q :: 0 <= k < Entries(o) && Visible(rules, o, k) && Leads(rules, g, Child(o, k), q) ==>
      |q| < fuel && Narrow(g, End(rules, g, Child(o, k), q))
  }

  lemma {:induction false} ShortInside(rules: Rules, g: Graph, o: Object, n: nat, fuel: nat)
    requires ClosedGraph(g) && n <= Entries(o) && forall k :: 0 <= k < Entries(o) ==> Closed(g, Child(o, k))
    requires ShortBelow(rules, g, o, fuel)
    ensures AllVisited(StepsInside(rules, g, o, n, fuel))
    decreases fuel, 2, n
  {
    if n > 0 {
      ShortInside(rules, g, o, n - 1, fuel);
      OneMoreStep(rules, g, o, n - 1, fuel);
      if Visible(rules, o, n - 1) {
        ShortPathsVisit(rules, g, Child(o, n - 1), fuel);
      }
    }
  }

  lemma {:induction false} FewDistinct(paths: seq<Path>, all: seq<Path>)
    requires NoDuplicates(paths) && forall p :: p in paths ==> p in all
    ensures |paths| <= |all|
  {
    if paths != [] {
      var last := paths[|paths| - 1];
      assert last in paths && last in all;
      var k :| 0 <= k < |all| && all[k] == last;
      var rest := all[..k] + all[k + 1..];
      forall p | p in paths[..|paths| - 1] ensures p in rest {
        var i :| 0 <= i < |paths| - 1 && paths[i] == p;
        assert p in paths && p in all;
        var j :| 0 <= j < |all| && all[j] == p;
        assert p == if j < k then rest[j] else rest[j - 1];
      }
      FewDistinct(paths[..|paths| - 1], rest);
    }
  }

  /** The visits of a trail are of different objects exactly when every object has one path. */
  lemma DistinctIffOnePath(rules: Rules, g: Graph, v: Value, paths: seq<Path>, steps: seq<Step>, fuel: nat)
    requires Traces(rules, g, v, paths, steps, fuel)
    ensures Distinct(steps) <==> OnePathEach(rules, g, v)
  {
    if Distinct(steps) {
      forall p, q | Leads(rules, g, v, p) && Leads(rules, g, v, q) && End(rules, g, v, p).Ref? && End(rules, g, v, p) == End(rules, g, v, q)
        ensures p == q
      {
        var i :| 0 <= i < |paths| && paths[i] == p;
        var j :| 0 <= j < |paths| && paths[j] == q;
        assert Visits(rules, g, v, paths[i], steps[i], fuel) && Visits(rules, g, v, paths[j], steps[j], fuel);
        assert IdOf(steps[i]) == IdOf(steps[j]) == {End(rules, g, v, p).id};
      }
    }
    if OnePathEach(rules, g, v) {
      forall i, j | 0 <= i < j < |steps| ensures IdOf(steps[i]) !! IdOf(steps[j]) {
        assert Visits(rules, g, v, paths[i], steps[i], fuel) && Visits(rules, g, v, paths[j], steps[j], fuel);
      }
    }
  }

  /** The condition for success, in terms of the graph alone. */
  lemma SanitizableIff(rules: Rules, g: Graph, v: Value)
    requires ClosedGraph(g) && Closed(g, v)
    ensures Sanitizable(rules, g, v) <==> SmallTree(rules, g, v)
  {
    if SmallTree(rules, g, v) {
      SmallTreeIsSanitizable(rules, g, v);
    }
    if Sanitizable(rules, g, v) {
      SanitizableIsSmallTree(rules, g, v);
    }
  }

  lemma SmallTreeIsSanitizable(rules: Rules, g: Graph, v: Value)
    requires ClosedGraph(g) && Closed(g, v) && SmallTree(rules, g, v)
    ensures Sanitizable(rules, g, v)
  {
    var fuel := MAX_DEPTH + 1;
    var steps, paths := Walk(rules, g, v, fuel), Trail(rules, g, v, fuel);
    ShortPathsVisit(rules, g, v, fuel);
    TrailTraces(rules, g, v, fuel);
    DistinctIffOnePath(rules, g, v, paths, steps, fuel);
    var all: seq<Path> :| |all| <= MAX_NODES && forall p :: Leads(rules, g, v, p) ==> p in all;
    forall p | p in paths ensures p in all {
      var i :| 0 <= i < |paths| && paths[i] == p;
      assert Visits(rules, g, v, paths[i], steps[i], fuel);
    }
    FewDistinct(paths, all);
  }

  lemma SanitizableIsSmallTree(rules: Rules, g: Graph, v: Value)
    requires ClosedGraph(g) && Closed(g, v) && Sanitizable(rules, g, v)
    ensures SmallTree(rules, g, v)
  {
    var fuel := MAX_DEPTH + 1;
    var steps, paths := Walk(rules, g, v, fuel), Trail(rules, g, v, fuel);
    TrailTraces(rules, g, v, fuel);
    DistinctIffOnePath(rules, g, v, paths, steps, fuel);
    forall p | Leads(rules, g, v, p) ensures |p| <= MAX_DEPTH && Narrow(g, End(rules, g, v, p)) {
      var i :| 0 <= i < |paths| && paths[i] == p;
      assert Visits(rules, g, v, paths[i], steps[i], fuel);
    }
    assert |paths| <= MAX_NODES && forall p :: Leads(rules, g, v, p) ==> p in paths;
  }

  lemma {:induction false} LeadsOn(rules: Rules, g: Graph, v: Value, p: Path, q: Path)
    requires Leads(rules, g, v, p) && Leads(rules, g, End(rules, g, v, p), q)
    ensures Leads(rules, g, v, p + q) && End(rules, g, v, p + q) == End(rules, g, End(rules, g, v, p), q)
    decreases |p|
  {
    if p == [] {
      assert p + q == q;
    } else {
      assert (p + q)[0] == p[0] && (p + q)[1..] == p[1..] + q;
      LeadsOn(rules, g, Child(g[v.id], p[0]), p[1..], q);
    }
  }

  /** Every cycle that can be reached without passing a private name is refused. */
  lemma CycleIsRefused(rules: Rules, g: Graph, v: Value, p: Path, cycle: Path)
    requires ClosedGraph(g) && Closed(g, v) && Leads(rules, g, v, p) && End(rules, g, v, p).Ref? && cycle != []
    requires Leads(rules, g, End(rules, g, v, p), cycle) && End(rules, g, End(rules, g, v, p), cycle) == End(rules, g, v, p)
    ensures !Sanitizable(rules, g, v)
  {
    SanitizableIff(rules, g, v);
    LeadsOn(rules, g, v, p, cycle);
    assert |p + cycle| > |p|;
  }
}
