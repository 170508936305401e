/**
 One-shot confirmations. The typed (source-control) and the browser registry run the same
 create/consume/prune code over different bindings, so one registry, generic in its binding,
 models both; only the browser one has `discardTabs`, `clear` and `hasPendingTabs`.
 */
module Confirmations {
  import opened Common
  import opened Texts

  datatype Pending<B> = Pending(binding: B, expiresAt: int)

  /** What distinguishes the registries: lifetime, which bindings are valid, which ones match. */
  datatype Rules<!B> = Rules(ttl: int, accepts: B -> bool, same: (B, B) -> bool)

  /** One call. `prunedAt` and `at` are its first and second reading of the clock. */
  datatype Event<!B> =
    | Create(id: Text, binding: B, prunedAt: int, at: int)
    | Consume(id: Text, binding: B, prunedAt: int, at: int)
    | HasPending(prunedAt: int)
    | Discard(doomed: B -> bool)
    | Clear

  function Unexpired<B>(s: map<Text, Pending<B>>, now: int): map<Text, Pending<B>> {
    map k | k in s && s[k].expiresAt > now :: s[k]
  }

  /** Does this consume find its confirmation alive and matching? */
  predicate Succeeds<B>(rules: Rules<B>, s: map<Text, Pending<B>>, e: Event<B>)
    requires e.Consume?
  {
    rules.accepts(e.binding) &&
    var p := Unexpired(s, e.prunedAt);
    e.id in p && p[e.id].expiresAt > e.at && rules.same(p[e.id].binding, e.binding)
  }

  function Step<B>(rules: Rules<B>, s: map<Text, Pending<B>>, e: Event<B>): map<Text, Pending<B>> {
    match e
    case Create(id, binding, prunedAt, at) =>
      if rules.accepts(binding) then Unexpired(s, prunedAt)[id := Pending(binding, at + rules.ttl)] else s
    case Consume(id, binding, prunedAt, at) =>
      if !rules.accepts(binding) then s
      else
        var p := Unexpired(s, prunedAt);
        if id in p && p[id].expiresAt > at && !rules.same(p[id].binding, binding) then p else p - {id}
    case HasPending(prunedAt) => Unexpired(s, prunedAt)
    case Discard(doomed) => map k | k in s && !doomed(s[k].binding) :: s[k]
    case Clear => map[]
  }

  /** What pruning leaves: exactly what expires later than now. */
  lemma UnexpiredIff<B>(s: map<Text, Pending<B>>, now: int, id: Text)
    ensures id in Unexpired(s, now) <==> id in s && s[id].expiresAt > now
    ensures id in Unexpired(s, now) ==> Unexpired(s, now)[id] == s[id]
  {
  }

  /** No accepted call leaves behind what had expired at its first reading of the clock. */
  lemma StepPrunes<B>(rules: Rules<B>, s: map<Text, Pending<B>>, e: Event<B>, id: Text)
    requires e.Create? || e.Consume? || e.HasPending?
    requires e.Create? || e.Consume? ==> rules.accepts(e.binding)
    ensures id in Step(rules, s, e) && !(e.Create? && e.id == id) ==> id in s && s[id].expiresAt > e.prunedAt
  {
  }

  class Registry<B> {
    const rules: Rules<B>
    var pending: map<Text, Pending<B>>

    constructor (rules: Rules<B>)
      ensures this.rules == rules && pending == map[]
    {
      this.rules := rules;
      pending := map[];
    }

    method PruneExpired(now: int)
      modifies this
      ensures pending == Unexpired(old(pending), now)
    {
      var ids := pending.Keys;
      while ids != {}
        invariant ids <= pending.Keys
        invariant pending == map k | k in old(pending) && (k in ids || old(pending)[k].expiresAt > now) :: old(pending)[k]
        decreases ids
      {
        var id :| id in ids;
        if pending[id].expiresAt <= now {
          pending := pending - {id};
        }
        ids := ids - {id};
      }
    }

    method Create(id: Text, binding: B, prunedAt: int, at: int) returns (expiresAt: Result<int>)
      modifies this
      ensures pending == Step(rules, old(pending), Event.Create(id, binding, prunedAt, at))
      ensures expiresAt == if rules.accepts(binding) then Ok(at + rules.ttl) else Err
    {
      if !rules.accepts(binding) {
        return Err;
      }
      PruneExpired(prunedAt);
      pending := pending[id := Pending(binding, at + rules.ttl)];
      return Ok(at + rules.ttl);
    }

    method Consume(id: Text, binding: B, prunedAt: int, at: int) returns (ok: bool)
      modifies this
      ensures pending == Step(rules, old(pending), Event.Consume(id, binding, prunedAt, at))
      ensures ok == Succeeds(rules, old(pending), Event.Consume(id, binding, prunedAt, at))
    {
      if !rules.accepts(binding) {
        return false;
      }
      PruneExpired(prunedAt);
      if id !in pending || pending[id].expiresAt <= at {
        pending := pending - {id};
        return false;
      }
      if !rules.same(pending[id].binding, binding) {
        return false;
      }
      pending := pending - {id};
      return true;
    }

    method HasPendingMatching(wanted: B -> bool, now: int) returns (found: bool)
      modifies this
      ensures pending == Step(rules, old(pending), HasPending(now))
      ensures found <==> exists k :: k in pending && wanted(pending[k].binding)
    {
      PruneExpired(now);
      found := exists k :: k in pending && wanted(pending[k].binding);
    }

    method DiscardMatching(doomed: B -> bool)
      modifies this
      ensures pending == Step(rules, old(pending), Discard(doomed))
    {
      var ids := pending.Keys;
      while ids != {}
        invariant ids <= pending.Keys
        invariant pending == map k | k in old(pending) && (k in ids || !doomed(old(pending)[k].binding)) :: old(pending)[k]
        decreases ids
      {
        var id :| id in ids;
        if doomed(pending[id].binding) {
          pending := pending - {id};
        }
        ids := ids - {id};
      }
    }

    method ClearAll()
      modifies this
      ensures pending == Step(rules, old(pending), Event<B>.Clear)
    {
      pending := map[];
    }
  }

  // ---------------------------------------------------------------- runs

  /** The pending confirmations after the first `n` calls on a new registry. */
  function After<B>(rules: Rules<B>, run: seq<Event<B>>, n: nat): map<Text, Pending<B>>
    requires n <= |run|
  {
    if n == 0 then map[] else Step(rules, After(rules, run, n - 1), run[n - 1])
  }

  /** The `j`-th call is a consume and it succeeds. */
  predicate Consumed<B>(rules: Rules<B>, run: seq<Event<B>>, j: nat)
    requires j < |run|
  {
    run[j].Consume? && Succeeds(rules, After(rules, run, j), run[j])
  }

  /** No two creates are given the same id. */
  ghost predicate FreshIds<B(!new)>(run: seq<Event<B>>) {
    forall i, j :: 0 <= i < j < |run| && run[i].Create? && run[j].Create? ==> run[i].id != run[j].id
  }

  /** Clock readings never go back, neither between calls nor within one. */
  ghost predicate ClockMonotone<B(!new)>(run: seq<Event<B>>) {
    && (forall i :: 0 <= i < |run| && (run[i].Create? || run[i].Consume?) ==> run[i].prunedAt <= run[i].at)
    && (forall i, j :: 0 <= i < j < |run| && Timed(run[i]) && Timed(run[j]) ==> LastReading(run[i]) <= run[j].prunedAt)
  }

  predicate Timed<B>(e: Event<B>) {
    e.Create? || e.Consume? || e.HasPending?
  }

  function LastReading<B>(e: Event<B>): int
    requires Timed(e)
  {
    if e.HasPending? then e.prunedAt else e.at
  }

  /** The `i`-th call created `id`, and nothing in between up to `n` took it away again. */
  ghost predicate Stands<B(!new)>(rules: Rules<B>, run: seq<Event<B>>, i: nat, n: nat, id: Text)
    requires n <= |run|
  {
    && i < n && run[i].Create? && run[i].id == id && rules.accepts(run[i].binding)
    && forall k :: i < k < n ==>
         && !run[k].Clear?
         && (run[k].Discard? ==> !run[k].doomed(run[i].binding))
         && (Consumed(rules, run, k) ==> run[k].id != id)
  }

  /** Whatever is pending was created, with that binding and expiry, and still stands. */
  lemma {:induction false} PendingWasCreated<B(!new)>(rules: Rules<B>, run: seq<Event<B>>, n: nat, id: Text) returns (i: nat)
    requires n <= |run| && id in After(rules, run, n)
    ensures Stands(rules, run, i, n, id)
    ensures After(rules, run, n)[id] == Pending(run[i].binding, run[i].at + rules.ttl)
  {
    var s, e := After(rules, run, n - 1), run[n - 1];
    if e.Create? && rules.accepts(e.binding) && e.id == id {
      i := n - 1;
    } else {
      assert id in s && s[id] == After(rules, run, n)[id];
      i := PendingWasCreated(rules, run, n - 1, id);
    }
  }

  /** A standing confirmation that has not expired at any reading so far is pending. */
  lemma {:induction false} StandingIsPending<B(!new)>(rules: Rules<B>, run: seq<Event<B>>, i: nat, n: nat, id: Text)
    requires n <= |run| && Stands(rules, run, i, n, id) && FreshIds(run)
    requires forall k :: i < k < n && Timed(run[k]) ==> run[k].prunedAt <= LastReading(run[k]) < run[i].at + rules.ttl
    ensures id in After(rules, run, n)
    ensures After(rules, run, n)[id] == Pending(run[i].binding, run[i].at + rules.ttl)
    decreases n
  {
    if i < n - 1 {
      StandingIsPending(rules, run, i, n - 1, id);
      var k := n - 1;
      assert Timed(run[k]) ==> run[k].prunedAt <= LastReading(run[k]);
      assert Consumed(rules, run, k) ==> run[k].id != id;
    }
  }

  /** The `i`-th call created what the `j`-th one consumes, in time and for a matching binding. */
  ghost predicate Grants<B(!new)>(rules: Rules<B>, run: seq<Event<B>>, i: nat, j: nat)
    requires j < |run| && run[j].Consume?
  {
    && Stands(rules, run, i, j, run[j].id)
    && rules.same(run[i].binding, run[j].binding) && run[j].at < run[i].at + rules.ttl
  }

  /**
   Exactly when a consume succeeds: its own binding is valid, and an earlier create granted it,
   whatever failed or mismatched consumes came between.
   */
  lemma ConsumeIff<B(!new)>(rules: Rules<B>, run: seq<Event<B>>, j: nat)
    requires j < |run| && run[j].Consume? && FreshIds(run) && ClockMonotone(run)
    ensures Consumed(rules, run, j) <==>
            rules.accepts(run[j].binding) && exists i :: 0 <= i < j && Grants(rules, run, i, j)
  {
    if Consumed(rules, run, j) {
      var i := PendingWasCreated(rules, run, j, run[j].id);
      assert Grants(rules, run, i, j);
    }
    forall i | 0 <= i < j && Grants(rules, run, i, j) && rules.accepts(run[j].binding)
      ensures Consumed(rules, run, j)
    {
      forall k | i < k < j && Timed(run[k])
        ensures run[k].prunedAt <= LastReading(run[k]) < run[i].at + rules.ttl
      {
        assert LastReading(run[k]) <= run[j].prunedAt <= run[j].at;
      }
      StandingIsPending(rules, run, i, j, run[j].id);
    }
  }

  ghost predicate Finds<B>(s: map<Text, Pending<B>>, wanted: B -> bool) {
    exists id :: id in s && wanted(s[id].binding)
  }

  /** Asking whether something is pending finds exactly what was created, still stands and has not expired. */
  lemma HasPendingIff<B(!new)>(rules: Rules<B>, run: seq<Event<B>>, j: nat, wanted: B -> bool)
    requires j < |run| && run[j].HasPending? && FreshIds(run) && ClockMonotone(run)
    ensures Finds(After(rules, run, j + 1), wanted) <==>
            exists i :: 0 <= i < j && run[i].Create? && Stands(rules, run, i, j, run[i].id) &&
                        run[j].prunedAt < run[i].at + rules.ttl && wanted(run[i].binding)
  {
    var before, now := After(rules, run, j), run[j].prunedAt;
    assert After(rules, run, j + 1) == Unexpired(before, now);
    forall id | id in Unexpired(before, now) && wanted(before[id].binding)
      ensures exists i :: 0 <= i < j && run[i].Create? && Stands(rules, run, i, j, run[i].id) &&
                          now < run[i].at + rules.ttl && wanted(run[i].binding)
    {
      UnexpiredIff(before, now, id);
      var i := PendingWasCreated(rules, run, j, id);
      assert Stands(rules, run, i, j, run[i].id);
    }
    forall i | 0 <= i < j && run[i].Create? && Stands(rules, run, i, j, run[i].id) && now < run[i].at + rules.ttl && wanted(run[i].binding)
      ensures run[i].id in Unexpired(before, now) && wanted(before[run[i].id].binding)
    {
      forall k | i < k < j && Timed(run[k]) ensures run[k].prunedAt <= LastReading(run[k]) < run[i].at + rules.ttl {
        assert LastReading(run[k]) <= run[j].prunedAt;
      }
      StandingIsPending(rules, run, i, j, run[i].id);
      UnexpiredIff(before, now, run[i].id);
    }
  }

  /** Successful consumes go with distinct creates: no confirmation is ever used twice. */
  lemma ConsumedOnce<B(!new)>(rules: Rules<B>, run: seq<Event<B>>, j: nat, k: nat)
    requires j < k < |run| && Consumed(rules, run, j) && Consumed(rules, run, k) && FreshIds(run)
    ensures run[j].id != run[k].id
  {
    if run[j].id == run[k].id {
      var first := PendingWasCreated(rules, run, j, run[j].id);
      var second := PendingWasCreated(rules, run, k, run[k].id);
    }
  }
}

/** Names of source-control operations. */
module SourceControl {
  import opened Texts

  /** The operation names the schemas list; any other string is `Other`. */
  datatype Operation =
    | GitCreateBranch | GitStagePaths | GitUnstagePaths | GitCommit | GitMergeBranch | GitSyncBranch
    | GitPushBranch | GitPublishTag
    | GithubGetRepository | GithubGetCommitChecks | GithubMaterializeActionsArtifact
    | GithubStartCommitChecksWatch | GithubGetCommitChecksWatches | GithubWaitCommitChecksWatch
    | GithubWorkflowOperation | GithubCreateRepository | GithubGetPullRequest | GithubCreatePullRequest
    | GithubClosePullRequest | GithubMarkPullRequestReady | GithubMergePullRequest | GithubRead | GithubIssueWrite
    | OracleReleaseAdvance
    | Other(name: Text)

  predicate Confirmable(op: Operation) {
    match op
    case GitPushBranch => true
    case GitPublishTag => true
    case GithubCreateRepository => true
    case GithubCreatePullRequest => true
    case GithubClosePullRequest => true
    case GithubMarkPullRequestReady => true
    case GithubMergePullRequest => true
    case GithubIssueWrite => true
    case _ => false
  }
}

/** The two kinds of binding, and confirming a source-control mutation end to end. */
module ConfirmationBindings {
  import opened Common
  import opened Texts
  import opened Json
  import opened ArgumentsDigest
  import opened Confirmations
  import opened SourceControl
  import Utf8

  const MAX_TYPED_TTL_MS := 600_000

  datatype TypedBinding = TypedBinding(workspaceId: Text, operation: Operation, targetResource: Text, digest: Text)

  datatype Category =
    | SubmitForm | PublishContent | SendMessage | DeleteOrCancel | PurchaseOrPayment
    | ChangeCredentials | AcceptTermsOrContract | UploadFile | ExecuteScript

  datatype BrowserBinding =
    BrowserBinding(tabId: Text, origin: Text, url: Text, category: Category, action: Text, target: Text)

  /** Equal length and `timingSafeEqual` on the UTF-8 bytes. */
  predicate SafeEqual(left: Text, right: Text) {
    Utf8.Encode(left) == Utf8.Encode(right)
  }

  predicate IsSha256Hex(t: Text) {
    |t| == 64 && forall i :: 0 <= i < 64 ==> 0x30 <= t[i] <= 0x39 || 0x61 <= t[i] <= 0x66
  }

  predicate AcceptsTyped(b: TypedBinding) {
    Trim(b.workspaceId) != [] && Trim(b.targetResource) != [] && Confirmable(b.operation) && IsSha256Hex(b.digest)
  }

  predicate SameTyped(l: TypedBinding, r: TypedBinding) {
    SafeEqual(l.workspaceId, r.workspaceId) && l.operation == r.operation &&
    SafeEqual(l.targetResource, r.targetResource) && SafeEqual(l.digest, r.digest)
  }

  predicate SameBrowser(l: BrowserBinding, r: BrowserBinding) {
    SafeEqual(l.tabId, r.tabId) && SafeEqual(l.origin, r.origin) && SafeEqual(l.url, r.url) &&
    l.category == r.category && SafeEqual(l.action, r.action) && SafeEqual(l.target, r.target)
  }

  function TypedRules(ttlMs: int): Rules<TypedBinding> {
    Rules(ttlMs, AcceptsTyped, SameTyped)
  }

  function BrowserRules(ttlMs: int): Rules<BrowserBinding> {
    Rules(ttlMs, b => true, SameBrowser)
  }

  /** The typed registry's constructor refuses a lifetime outside 1 ms to 10 minutes. */
  method NewTypedRegistry(ttlMs: Option<int>) returns (r: Result<Registry<TypedBinding>>)
    ensures r.Ok? <==> ttlMs.None? || 1 <= ttlMs.value <= MAX_TYPED_TTL_MS
    ensures r.Ok? ==> fresh(r.value) && r.value.pending == map[] &&
                      r.value.rules == TypedRules(if ttlMs.None? then MAX_TYPED_TTL_MS else ttlMs.value)
  {
    var ttl := if ttlMs.None? then MAX_TYPED_TTL_MS else ttlMs.value;
    if ttl <= 0 || ttl > MAX_TYPED_TTL_MS {
      return Err;
    }
    var registry := new Registry(TypedRules(ttl));
    return Ok(registry);
  }

  /** The bindings that `discardTabs` and `hasPendingTabs` select. */
  function InTabs(tabIds: seq<Text>): BrowserBinding -> bool {
    (b: BrowserBinding) => b.tabId in tabIds
  }

  /** Once its tab is discarded, or the registry cleared, a confirmation is never accepted again. */
  lemma DiscardedIsNeverConsumed(ttlMs: int, run: seq<Event<BrowserBinding>>, i: nat, k: nat, j: nat, tabIds: seq<Text>)
    requires i < k < j < |run| && run[i].Create? && run[j].Consume? && run[j].id == run[i].id && FreshIds(run)
    requires run[k].Clear? || (run[k] == Discard(InTabs(tabIds)) && run[i].binding.tabId in tabIds)
    ensures !Consumed(BrowserRules(ttlMs), run, j)
  {
    if Consumed(BrowserRules(ttlMs), run, j) {
      var created := PendingWasCreated(BrowserRules(ttlMs), run, j, run[j].id);
    }
  }

  /** A confirmation survives a discard exactly when its tab is not in the list, and is not changed by it. */
  lemma SurvivesDiscardIff(ttlMs: int, s: map<Text, Pending<BrowserBinding>>, tabIds: seq<Text>, id: Text)
    ensures var t := Step(BrowserRules(ttlMs), s, Discard(InTabs(tabIds)));
            && (id in t <==> id in s && forall i :: 0 <= i < |tabIds| ==> tabIds[i] != s[id].binding.tabId)
            && (id in t ==> t[id] == s[id])
  {
  }

  /** Asking about tabs looks at exactly the bindings whose tab is in the list. */
  lemma InTabsIff(tabIds: seq<Text>, b: BrowserBinding)
    ensures InTabs(tabIds)(b) <==> exists i :: 0 <= i < |tabIds| && tabIds[i] == b.tabId
  {
  }

  /** Exactly which typed bindings are valid. */
  lemma AcceptsTypedIff(b: TypedBinding)
    ensures AcceptsTyped(b) <==>
            && (exists u :: u in b.workspaceId && !IsSpace(u)) && (exists u :: u in b.targetResource && !IsSpace(u))
            && b.operation in {GitPushBranch, GitPublishTag, GithubCreateRepository, GithubCreatePullRequest,
                               GithubClosePullRequest, GithubMarkPullRequestReady, GithubMergePullRequest, GithubIssueWrite}
            && |b.digest| == 64 && (forall u :: u in b.digest ==> 0x30 <= u <= 0x39 || 0x61 <= u <= 0x66)
  {
    TrimEmptyIff(b.workspaceId);
    TrimEmptyIff(b.targetResource);
    assert forall i :: 0 <= i < |b.digest| ==> b.digest[i] in b.digest;
    assert Confirmable(b.operation) <==>
           b.operation in {GitPushBranch, GitPublishTag, GithubCreateRepository, GithubCreatePullRequest,
                           GithubClosePullRequest, GithubMarkPullRequestReady, GithubMergePullRequest, GithubIssueWrite};
  }

  /** The binding with every unpaired surrogate replaced by U+FFFD. */
  function RepairedTyped(b: TypedBinding): TypedBinding {
    TypedBinding(Utf8.Repaired(b.workspaceId), b.operation, Utf8.Repaired(b.targetResource), Utf8.Repaired(b.digest))
  }

  function RepairedBrowser(b: BrowserBinding): BrowserBinding {
    BrowserBinding(Utf8.Repaired(b.tabId), Utf8.Repaired(b.origin), Utf8.Repaired(b.url), b.category,
                   Utf8.Repaired(b.action), Utf8.Repaired(b.target))
  }

  /** Two bindings match exactly when their repaired forms are equal. */
  lemma SameTypedIff(l: TypedBinding, r: TypedBinding)
    ensures SameTyped(l, r) <==> RepairedTyped(l) == RepairedTyped(r)
  {
    Utf8.SameBytesExactly(l.workspaceId, r.workspaceId);
    Utf8.SameBytesExactly(l.targetResource, r.targetResource);
    Utf8.SameBytesExactly(l.digest, r.digest);
  }

  lemma SameBrowserIff(l: BrowserBinding, r: BrowserBinding)
    ensures SameBrowser(l, r) <==> RepairedBrowser(l) == RepairedBrowser(r)
  {
    Utf8.SameBytesExactly(l.tabId, r.tabId);
    Utf8.SameBytesExactly(l.origin, r.origin);
    Utf8.SameBytesExactly(l.url, r.url);
    Utf8.SameBytesExactly(l.action, r.action);
    Utf8.SameBytesExactly(l.target, r.target);
  }

  predicate UnmistakableTyped(b: TypedBinding) {
    Utf8.OneText(b.workspaceId) && Utf8.OneText(b.targetResource)
  }

  predicate UnmistakableBrowser(b: BrowserBinding) {
    Utf8.OneText(b.tabId) && Utf8.OneText(b.origin) && Utf8.OneText(b.url) && Utf8.OneText(b.action) && Utf8.OneText(b.target)
  }

  /**
   When a typed confirmation is accepted, spelt out: the binding is valid, and some create with the
   same id and the same binding, up to unpaired surrogates, was made less than the lifetime ago and
   was not consumed in between.
   */
  lemma TypedConsumeIff(ttlMs: int, run: seq<Event<TypedBinding>>, j: nat)
    requires j < |run| && run[j].Consume? && FreshIds(run) && ClockMonotone(run)
    requires forall k :: 0 <= k < |run| ==> !run[k].Discard? && !run[k].Clear?
    ensures Consumed(TypedRules(ttlMs), run, j) <==>
            AcceptsTyped(run[j].binding) &&
            exists i :: 0 <= i < j && run[i].Create? && run[i].id == run[j].id && AcceptsTyped(run[i].binding) &&
                        RepairedTyped(run[i].binding) == RepairedTyped(run[j].binding) && run[j].at < run[i].at + ttlMs &&
                        forall k :: i < k < j && Consumed(TypedRules(ttlMs), run, k) ==> run[k].id != run[j].id
  {
    var rules := TypedRules(ttlMs);
    ConsumeIff(rules, run, j);
    forall i | 0 <= i < j && run[i].Create? ensures SameTyped(run[i].binding, run[j].binding) <==> RepairedTyped(run[i].binding) == RepairedTyped(run[j].binding) {
      SameTypedIff(run[i].binding, run[j].binding);
    }
    forall i | 0 <= i < j
      ensures Grants(rules, run, i, j) <==>
              && run[i].Create? && run[i].id == run[j].id && AcceptsTyped(run[i].binding)
              && RepairedTyped(run[i].binding) == RepairedTyped(run[j].binding) && run[j].at < run[i].at + ttlMs
              && forall k :: i < k < j && Consumed(rules, run, k) ==> run[k].id != run[j].id
    {
    }
  }

  /** The same for the browser, where a create must also not have been discarded or cleared in between. */
  lemma BrowserConsumeIff(ttlMs: int, run: seq<Event<BrowserBinding>>, j: nat)
    requires j < |run| && run[j].Consume? && FreshIds(run) && ClockMonotone(run)
    ensures Consumed(BrowserRules(ttlMs), run, j) <==>
            exists i :: 0 <= i < j && run[i].Create? && run[i].id == run[j].id &&
                        RepairedBrowser(run[i].binding) == RepairedBrowser(run[j].binding) && run[j].at < run[i].at + ttlMs &&
                        forall k :: i < k < j ==>
                          !run[k].Clear? && (run[k].Discard? ==> !run[k].doomed(run[i].binding)) &&
                          (Consumed(BrowserRules(ttlMs), run, k) ==> run[k].id != run[j].id)
  {
    var rules := BrowserRules(ttlMs);
    ConsumeIff(rules, run, j);
    forall i | 0 <= i < j && run[i].Create? ensures SameBrowser(run[i].binding, run[j].binding) <==> RepairedBrowser(run[i].binding) == RepairedBrowser(run[j].binding) {
      SameBrowserIff(run[i].binding, run[j].binding);
    }
    forall i | 0 <= i < j
      ensures Grants(rules, run, i, j) <==>
              && run[i].Create? && run[i].id == run[j].id
              && RepairedBrowser(run[i].binding) == RepairedBrowser(run[j].binding) && run[j].at < run[i].at + ttlMs
              && forall k :: i < k < j ==>
                   !run[k].Clear? && (run[k].Discard? ==> !run[k].doomed(run[i].binding)) &&
                   (Consumed(rules, run, k) ==> run[k].id != run[j].id)
    {
    }
  }

  /**
   "Matches" means "equals" exactly for the bindings whose texts are well formed and free of U+FFFD:
   such a valid binding matches no other valid one, and every other has a different valid match.
   */
  lemma TypedMatchesOnlyItselfIff(l: TypedBinding)
    requires AcceptsTyped(l)
    ensures (forall r :: AcceptsTyped(r) && SameTyped(l, r) ==> r == l) <==> UnmistakableTyped(l)
  {
    if UnmistakableTyped(l) {
      forall r | AcceptsTyped(r) && SameTyped(l, r) ensures r == l {
        Utf8.OneTextAlone(l.workspaceId, r.workspaceId);
        Utf8.OneTextAlone(l.targetResource, r.targetResource);
        MatchingDigests(l, r);
      }
    } else if !Utf8.OneText(l.workspaceId) {
      TwinIsAccepted(l.workspaceId);
      var r := l.(workspaceId := Utf8.Twin(l.workspaceId));
      assert AcceptsTyped(r) && SameTyped(l, r) && r != l;
    } else {
      TwinIsAccepted(l.targetResource);
      var r := l.(targetResource := Utf8.Twin(l.targetResource));
      assert AcceptsTyped(r) && SameTyped(l, r) && r != l;
    }
  }

  lemma TwinIsAccepted(t: Text)
    requires !Utf8.OneText(t)
    ensures Utf8.Twin(t) != t && SafeEqual(t, Utf8.Twin(t)) && Trim(Utf8.Twin(t)) != []
  {
    Utf8.TwinDiffers(t);
    TrimKeepsContent(Utf8.Twin(t), if Utf8.REPLACEMENT in Utf8.Twin(t) then Utf8.REPLACEMENT else 0xDC00);
  }

  lemma BrowserMatchesOnlyItselfIff(l: BrowserBinding)
    ensures (forall r :: SameBrowser(l, r) ==> r == l) <==> UnmistakableBrowser(l)
  {
    if UnmistakableBrowser(l) {
      forall r | SameBrowser(l, r) ensures r == l {
        Utf8.OneTextAlone(l.tabId, r.tabId);
        Utf8.OneTextAlone(l.origin, r.origin);
        Utf8.OneTextAlone(l.url, r.url);
        Utf8.OneTextAlone(l.action, r.action);
        Utf8.OneTextAlone(l.target, r.target);
      }
    } else {
      var r := BrowserTwin(l);
      assert SameBrowser(l, r) && r != l;
    }
  }

  lemma BrowserTwin(l: BrowserBinding) returns (r: BrowserBinding)
    requires !UnmistakableBrowser(l)
    ensures SameBrowser(l, r) && r != l
  {
    if !Utf8.OneText(l.tabId) {
      Utf8.TwinDiffers(l.tabId);
      r := l.(tabId := Utf8.Twin(l.tabId));
    } else if !Utf8.OneText(l.origin) {
      Utf8.TwinDiffers(l.origin);
      r := l.(origin := Utf8.Twin(l.origin));
    } else if !Utf8.OneText(l.url) {
      Utf8.TwinDiffers(l.url);
      r := l.(url := Utf8.Twin(l.url));
    } else if !Utf8.OneText(l.action) {
      Utf8.TwinDiffers(l.action);
      r := l.(action := Utf8.Twin(l.action));
    } else {
      Utf8.TwinDiffers(l.target);
      r := l.(target := Utf8.Twin(l.target));
    }
  }

  /** Workspaces named by different unpaired surrogates are taken for the same one. */
  lemma DifferentBindingsCanMatch(operation: Operation, targetResource: Text, digest: Text)
    requires Confirmable(operation) && Trim(targetResource) != [] && IsSha256Hex(digest)
    ensures var l, r := TypedBinding([0xD800], operation, targetResource, digest), TypedBinding([0xDFFF], operation, targetResource, digest);
            AcceptsTyped(l) && AcceptsTyped(r) && SameTyped(l, r) && l != r
  {
    Utf8.UnpairedSurrogatesCollide();
    assert [0xD800][0] != [0xDFFF][0];
  }

  lemma {:induction false} AsciiIsWellFormed(t: Text)
    requires forall i :: 0 <= i < |t| ==> t[i] < 0x80
    ensures Utf8.WellFormed(t)
  {
    if t != [] {
      AsciiIsWellFormed(t[1..]);
    }
  }

  /** What `hash`, which is SHA-256 in hexadecimal, makes of the arguments. */
  function DigestOf(hash: Utf8.Bytes -> Text, arguments: Js): Text
    requires DigestText(arguments).Ok?
  {
    hash(Utf8.Encode(DigestText(arguments).value))
  }

  /** The binding of a source-control call. */
  function BindingFor(hash: Utf8.Bytes -> Text, workspaceId: Text, operation: Operation, targetResource: Text, arguments: Js): TypedBinding
    requires DigestText(arguments).Ok?
  {
    TypedBinding(workspaceId, operation, targetResource, DigestOf(hash, arguments))
  }

  /**
   Confirm and retry closes. A confirmation created for some arguments, still standing and not
   expired, is accepted when they come back with confirmation ids added at any depth.
   */
  lemma ConfirmAndRetry(hash: Utf8.Bytes -> Text, ttlMs: int, run: seq<Event<TypedBinding>>, i: nat, j: nat,
                        workspaceId: Text, operation: Operation, targetResource: Text, arguments: Js, retry: Js)
    requires i < j < |run| && FreshIds(run) && ClockMonotone(run)
    requires run[j].Consume? && Stands(TypedRules(ttlMs), run, i, j, run[j].id) && run[j].at < run[i].at + ttlMs
    requires Bare(retry) == Bare(arguments) && DigestText(arguments).Ok?
    requires run[i].binding == BindingFor(hash, workspaceId, operation, targetResource, arguments)
    requires DigestText(retry).Ok? ==> run[j].binding == BindingFor(hash, workspaceId, operation, targetResource, retry)
    ensures DigestText(retry).Ok? && Consumed(TypedRules(ttlMs), run, j)
  {
    DigestIgnoresConfirmationIds(arguments);
    DigestIgnoresConfirmationIds(retry);
    assert run[i].binding == run[j].binding;
    assert Grants(TypedRules(ttlMs), run, i, j);
    ConsumeIff(TypedRules(ttlMs), run, j);
  }

  /** Every create and consume of the run carries the digest of its arguments. */
  ghost predicate Digested(hash: Utf8.Bytes -> Text, run: seq<Event<TypedBinding>>, arguments: seq<Js>) {
    |arguments| == |run| &&
    forall k :: 0 <= k < |run| && (run[k].Create? || run[k].Consume?) ==>
      Valid(arguments[k]) && DigestText(arguments[k]).Ok? && run[k].binding.digest == DigestOf(hash, arguments[k])
  }

  /** The hash tells apart the bytes it is given for these arguments. */
  ghost predicate NoCollision(hash: Utf8.Bytes -> Text, arguments: seq<Js>) {
    forall a, b :: a in arguments && b in arguments && DigestText(a).Ok? && DigestText(b).Ok? ==>
      DigestOf(hash, a) == DigestOf(hash, b) ==> Utf8.Encode(DigestText(a).value) == Utf8.Encode(DigestText(b).value)
  }

  /**
   And it is accepted for no other arguments: over every run, whatever is consumed was granted by a
   create for the same operation and for arguments with the same pruned meaning, and for the very same
   binding if its texts are well formed and free of U+FFFD.
   */
  lemma ConsumedForSameArguments(hash: Utf8.Bytes -> Text, ttlMs: int, run: seq<Event<TypedBinding>>, arguments: seq<Js>, j: nat)
    requires j < |run| && FreshIds(run) && ClockMonotone(run) && Consumed(TypedRules(ttlMs), run, j)
    requires Digested(hash, run, arguments) && NoCollision(hash, arguments)
    ensures exists i :: 0 <= i < j && Grants(TypedRules(ttlMs), run, i, j) &&
                        run[i].binding.operation == run[j].binding.operation &&
                        Pruned(Meaning(arguments[i])) == Pruned(Meaning(arguments[j])) &&
                        (UnmistakableTyped(run[i].binding) ==> run[i].binding == run[j].binding)
  {
    ConsumeIff(TypedRules(ttlMs), run, j);
    var i :| 0 <= i < j && Grants(TypedRules(ttlMs), run, i, j);
    MatchingDigests(run[i].binding, run[j].binding);
    TypedMatchesOnlyItselfIff(run[i].binding);
    DigestBytesIff(arguments[i], arguments[j]);
  }

  lemma MatchingDigests(l: TypedBinding, r: TypedBinding)
    requires AcceptsTyped(l) && AcceptsTyped(r) && SameTyped(l, r)
    ensures l.digest == r.digest && l.operation == r.operation
  {
    AsciiIsWellFormed(l.digest);
    AsciiIsWellFormed(r.digest);
    Utf8.SameBytesSameText(l.digest, r.digest);
  }
}
