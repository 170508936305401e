/** Log files with numbered archives, rotated and appended one file operation at a time. */
module LogRotation {
  import opened Common
  import opened Texts
  import opened Utf8

  const MAX_LOG_BYTES := 4 * 1024 * 1024
  const ARCHIVES := 3
  const MAX_VALUE := 8192
  const TRUNCATED: Text := Ascii(" [truncated]")

  /** The files by number: 0 is the current log, 1 to 3 its archives, newest first. */
  type Files = map<nat, Bytes>

  datatype Op = Delete(index: nat) | Move(from: nat) | Append(bytes: Bytes)

  /** What the file system accepts: a move goes to the next number and never onto an existing file. */
  predicate Legal(s: Files, op: Op) {
    match op
    case Delete(i) => i == ARCHIVES && i in s
    case Move(i) => i < ARCHIVES && i in s && i + 1 !in s
    case Append(_) => true
  }

  function Apply(s: Files, op: Op): Files
    requires Legal(s, op)
  {
    match op
    case Delete(i) => s - {i}
    case Move(i) => (s - {i})[i + 1 := s[i]]
    case Append(b) => s[0 := if 0 in s then s[0] + b else b]
  }

  predicate AllLegal(s: Files, ops: seq<Op>)
    decreases |ops|
  {
    ops == [] || (Legal(s, ops[0]) && AllLegal(Apply(s, ops[0]), ops[1..]))
  }

  function Run(s: Files, ops: seq<Op>): Files
    requires AllLegal(s, ops)
    decreases |ops|
  {
    if ops == [] then s else Run(Apply(s, ops[0]), ops[1..])
  }

  lemma {:induction false} RunConcat(s: Files, a: seq<Op>, b: seq<Op>)
    requires AllLegal(s, a)
    ensures AllLegal(s, a + b) <==> AllLegal(Run(s, a), b)
    ensures AllLegal(s, a + b) ==> Run(s, a + b) == Run(Run(s, a), b)
    decreases |a|
  {
    if a == [] {
      assert a + b == b;
    } else {
      assert (a + b)[0] == a[0] && (a + b)[1..] == a[1..] + b;
      RunConcat(Apply(s, a[0]), a[1..], b);
    }
  }

  lemma {:induction false} PrefixLegal(s: Files, ops: seq<Op>, k: nat)
    requires AllLegal(s, ops) && k <= |ops|
    ensures AllLegal(s, ops[..k])
    decreases |ops|
  {
    if k > 0 {
      assert ops[..k][0] == ops[0] && ops[..k][1..] == ops[1..][..k - 1];
      PrefixLegal(Apply(s, ops[0]), ops[1..], k - 1);
    }
  }

  // ---------------------------------------------------------------- the operations of one call

  /** The descending loop: each archive that exists when its turn comes moves up by one. */
  function ShiftOps(s: Files, index: nat): seq<Op>
    requires index + 1 !in s && index < ARCHIVES
    decreases index
  {
    if index == 0 then []
    else if index in s then [Move(index)] + ShiftOps(Apply(s, Move(index)), index - 1)
    else ShiftOps(s, index - 1)
  }

  function DeleteOps(s: Files): seq<Op> {
    if ARCHIVES in s then [Delete(ARCHIVES)] else []
  }

  function RotationOps(s: Files): seq<Op> {
    DeleteOps(s) + ShiftOps(s - {ARCHIVES}, ARCHIVES - 1) + [Move(0)]
  }

  predicate NeedsRotation(s: Files, incoming: nat) {
    0 in s && |s[0]| + incoming > MAX_LOG_BYTES
  }

  function RotationIfNeeded(s: Files, incoming: nat): seq<Op> {
    if NeedsRotation(s, incoming) then RotationOps(s) else []
  }

  /** Everything `AppendLine` does when nothing fails. */
  function Plan(s: Files, line: Bytes): seq<Op> {
    RotationIfNeeded(s, |line|) + [Append(line)]
  }

  // ---------------------------------------------------------------- the invariant

  function Get(s: Files, i: nat): Bytes {
    if i in s then s[i] else []
  }

  /** All that is on disk, oldest first. */
  function Tail(s: Files): Bytes {
    Get(s, 3) + Get(s, 2) + Get(s, 1) + Get(s, 0)
  }

  predicate IsSuffix(t: Bytes, of: Bytes) {
    |t| <= |of| && of[|of| - |t|..] == t
  }

  /** The files hold the end of what was ever appended, in order, and none is over the size limit. */
  ghost predicate Inv(s: Files, history: Bytes) {
    && (forall i :: i in s ==> i <= ARCHIVES && |s[i]| <= MAX_LOG_BYTES)
    && IsSuffix(Tail(s), history)
  }

  lemma MoveKeepsTail(s: Files, i: nat)
    requires Legal(s, Move(i))
    ensures Tail(Apply(s, Move(i))) == Tail(s)
  {
    var t := Apply(s, Move(i));
    assert forall j :: j != i && j != i + 1 ==> Get(t, j) == Get(s, j);
    assert Get(t, i + 1) == Get(s, i) && Get(t, i) == [] == Get(s, i + 1);
  }

  lemma DeleteDropsOldest(s: Files)
    requires ARCHIVES in s
    ensures Tail(s) == s[ARCHIVES] + Tail(Apply(s, Delete(ARCHIVES)))
  {
    var t := Apply(s, Delete(ARCHIVES));
    assert Get(t, 3) == [] && Get(t, 2) == Get(s, 2) && Get(t, 1) == Get(s, 1) && Get(t, 0) == Get(s, 0);
    assert Get(s, 3) + (Get(s, 2) + Get(s, 1) + Get(s, 0)) == Tail(s);
  }

  lemma AppendExtendsTail(s: Files, b: Bytes)
    ensures Tail(Apply(s, Append(b))) == Tail(s) + b
  {
    var t := Apply(s, Append(b));
    assert Get(t, 3) == Get(s, 3) && Get(t, 2) == Get(s, 2) && Get(t, 1) == Get(s, 1) && Get(t, 0) == Get(s, 0) + b;
  }

  /** Deleting and moving keep the invariant, whatever the order. */
  lemma StepKeepsInv(s: Files, op: Op, history: Bytes)
    requires Inv(s, history) && Legal(s, op) && !op.Append?
    ensures Inv(Apply(s, op), history)
  {
    if op.Delete? {
      DeleteDropsOldest(s);
    } else {
      MoveKeepsTail(s, op.from);
    }
  }

  lemma {:induction false} StepsKeepInv(s: Files, ops: seq<Op>, history: Bytes)
    requires Inv(s, history) && AllLegal(s, ops) && forall i :: 0 <= i < |ops| ==> !ops[i].Append?
    ensures Inv(Run(s, ops), history)
    decreases |ops|
  {
    if ops != [] {
      StepKeepsInv(s, ops[0], history);
      StepsKeepInv(Apply(s, ops[0]), ops[1..], history);
    }
  }

  /** The loop never moves onto an existing file, frees number 1, and leaves the current log alone. */
  lemma {:induction false} ShiftsAreLegal(s: Files, index: nat)
    requires index + 1 !in s && index < ARCHIVES
    ensures AllLegal(s, ShiftOps(s, index)) && forall i :: 0 <= i < |ShiftOps(s, index)| ==> ShiftOps(s, index)[i].Move?
    ensures var t := Run(s, ShiftOps(s, index));
            1 !in t && (0 in s <==> 0 in t) && (0 in s ==> t[0] == s[0]) && Tail(t) == Tail(s)
    decreases index
  {
    if index > 0 {
      if index in s {
        MoveKeepsTail(s, index);
        ShiftsAreLegal(Apply(s, Move(index)), index - 1);
        var rest := ShiftOps(Apply(s, Move(index)), index - 1);
        assert ([Move(index)] + rest)[1..] == rest;
      } else {
        ShiftsAreLegal(s, index - 1);
      }
    }
  }

  /** A rotation can always be carried out; it loses the oldest archive and nothing else. */
  lemma RotationIsLegal(s: Files)
    requires 0 in s
    ensures AllLegal(s, RotationOps(s)) && forall i :: 0 <= i < |RotationOps(s)| ==> !RotationOps(s)[i].Append?
    ensures var t := Run(s, RotationOps(s));
            0 !in t && Tail(s) == Get(s, ARCHIVES) + Tail(t)
  {
    var a, s1 := DeleteOps(s), s - {ARCHIVES};
    assert AllLegal(s, a) && Run(s, a) == s1 && Tail(s) == Get(s, ARCHIVES) + Tail(s1) by {
      DeletesAreLegal(s);
    }
    var b := ShiftOps(s1, ARCHIVES - 1);
    ShiftsAreLegal(s1, ARCHIVES - 1);
    RunConcat(s, a, b);
    var s2 := Run(s1, b);
    RunConcat(s, a + b, [Move(0)]);
    assert AllLegal(s2, [Move(0)]) && Run(s2, [Move(0)]) == Apply(s2, Move(0)) by {
      assert [Move(0)][1..] == [];
    }
    MoveKeepsTail(s2, 0);
  }

  lemma DeletesAreLegal(s: Files)
    ensures AllLegal(s, DeleteOps(s)) && Run(s, DeleteOps(s)) == s - {ARCHIVES}
    ensures Tail(s) == Get(s, ARCHIVES) + Tail(s - {ARCHIVES})
  {
    if ARCHIVES in s {
      assert [Delete(ARCHIVES)][1..] == [];
      DeleteDropsOldest(s);
    } else {
      assert s - {ARCHIVES} == s;
    }
  }

  lemma PlanIsLegal(s: Files, line: Bytes)
    ensures AllLegal(s, Plan(s, line))
    ensures Tail(Run(s, Plan(s, line))) ==
            (if NeedsRotation(s, |line|) then Tail(s)[|Get(s, ARCHIVES)|..] else Tail(s)) + line
  {
    var last := [Append(line)];
    assert last[1..] == [];
    if NeedsRotation(s, |line|) {
      RotationIsLegal(s);
      RunConcat(s, RotationOps(s), last);
      AppendExtendsTail(Run(s, RotationOps(s)), line);
    } else {
      assert Plan(s, line) == last;
      AppendExtendsTail(s, line);
    }
  }

  lemma AppendKeepsInv(s: Files, history: Bytes, b: Bytes)
    requires Inv(s, history) && |Get(s, 0)| + |b| <= MAX_LOG_BYTES
    ensures Inv(Apply(s, Append(b)), history + b)
  {
    AppendExtendsTail(s, b);
    var t, h := Tail(s), history;
    assert h == h[..|h| - |t|] + t;
    assert (h + b)[|h| - |t|..] == t + b;
  }

  lemma RotationPrefixKeepsInv(s: Files, history: Bytes, k: nat)
    requires Inv(s, history) && 0 in s && k <= |RotationOps(s)|
    ensures AllLegal(s, RotationOps(s)[..k]) && Inv(Run(s, RotationOps(s)[..k]), history)
    ensures k == |RotationOps(s)| ==> 0 !in Run(s, RotationOps(s)[..k])
  {
    RotationIsLegal(s);
    PrefixLegal(s, RotationOps(s), k);
    StepsKeepInv(s, RotationOps(s)[..k], history);
    assert RotationOps(s)[..|RotationOps(s)|] == RotationOps(s);
  }

  /** What one call leaves behind when `budget` of its operations succeed, and the bytes it appended. */
  function Attempted(s: Files, line: Bytes, budget: nat, torn: nat): (Files, Bytes) {
    var plan := Plan(s, line);
    PlanIsLegal(s, line);
    if budget >= |plan| then (Run(s, plan), line)
    else
      PrefixLegal(s, plan, budget);
      var t := Run(s, plan[..budget]);
      if budget < |plan| - 1 then (t, [])
      else
        var part := line[..if torn < |line| then torn else |line|];
        (Apply(t, Append(part)), part)
  }

  /**
   Stop after any number of operations, even with the line half written: no move has targeted an
   existing file, what is on disk is the end of all that was ever appended, and no file is over the limit.
   */
  lemma EveryMicroStep(s: Files, history: Bytes, line: Bytes, budget: nat, torn: nat)
    requires Inv(s, history) && |line| <= MAX_LOG_BYTES
    ensures AllLegal(s, Plan(s, line))
    ensures Inv(Attempted(s, line, budget, torn).0, history + Attempted(s, line, budget, torn).1)
  {
    var plan := Plan(s, line);
    PlanIsLegal(s, line);
    var k := if budget < |plan| then budget else |plan| - 1;
    PrefixLegal(s, plan, k);
    var t := Run(s, plan[..k]);
    if NeedsRotation(s, |line|) {
      assert plan[..k] == RotationOps(s)[..k];
      RotationPrefixKeepsInv(s, history, k);
    } else {
      assert plan[..k] == [];
    }
    assert history + [] == history;
    if budget >= |plan| - 1 {
      var written := Attempted(s, line, budget, torn).1;
      AppendKeepsInv(t, history, written);
      if budget >= |plan| {
        assert plan == plan[..k] + [Append(line)] && [Append(line)][1..] == [];
        RunConcat(s, plan[..k], [Append(line)]);
      }
    }
  }

  /** A call either breaks off inside the rotation or finishes it and then appends, wholly or partly. */
  lemma AttemptCases(s: Files, line: Bytes, budget: nat, torn: nat)
    ensures var ops := RotationIfNeeded(s, |line|);
            && AllLegal(s, ops)
            && (budget < |ops| ==> AllLegal(s, ops[..budget]) && Attempted(s, line, budget, torn).0 == Run(s, ops[..budget]))
            && (budget == |ops| ==> Attempted(s, line, budget, torn).0 ==
                                    Apply(Run(s, ops), Append(line[..if torn < |line| then torn else |line|])))
            && (budget > |ops| ==> Attempted(s, line, budget, torn).0 == Apply(Run(s, ops), Append(line)))
  {
    var ops, plan := RotationIfNeeded(s, |line|), Plan(s, line);
    PlanIsLegal(s, line);
    if NeedsRotation(s, |line|) {
      RotationIsLegal(s);
    }
    assert plan[..|ops|] == ops;
    RunConcat(s, ops, [Append(line)]);
    assert [Append(line)][1..] == [];
    if budget < |ops| {
      assert plan[..budget] == ops[..budget];
      PrefixLegal(s, ops, budget);
    }
  }

  // ---------------------------------------------------------------- what an undisturbed call does

  function At(s: Files, i: nat): Option<Bytes> {
    if i in s then Some(s[i]) else None
  }

  /** Every file has moved up by one, the third archive is gone, and there is no current file. */
  ghost predicate Rotated(s: Files, t: Files) {
    forall i: nat {:trigger At(t, i)} :: At(t, i) == (if i == 0 then None else if i <= 3 then At(s, i - 1) else At(s, i))
  }

  /** Archives 1 to `index` have moved up by one. */
  ghost predicate Shifted(s: Files, t: Files, index: nat) {
    forall i: nat {:trigger At(t, i)} :: At(t, i) == (if 1 < i <= index + 1 then At(s, i - 1) else if i == 1 && index > 0 then None else At(s, i))
  }

  lemma {:induction false} ShiftsShift(s: Files, index: nat)
    requires index + 1 !in s && index < ARCHIVES
    ensures AllLegal(s, ShiftOps(s, index)) && Shifted(s, Run(s, ShiftOps(s, index)), index)
    decreases index
  {
    ShiftsAreLegal(s, index);
    if index > 0 {
      if index in s {
        var moved := Apply(s, Move(index));
        ShiftsShift(moved, index - 1);
        var rest := ShiftOps(moved, index - 1);
        assert ([Move(index)] + rest)[1..] == rest;
        assert Run(s, ShiftOps(s, index)) == Run(moved, rest);
      } else {
        ShiftsShift(s, index - 1);
      }
    }
  }

  lemma RotationRotates(s: Files)
    requires 0 in s
    ensures AllLegal(s, RotationOps(s)) && Rotated(s, Run(s, RotationOps(s)))
  {
    RotationIsLegal(s);
    DeletesAreLegal(s);
    var fewer := s - {ARCHIVES};
    var shifts := ShiftOps(fewer, ARCHIVES - 1);
    ShiftsShift(fewer, ARCHIVES - 1);
    RunConcat(s, DeleteOps(s), shifts);
    RunConcat(s, DeleteOps(s) + shifts, [Move(0)]);
    var shifted := Run(fewer, shifts);
    assert Run(s, DeleteOps(s) + shifts) == shifted;
    assert [Move(0)][1..] == [];
    LastMove(s, shifted);
  }

  lemma LastMove(s: Files, shifted: Files)
    requires 0 in s && Shifted(s - {ARCHIVES}, shifted, ARCHIVES - 1)
    ensures Legal(shifted, Move(0)) && Rotated(s, Apply(shifted, Move(0)))
  {
    var fewer := s - {ARCHIVES};
    assert At(shifted, 0) == At(s, 0) && At(shifted, 1) == None;
    var t := Apply(shifted, Move(0));
    forall i: nat {:trigger At(t, i)} ensures At(t, i) == if i == 0 then None else if i <= 3 then At(s, i - 1) else At(s, i) {
      assert At(shifted, i) == if 1 < i <= 3 then At(fewer, i - 1) else if i == 1 then None else At(fewer, i);
    }
  }

  /** The line joins the current file while that stays within the limit, and starts a new one otherwise. */
  ghost predicate Appended(s: Files, line: Bytes, t: Files) {
    if |Get(s, 0)| + |line| <= 4_194_304 || 0 !in s then t == s[0 := Get(s, 0) + line]
    else t == t[0 := line] && Rotated(s, t - {0})
  }

  lemma FewOperations(s: Files, incoming: nat)
    ensures |RotationIfNeeded(s, incoming)| <= 4
  {
    FewShifts(s - {ARCHIVES}, ARCHIVES - 1);
  }

  lemma {:induction false} FewShifts(s: Files, index: nat)
    requires index + 1 !in s && index < ARCHIVES
    ensures |ShiftOps(s, index)| <= index
    decreases index
  {
    if index > 0 {
      FewShifts(if index in s then Apply(s, Move(index)) else s, index - 1);
    }
  }

  lemma UndisturbedAppend(s: Files, line: Bytes, budget: nat, torn: nat)
    requires budget >= 5
    ensures Appended(s, line, Attempted(s, line, budget, torn).0)
  {
    FewOperations(s, |line|);
    AttemptCases(s, line, budget, torn);
    if 0 in s && |Get(s, 0)| + |line| > 4_194_304 {
      RotationRotates(s);
      var t := Run(s, RotationOps(s));
      assert At(t, 0) == None;
      assert Apply(t, Append(line)) - {0} == t;
    } else {
      AppendIs(s, line);
    }
  }

  lemma AppendIs(s: Files, b: Bytes)
    ensures Apply(s, Append(b)) == s[0 := Get(s, 0) + b]
  {
    assert [] + b == b;
  }

  datatype Attempt = Attempt(timestamp: Text, value: Text, budget: nat, torn: nat)

  /** The line written for a value: bounded, stamped, ended and encoded. */
  function LineOf(timestamp: Text, value: Text): Bytes {
    var bounded := if |value| > MAX_VALUE then value[..MAX_VALUE] + TRUNCATED else value;
    Encode(timestamp + [0x20] + bounded + [0x0D, 0x0A])
  }

  /** With a time stamp of at most 64 characters, one line is far below the size limit. */
  lemma LineIsSmall(timestamp: Text, value: Text)
    requires |timestamp| <= 64
    ensures |LineOf(timestamp, value)| <= 24_813 < MAX_LOG_BYTES
  {
    var bounded := if |value| > MAX_VALUE then value[..MAX_VALUE] + TRUNCATED else value;
    EncodedLength(timestamp + [0x20] + bounded + [0x0D, 0x0A]);
  }

  /** The files, and all that was ever appended, after a run of calls on an empty directory. */
  function AfterRun(run: seq<Attempt>): (Files, Bytes) {
    if run == [] then (map[], [])
    else
      var (s, history) := AfterRun(run[..|run| - 1]);
      var a := run[|run| - 1];
      if a.value == [] then (s, history)
      else
        var (t, written) := Attempted(s, LineOf(a.timestamp, a.value), a.budget, a.torn);
        (t, history + written)
  }

  /** Over every run of calls, failing wherever they like. */
  lemma {:induction false} RunsKeepInv(run: seq<Attempt>)
    requires forall i :: 0 <= i < |run| ==> |run[i].timestamp| <= 64
    ensures Inv(AfterRun(run).0, AfterRun(run).1)
  {
    if run != [] {
      RunsKeepInv(run[..|run| - 1]);
      var a := run[|run| - 1];
      if a.value != [] {
        var (s, history) := AfterRun(run[..|run| - 1]);
        LineIsSmall(a.timestamp, a.value);
        EveryMicroStep(s, history, LineOf(a.timestamp, a.value), a.budget, a.torn);
      }
    }
  }

  /** What all calls of a run would append if none was disturbed. */
  function Volume(run: seq<Attempt>): nat {
    if run == [] then 0
    else
      var a := run[|run| - 1];
      Volume(run[..|run| - 1]) + if a.value == [] then 0 else |LineOf(a.timestamp, a.value)|
  }

  /** As long as all of it is within the limit, nothing is ever rotated: the current file is the whole history. */
  lemma {:induction false} SmallRunsStayInOneFile(run: seq<Attempt>)
    requires Volume(run) <= 4_194_304
    ensures var (s, history) := AfterRun(run);
            (s == map[] && history == []) || s == map[0 := history]
    ensures |AfterRun(run).1| <= Volume(run)
  {
    if run != [] {
      var init, a := run[..|run| - 1], run[|run| - 1];
      SmallRunsStayInOneFile(init);
      if a.value != [] {
        var (s, history) := AfterRun(init);
        UnrotatedAppend(s, LineOf(a.timestamp, a.value), a.budget, a.torn);
      }
    }
  }

  lemma UnrotatedAppend(s: Files, line: Bytes, budget: nat, torn: nat)
    requires |Get(s, 0)| + |line| <= 4_194_304
    ensures var (t, written) := Attempted(s, line, budget, torn);
            written <= line && t == s[0 := Get(s, 0) + written]
  {
    AttemptCases(s, line, budget, torn);
    assert RotationIfNeeded(s, |line|) == [];
    AppendIs(s, Attempted(s, line, budget, torn).1);
  }

  /** The line, spelt out: time stamp, space, at most 8192 characters and a mark if there were more, line end. */
  lemma LineIs(timestamp: Text, value: Text)
    ensures |value| <= 8192 ==> LineOf(timestamp, value) == Encode(timestamp + Ascii(" ") + value + [0x0D, 0x0A])
    ensures |value| > 8192 ==> LineOf(timestamp, value) == Encode(timestamp + Ascii(" ") + (value[..8192] + Ascii(" [truncated]")) + [0x0D, 0x0A])
  {
    assert Ascii(" ") == [0x20];
  }

  // ---------------------------------------------------------------- the launcher's methods

  class LogFiles {
    var files: Files
    /** How many file operations succeed before one raises an I/O exception. */
    var budget: nat

    constructor (budget: nat)
      ensures files == map[] && this.budget == budget
    {
      files, this.budget := map[], budget;
    }

    /** One file operation, or its failure. */
    method Try(op: Op) returns (ok: bool)
      requires Legal(files, op)
      modifies this
      ensures ok <==> old(budget) > 0
      ensures ok ==> files == Apply(old(files), op) && budget == old(budget) - 1
      ensures !ok ==> files == old(files) && budget == 0
    {
      ok := budget > 0;
      if ok {
        files := Apply(files, op);
        budget := budget - 1;
      }
    }

    /** The descending loop; `done` is what it carried out. */
    method ShiftArchives() returns (ok: bool, ghost done: seq<Op>)
      requires ARCHIVES !in files
      modifies this
      ensures var ops := ShiftOps(old(files), ARCHIVES - 1);
              && done <= ops && AllLegal(old(files), done) && files == Run(old(files), done)
              && |done| + budget == old(budget) && (ok <==> done == ops) && (!ok ==> budget == 0)
    {
      done := [];
      ghost var ops := ShiftOps(files, ARCHIVES - 1);
      var index := ARCHIVES - 1;
      while index >= 1
        invariant 0 <= index < ARCHIVES && index + 1 !in files
        invariant AllLegal(old(files), done) && files == Run(old(files), done) && |done| + budget == old(budget)
        invariant ops == done + ShiftOps(files, index)
      {
        if index in files {
          ghost var op, before := Move(index), files;
          ok := Try(Move(index));
          if !ok {
            return;
          }
          assert AllLegal(before, [op]) && Run(before, [op]) == files by { assert [op][1..] == []; }
          RunConcat(old(files), done, [op]);
          assert done + ([op] + ShiftOps(files, index - 1)) == done + [op] + ShiftOps(files, index - 1);
          done := done + [op];
        }
        index := index - 1;
      }
      ok := true;
    }

    /** `done` is what was carried out: all of the rotation, or as much of it as the budget allowed. */
    method RotateLogIfNeeded(incoming: nat) returns (ok: bool, ghost done: seq<Op>)
      modifies this
      ensures var ops := RotationIfNeeded(old(files), incoming);
              && done <= ops && AllLegal(old(files), done) && files == Run(old(files), done)
              && |done| + budget == old(budget) && (ok <==> done == ops) && (!ok ==> budget == 0)
      ensures ok ==> if 0 in old(files) && |old(files)[0]| + incoming > 4_194_304 then Rotated(old(files), files) else files == old(files)
    {
      done := [];
      if !NeedsRotation(files, incoming) {
        return true, done;
      }
      RotationRotates(files);
      RotationIsLegal(files);
      DeletesAreLegal(files);
      ghost var deletes, shifts := DeleteOps(files), ShiftOps(files - {ARCHIVES}, ARCHIVES - 1);
      if ARCHIVES in files {
        ok := Try(Delete(ARCHIVES));
        if !ok {
          return;
        }
      }
      ok, done := ShiftArchives();
      RunConcat(old(files), deletes, done);
      if !ok {
        done := deletes + done;
        return;
      }
      ghost var before := files;
      RunConcat(old(files), deletes + shifts, [Move(0)]);
      done := deletes + done;
      ok := Try(Move(0));
      if ok {
        assert Run(before, [Move(0)]) == files by { assert [Move(0)][1..] == []; }
        done := done + [Move(0)];
      }
    }

    method AppendLine(timestamp: Text, value: Text, torn: nat)
      modifies this
      ensures value == [] ==> files == old(files)
      ensures value != [] ==> files == Attempted(old(files), LineOf(timestamp, value), old(budget), torn).0
      ensures value != [] && old(budget) >= 5 ==> Appended(old(files), LineOf(timestamp, value), files)
    {
      if value == [] {
        return;
      }
      var bounded := value;
      if |bounded| > MAX_VALUE {
        bounded := bounded[..MAX_VALUE] + TRUNCATED;
      }
      var line := Encode(timestamp + [0x20] + bounded + [0x0D, 0x0A]);
      AttemptCases(files, line, budget, torn);
      if budget >= 5 {
        UndisturbedAppend(files, line, budget, torn);
      }
      var ok; ghost var done;
      ok, done := RotateLogIfNeeded(|line|);
      if !ok {
        assert done == RotationIfNeeded(old(files), |line|)[..old(budget)];
        return;
      }
      ok := Try(Append(line));
      if !ok {
        files := Apply(files, Append(line[..if torn < |line| then torn else |line|]));
      }
    }
  }
}
