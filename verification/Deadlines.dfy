/** Nested operation deadlines. */
module Deadlines {
  import opened Common

  const MAX_TIMEOUT_MS := 86_400_000

  /** A deadline as an absolute time in milliseconds. */
  datatype Deadline = Deadline(requestedMs: int, effectiveMs: int, at: int)

  datatype Request = Request(timeoutMs: real, now: int)

  function Truncated(x: real): int {
    if x < 0.0 then -((-x).Floor) else x.Floor
  }

  function ClampedTimeout(timeoutMs: real): (r: int)
    ensures 1 <= r <= MAX_TIMEOUT_MS
  {
    var t := Truncated(timeoutMs);
    if t < 1 then 1 else if t > MAX_TIMEOUT_MS then MAX_TIMEOUT_MS else t
  }

  function Create(r: Request, upstream: Option<Deadline>): Deadline {
    var own := ClampedTimeout(r.timeoutMs);
    var at := if upstream.Some? && upstream.value.at < r.now + own then upstream.value.at else r.now + own;
    Deadline(if upstream.Some? then upstream.value.requestedMs else own, if at < r.now then 0 else at - r.now, at)
  }

  function Remaining(d: Deadline, now: int): int {
    if d.at < now then 0 else d.at - now
  }

  /** The deadline after handing down through a chain of requests. */
  function Nested(chain: seq<Request>): Deadline
    requires chain != []
  {
    var last := |chain| - 1;
    Create(chain[last], if last == 0 then None else Some(Nested(chain[..last])))
  }

  /** A whole request from one millisecond to a day is granted as it is; others are cut to that range. */
  lemma ClampedIs(ms: int)
    ensures 1 <= ms <= 86_400_000 ==> ClampedTimeout(ms as real) == ms
    ensures ms < 1 ==> ClampedTimeout(ms as real) == 1
    ensures ms > 86_400_000 ==> ClampedTimeout(ms as real) == 86_400_000
  {
  }

  /** A request with a fraction counts as its whole part. */
  lemma FractionsAreCut(timeoutMs: real)
    ensures timeoutMs >= 0.0 ==> ClampedTimeout(timeoutMs) == ClampedTimeout(timeoutMs.Floor as real)
    ensures timeoutMs < 1.0 ==> ClampedTimeout(timeoutMs) == 1
  {
  }

  /** The time left is what is missing to the deadline, and none once it has passed. */
  lemma RemainingIs(d: Deadline, now: int)
    ensures now <= d.at ==> now + Remaining(d, now) == d.at
    ensures now >= d.at ==> Remaining(d, now) == 0
  {
  }

  function OwnDeadline(r: Request): int {
    r.now + ClampedTimeout(r.timeoutMs)
  }

  /** The deadline is the earliest one asked for along the chain; the request reported is the first. */
  lemma {:induction false} NestedIsMinimum(chain: seq<Request>)
    requires chain != []
    ensures exists i :: 0 <= i < |chain| && Nested(chain).at == OwnDeadline(chain[i])
    ensures forall i :: 0 <= i < |chain| ==> Nested(chain).at <= OwnDeadline(chain[i]) == chain[i].now + ClampedTimeout(chain[i].timeoutMs)
    ensures Nested(chain).requestedMs == ClampedTimeout(chain[0].timeoutMs)
    ensures Nested(chain).effectiveMs == Remaining(Nested(chain), chain[|chain| - 1].now)
  {
    var last := |chain| - 1;
    if last == 0 {
      assert Nested(chain).at == OwnDeadline(chain[0]);
    } else {
      var init := chain[..last];
      NestedIsMinimum(init);
      assert forall i :: 0 <= i < |init| ==> init[i] == chain[i];
      if Nested(chain).at == OwnDeadline(chain[last]) {
      } else {
        var i :| 0 <= i < |init| && Nested(init).at == OwnDeadline(init[i]);
        assert Nested(chain).at == OwnDeadline(chain[i]);
      }
    }
  }

  /** However the chain goes on and however late one looks, the time left never grows. */
  lemma {:induction false} RemainingNeverGrows(chain: seq<Request>, k: nat, earlier: int, later: int)
    requires 0 < k <= |chain| && earlier <= later
    ensures Remaining(Nested(chain), later) <= Remaining(Nested(chain[..k]), earlier)
    decreases |chain|
  {
    if k == |chain| {
      assert chain[..k] == chain;
    } else {
      var init := chain[..|chain| - 1];
      RemainingNeverGrows(init, k, earlier, later);
      assert init[..k] == chain[..k];
    }
  }
}
