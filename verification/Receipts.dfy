/** The results a receipt may carry: `parsePublicResultValue`. */
module PublicResults {
  import opened Common
  import opened Texts
  import opened Json
  import opened SensitiveKeys

  predicate IsSensitiveField(key: Text) {
    IsConfirmationId(key) || IsSecret(key)
  }

  /** Exactly which names of lower-case letters and digits a result must not carry; only the normal form of others matters. */
  lemma {:induction false} SensitiveFieldIff(t: Text)
    requires forall i :: 0 <= i < |t| ==> LowerOrDigit(t[i])
    ensures IsSensitiveField(t) <==>
            || t == Ascii("confirmationid") || Holds(t, "authorization") || Holds(t, "credential") || Holds(t, "password")
            || Holds(t, "secret") || Holds(t, "privatekey") || Closes(t, "token") || Closes(t, "apikey")
    ensures forall key :: Normal(key) == t ==> IsSensitiveField(key) == IsSensitiveField(t)
  {
    SecretIff(t);
    LowerIsNormal(t);
    forall key | Normal(key) == t ensures IsSensitiveField(key) == IsSensitiveField(t) {
      OnlyNormalMatters(key, t);
    }
  }

  function Parsed(v: Js): Result<Js> {
    match v
    case Undefined => Err
    case NonFinite => Err
    case Opaque => Err
    case Arr(items) =>
      (match ParsedItems(items) case Ok(r) => Ok(Arr(r)) case Err => Err)
    case Obj(plain, entries) => if plain then ParsedEntries(entries) else Err
    case _ => Ok(v)
  }

  function ParsedItems(items: seq<Js>): Result<seq<Js>> {
    if items == [] then Ok([])
    else
      match (ParsedItems(items[..|items| - 1]), Parsed(items[|items| - 1]))
      case (Ok(r), Ok(x)) => Ok(r + [x])
      case _ => Err
  }

  /** The record after the loop has gone through `entries`. */
  function ParsedEntries(entries: seq<Entry>): (r: Result<Js>)
    ensures r.Ok? ==> r.value.Obj?
  {
    if entries == [] then Ok(Obj(true, []))
    else
      var e := entries[|entries| - 1];
      match ParsedEntries(entries[..|entries| - 1])
      case Err => Err
      case Ok(record) =>
        if IsSensitiveField(e.key) then Err
        else match Parsed(e.value) case Ok(x) => Ok(Assign(record, e.key, x)) case Err => Err
  }

  method ParsePublicResultValue(v: Js) returns (r: Result<Js>)
    ensures r == Parsed(v)
    decreases v, 1
  {
    match v {
      case Undefined => return Err;
      case NonFinite => return Err;
      case Opaque => return Err;
      case Arr(items) => r := ParsePublicItems(v);
      case Obj(plain, entries) =>
        if !plain {
          return Err;
        }
        r := ParsePublicRecord(v);
      case _ => return Ok(v);
    }
  }

  /** The `map` over an array. */
  method ParsePublicItems(v: Js) returns (r: Result<Js>)
    requires v.Arr?
    ensures r == match ParsedItems(v.items) case Ok(items) => Ok(Arr(items)) case Err => Err
    decreases v, 0
  {
    var items, out, i := v.items, [], 0;
    while i < |items|
      invariant 0 <= i <= |items| && ParsedItems(items[..i]) == Ok(out)
    {
      var x := ParsePublicResultValue(items[i]);
      assert items[..i + 1] == items[..i] + [items[i]];
      ParsedItemsSnoc(items[..i], items[i]);
      if x.Err? {
        ItemsFail(items, i + 1);
        return Err;
      }
      out := out + [x.value];
      i := i + 1;
    }
    assert items[..i] == items;
    return Ok(Arr(out));
  }

  /** The loop over the entries of a plain object. */
  method ParsePublicRecord(v: Js) returns (r: Result<Js>)
    requires v.Obj?
    ensures r == ParsedEntries(v.entries)
    decreases v, 0
  {
    var entries, record, i := v.entries, Obj(true, []), 0;
    while i < |entries|
      invariant 0 <= i <= |entries| && ParsedEntries(entries[..i]) == Ok(record) && record.Obj?
    {
      var e := entries[i];
      assert entries[..i + 1] == entries[..i] + [e];
      ParsedEntriesSnoc(entries[..i], e);
      if IsSensitiveField(e.key) {
        EntriesFail(entries, i + 1);
        return Err;
      }
      var x := ParsePublicResultValue(e.value);
      if x.Err? {
        EntriesFail(entries, i + 1);
        return Err;
      }
      record := Assign(record, e.key, x.value);
      i := i + 1;
    }
    assert entries[..i] == entries;
    return Ok(record);
  }

  lemma {:induction false} ItemsFail(items: seq<Js>, i: nat)
    requires i <= |items| && ParsedItems(items[..i]).Err?
    ensures ParsedItems(items).Err?
    decreases |items| - i
  {
    if i < |items| {
      assert items[..i + 1][..i] == items[..i];
      ItemsFail(items, i + 1);
    } else {
      assert items[..i] == items;
    }
  }

  lemma {:induction false} EntriesFail(entries: seq<Entry>, i: nat)
    requires i <= |entries| && ParsedEntries(entries[..i]).Err?
    ensures ParsedEntries(entries).Err?
    decreases |entries| - i
  {
    if i < |entries| {
      assert entries[..i + 1][..i] == entries[..i];
      EntriesFail(entries, i + 1);
    } else {
      assert entries[..i] == entries;
    }
  }

  /** `JSON.parse(JSON.stringify(v))` on a parsed value: the same data in plain objects, with null for empty slots. */
  function Clone(v: Js): Js {
    match v
    case Arr(items) => Arr(seq(|items|, i requires 0 <= i < |items| => Clone(items[i])))
    case Obj(_, entries) =>
      Obj(true, seq(|entries|, i requires 0 <= i < |entries| => Entry(entries[i].key, Clone(entries[i].value))))
    case Slot => Null
    case _ => v
  }

  /** JSON data in plain objects, with no secret-looking name at any depth. */
  predicate Public(v: Js) {
    match v
    case Slot => false
    case Undefined => false
    case NonFinite => false
    case Opaque => false
    case Arr(items) => forall x :: x in items ==> Public(x)
    case Obj(plain, entries) =>
      plain && forall e :: e in entries ==> !IsSensitiveField(e.key) && e.key != PROTO && Public(e.value)
    case _ => true
  }

  /** Plain JSON data without a secret-looking name at any depth. */
  predicate Publishable(v: Js) {
    match v
    case Undefined => false
    case NonFinite => false
    case Opaque => false
    case Arr(items) => forall x :: x in items ==> Publishable(x)
    case Obj(plain, entries) =>
      plain && forall e :: e in entries ==> !IsSensitiveField(e.key) && Publishable(e.value)
    case _ => true
  }

  /** The same data in plain objects, with null for empty slots, less the own `__proto__` fields at every depth. */
  function WithoutProto(v: Js): Js {
    match v
    case Arr(items) => Arr(seq(|items|, i requires 0 <= i < |items| => WithoutProto(items[i])))
    case Obj(_, entries) => Obj(true, EntriesWithoutProto(entries))
    case Slot => Null
    case _ => v
  }

  function EntriesWithoutProto(entries: seq<Entry>): seq<Entry> {
    if entries == [] then []
    else
      var e := entries[|entries| - 1];
      EntriesWithoutProto(entries[..|entries| - 1]) + if e.key == PROTO then [] else [Entry(e.key, WithoutProto(e.value))]
  }

  /**
   Exactly what is accepted, and exactly what the store keeps of it: everything, in order, except
   own `__proto__` fields.
   */
  lemma {:induction false} ParsedExactly(v: Js)
    ensures Parsed(v).Ok? <==> Publishable(v)
    ensures Parsed(v).Ok? ==> Clone(Parsed(v).value) == WithoutProto(v)
  {
    match v {
      case Arr(items) => ParsedItemsExactly(items);
      case Obj(_, entries) =>
        ParsedEntriesIff(entries);
        if ParsedEntries(entries).Ok? {
          ParsedEntriesContent(entries);
        }
      case _ =>
    }
  }

  lemma {:induction false} ParsedItemsExactly(items: seq<Js>)
    ensures ParsedItems(items).Ok? <==> forall x :: x in items ==> Publishable(x)
    ensures ParsedItems(items).Ok? ==> Clone(Arr(ParsedItems(items).value)) == WithoutProto(Arr(items))
  {
    if items != [] {
      var init, last := items[..|items| - 1], items[|items| - 1];
      assert items == init + [last];
      ParsedItemsExactly(init);
      ParsedExactly(last);
      if ParsedItems(items).Ok? {
        CloneItemsSnoc(ParsedItems(init).value, Parsed(last).value);
        assert WithoutProto(Arr(items)).items == WithoutProto(Arr(init)).items + [WithoutProto(last)];
      }
    }
  }

  lemma CloneItemsSnoc(init: seq<Js>, last: Js)
    ensures Clone(Arr(init + [last])).items == Clone(Arr(init)).items + [Clone(last)]
  {
  }

  lemma CloneEntriesSnoc(init: seq<Entry>, last: Entry)
    ensures Clone(Obj(true, init + [last])).entries == Clone(Obj(true, init)).entries + [Entry(last.key, Clone(last.value))]
  {
  }

  lemma {:induction false} ParsedEntriesIff(entries: seq<Entry>)
    ensures ParsedEntries(entries).Ok? <==> forall e :: e in entries ==> !IsSensitiveField(e.key) && Publishable(e.value)
  {
    if entries != [] {
      var init, last := entries[..|entries| - 1], entries[|entries| - 1];
      ParsedEntriesIff(init);
      ParsedExactly(last.value);
      assert forall e :: e in entries <==> e in init || e == last;
    }
  }

  lemma {:induction false} ParsedEntriesContent(entries: seq<Entry>)
    requires ParsedEntries(entries).Ok?
    ensures Clone(ParsedEntries(entries).value).entries == EntriesWithoutProto(entries)
  {
    if entries != [] {
      var init, last := entries[..|entries| - 1], entries[|entries| - 1];
      ParsedEntriesContent(init);
      ParsedExactly(last.value);
      CloneEntriesSnoc(ParsedEntries(init).value.entries, Entry(last.key, Parsed(last.value).value));
    }
  }

  /** What the store keeps of an accepted result is public. */
  lemma {:induction false} ParsedIsPublic(v: Js)
    requires Parsed(v).Ok?
    ensures Public(Clone(Parsed(v).value))
  {
    match v {
      case Arr(items) => ParsedItemsArePublic(items);
      case Obj(_, entries) => ParsedEntriesArePublic(entries);
      case _ =>
    }
  }

  lemma {:induction false} ParsedItemsArePublic(items: seq<Js>)
    requires ParsedItems(items).Ok?
    ensures forall x :: x in ParsedItems(items).value ==> Public(Clone(x))
  {
    if items != [] {
      var init, last := items[..|items| - 1], items[|items| - 1];
      ParsedItemsArePublic(init);
      ParsedIsPublic(last);
    }
  }

  lemma {:induction false} ParsedEntriesArePublic(entries: seq<Entry>)
    requires ParsedEntries(entries).Ok?
    ensures forall e :: e in ParsedEntries(entries).value.entries ==>
                          !IsSensitiveField(e.key) && e.key != PROTO && Public(Clone(e.value))
  {
    if entries != [] {
      var init, last := entries[..|entries| - 1], entries[|entries| - 1];
      ParsedEntriesArePublic(init);
      ParsedIsPublic(last.value);
    }
  }

  /** A public value is parsed and copied unchanged, so parsing a stored result changes nothing. */
  lemma {:induction false} PublicIsFixed(v: Js)
    requires Public(v)
    ensures Parsed(v) == Ok(v) && Clone(v) == v
  {
    match v {
      case Arr(items) =>
        PublicItemsAreFixed(items);
        forall i | 0 <= i < |items| ensures Clone(items[i]) == items[i] {
          PublicIsFixed(items[i]);
        }
        assert Clone(v).items == items;
      case Obj(_, entries) =>
        PublicEntriesAreFixed(entries);
        forall i | 0 <= i < |entries| ensures Clone(entries[i].value) == entries[i].value {
          assert entries[i] in entries;
          PublicIsFixed(entries[i].value);
        }
        assert Clone(v).entries == entries;
      case _ =>
    }
  }

  lemma {:induction false} PublicItemsAreFixed(items: seq<Js>)
    requires forall x :: x in items ==> Public(x)
    ensures ParsedItems(items) == Ok(items)
  {
    if items != [] {
      var init, last := items[..|items| - 1], items[|items| - 1];
      assert items == init + [last];
      PublicItemsAreFixed(init);
      PublicIsFixed(last);
    }
  }

  lemma {:induction false} PublicEntriesAreFixed(entries: seq<Entry>)
    requires Public(Obj(true, entries))
    ensures ParsedEntries(entries) == Ok(Obj(true, entries))
  {
    if entries != [] {
      var init, last := entries[..|entries| - 1], entries[|entries| - 1];
      assert entries == init + [last];
      assert last in entries;
      PublicEntriesAreFixed(init);
      PublicIsFixed(last.value);
    }
  }

  /** No own `__proto__` field holds an object or array, anywhere that is kept. */
  predicate ProtoSafe(v: Js) {
    match v
    case Arr(items) => forall x :: x in items ==> ProtoSafe(x)
    case Obj(_, entries) =>
      forall e :: e in entries ==> if e.key == PROTO then !e.value.Arr? && !e.value.Obj? else ProtoSafe(e.value)
    case _ => true
  }

  /**
   Parsing a parsed value, before it is copied, succeeds and changes nothing exactly when the
   original was `ProtoSafe`; otherwise the result has an object for prototype and is refused.
   */
  lemma {:induction false} ParseTwice(v: Js)
    requires Parsed(v).Ok?
    ensures Parsed(Parsed(v).value) == if ProtoSafe(v) then Parsed(v) else Err
  {
    match v {
      case Arr(items) => ParseItemsTwice(items);
      case Obj(_, entries) => ParseEntriesTwice(entries);
      case _ =>
    }
  }

  lemma {:induction false} ParsedItemsSnoc(init: seq<Js>, last: Js)
    ensures ParsedItems(init + [last]) ==
            match (ParsedItems(init), Parsed(last)) case (Ok(r), Ok(x)) => Ok(r + [x]) case _ => Err
  {
    assert (init + [last])[..|init|] == init;
  }

  lemma {:induction false} ParsedEntriesSnoc(init: seq<Entry>, last: Entry)
    ensures ParsedEntries(init + [last]) ==
            match ParsedEntries(init)
            case Err => Err
            case Ok(record) =>
              if IsSensitiveField(last.key) then Err
              else match Parsed(last.value) case Ok(x) => Ok(Assign(record, last.key, x)) case Err => Err
  {
    assert (init + [last])[..|init|] == init;
  }

  lemma {:induction false} ParseItemsTwice(items: seq<Js>)
    requires ParsedItems(items).Ok?
    ensures ParsedItems(ParsedItems(items).value) == if ProtoSafe(Arr(items)) then ParsedItems(items) else Err
  {
    if items != [] {
      var init, last := items[..|items| - 1], items[|items| - 1];
      assert items == init + [last];
      ParseItemsTwice(init);
      ParseTwice(last);
      ParsedItemsSnoc(ParsedItems(init).value, Parsed(last).value);
      ProtoSafeItemsSnoc(init, last);
    }
  }

  lemma ProtoSafeItemsSnoc(init: seq<Js>, last: Js)
    ensures ProtoSafe(Arr(init + [last])) <==> ProtoSafe(Arr(init)) && ProtoSafe(last)
  {
    assert forall x :: x in init + [last] <==> x in init || x == last;
  }

  lemma {:induction false} ParseEntriesTwice(entries: seq<Entry>)
    requires ParsedEntries(entries).Ok?
    ensures Parsed(ParsedEntries(entries).value) == if ProtoSafe(Obj(true, entries)) then ParsedEntries(entries) else Err
  {
    if entries != [] {
      var init, last := entries[..|entries| - 1], entries[|entries| - 1];
      assert entries == init + [last];
      ParseEntriesTwice(init);
      ParseTwice(last.value);
      ParsedKind(last.value);
      ProtoSafeSnoc(init, last);
      ParsedEntriesSnoc(init, last);
      var record, x := ParsedEntries(init).value, Parsed(last.value).value;
      ParsedEntriesSnoc(record.entries, Entry(last.key, x));
    }
  }

  lemma ProtoSafeSnoc(init: seq<Entry>, last: Entry)
    ensures ProtoSafe(Obj(true, init + [last])) <==>
            ProtoSafe(Obj(true, init)) &&
            if last.key == PROTO then !last.value.Arr? && !last.value.Obj? else ProtoSafe(last.value)
  {
    assert forall e :: e in init + [last] <==> e in init || e == last;
  }

  lemma ParsedKind(v: Js)
    requires Parsed(v).Ok?
    ensures Parsed(v).value.Arr? == v.Arr? && Parsed(v).value.Obj? == v.Obj? && !Parsed(v).value.Opaque?
  {
  }
}

/** Mutation receipts: at most one execution per idempotency key, whatever the clients do. */
module MutationReceipts {
  import opened Common
  import opened Texts
  import opened Json
  import opened PublicResults
  import opened ConfirmationBindings
  import opened SourceControl

  datatype Identity =
    Identity(workspaceId: Text, operation: Operation, targetResource: Text, digest: Text, idempotencyKey: Text)

  datatype State = Reserved | Executing | Completed | ReconciliationRequired

  datatype Receipt = Receipt(identity: Identity, state: State, result: Option<Js>)

  datatype Refusal = InvalidArgument | StateInvalid | Conflict

  datatype Reply<+T> = Done(value: T) | Refused(error: Refusal)

  datatype Disposition = Execute | ReplayCompleted | ReconcileFirst

  datatype Reservation = Reservation(disposition: Disposition, receipt: Receipt)

  // ---------------------------------------------------------------- parsing

  function ParseIdentity(i: Identity): Reply<Identity> {
    var w, t, k := Trim(i.workspaceId), Trim(i.targetResource), Trim(i.idempotencyKey);
    if w == [] || i.operation.Other? || !(1 <= |t| <= 512) || !IsSha256Hex(i.digest) || !(1 <= |k| <= 512)
    then Refused(InvalidArgument)
    else Done(Identity(w, i.operation, t, i.digest, k))
  }

  function ParseReceipt(r: Receipt): Reply<Receipt> {
    match ParseIdentity(r.identity)
    case Refused(e) => Refused(e)
    case Done(identity) =>
      if r.state == Completed then
        if r.result.None? then Refused(InvalidArgument)
        else match Parsed(r.result.value)
             case Ok(x) => Done(Receipt(identity, Completed, Some(x)))
             case Err => Refused(InvalidArgument)
      else if r.result.Some? then Refused(InvalidArgument)
      else Done(Receipt(identity, r.state, None))
  }

  function CloneReceipt(r: Receipt): Receipt {
    match r.result
    case Some(x) => r.(result := Some(Clone(x)))
    case None => r
  }

  // ---------------------------------------------------------------- transitions

  function ReserveReceipt(existing: Option<Receipt>, identity: Identity): Reply<Reservation> {
    match ParseIdentity(identity)
    case Refused(e) => Refused(e)
    case Done(wanted) =>
      if existing.None? then Done(Reservation(Execute, Receipt(wanted, Reserved, None)))
      else
        match ParseReceipt(existing.value)
        case Refused(e) => Refused(e)
        case Done(found) =>
          if found.identity != wanted then Refused(Conflict)
          else Done(Reservation(if found.state == Completed then ReplayCompleted else ReconcileFirst, found))
  }

  function RequireExisting(existing: Option<Receipt>, identity: Identity): Reply<Receipt> {
    if existing.None? then Refused(StateInvalid)
    else
      match (ParseIdentity(identity), ParseReceipt(existing.value))
      case (Refused(e), _) => Refused(e)
      case (_, Refused(e)) => Refused(e)
      case (Done(wanted), Done(found)) => if found.identity != wanted then Refused(Conflict) else Done(found)
  }

  function MarkedExecuting(existing: Option<Receipt>, identity: Identity): Reply<Receipt> {
    match RequireExisting(existing, identity)
    case Refused(e) => Refused(e)
    case Done(r) => if r.state != Reserved then Refused(StateInvalid) else Done(Receipt(r.identity, Executing, None))
  }

  function MarkedReconciliation(existing: Option<Receipt>, identity: Identity): Reply<Receipt> {
    match RequireExisting(existing, identity)
    case Refused(e) => Refused(e)
    case Done(r) =>
      if r.state == ReconciliationRequired then Done(r)
      else if r.state != Executing then Refused(StateInvalid)
      else Done(Receipt(r.identity, ReconciliationRequired, None))
  }

  function MarkedCompleted(existing: Option<Receipt>, identity: Identity, result: Js): Reply<Receipt> {
    match RequireExisting(existing, identity)
    case Refused(e) => Refused(e)
    case Done(r) =>
      if r.state != Executing && r.state != ReconciliationRequired then Refused(StateInvalid)
      else
        match Parsed(result)
        case Ok(x) => Done(Receipt(r.identity, Completed, Some(x)))
        case Err => Refused(InvalidArgument)
  }

  // ---------------------------------------------------------------- the store

  type Store = map<Text, Receipt>

  /** One call on the store. Calls run to completion, so any interleaving of clients is a sequence of them. */
  datatype Call =
    | Reserve(identity: Identity)
    | MarkExecuting(identity: Identity)
    | MarkReconciliation(identity: Identity)
    | MarkCompleted(identity: Identity, result: Js)
    | Get(key: Text)

  function Lookup(s: Store, key: Text): Option<Receipt> {
    if key in s then Some(s[key]) else None
  }

  /** The receipt that a marking call would write. */
  function Marked(s: Store, call: Call): Reply<Receipt>
    requires call.MarkExecuting? || call.MarkReconciliation? || call.MarkCompleted?
  {
    match ParseIdentity(call.identity)
    case Refused(e) => Refused(e)
    case Done(id) =>
      var existing := Lookup(s, id.idempotencyKey);
      match call
      case MarkExecuting(_) => MarkedExecuting(existing, id)
      case MarkReconciliation(_) => MarkedReconciliation(existing, id)
      case MarkCompleted(_, result) => MarkedCompleted(existing, id, result)
  }

  function Reserving(s: Store, identity: Identity): Reply<Reservation> {
    match ParseIdentity(identity)
    case Refused(e) => Refused(e)
    case Done(id) => ReserveReceipt(Lookup(s, id.idempotencyKey), id)
  }

  function Next(s: Store, call: Call): Store {
    match call
    case Get(_) => s
    case Reserve(identity) =>
      (match Reserving(s, identity)
       case Done(Reservation(Execute, r)) => s[r.identity.idempotencyKey := CloneReceipt(r)]
       case _ => s)
    case _ =>
      match Marked(s, call)
      case Done(r) => s[ParseIdentity(call.identity).value.idempotencyKey := CloneReceipt(r)]
      case Refused(_) => s
  }

  class InMemoryMutationReceiptStore {
    var receipts: Store

    constructor ()
      ensures receipts == map[]
    {
      receipts := map[];
    }

    method Reserve(identity: Identity) returns (r: Reply<Reservation>)
      modifies this
      ensures receipts == Next(old(receipts), Call.Reserve(identity))
      ensures r == match Reserving(old(receipts), identity)
                   case Done(v) => Done(Reservation(v.disposition, CloneReceipt(v.receipt)))
                   case Refused(e) => Refused(e)
    {
      var parsed := ParseIdentity(identity);
      if parsed.Refused? {
        return Refused(parsed.error);
      }
      var key := parsed.value.idempotencyKey;
      var reservation := ReserveReceipt(Lookup(receipts, key), parsed.value);
      if reservation.Refused? {
        return Refused(reservation.error);
      }
      if reservation.value.disposition == Execute {
        ParseIdentityIdempotent(identity);
        receipts := receipts[key := CloneReceipt(reservation.value.receipt)];
      }
      return Done(Reservation(reservation.value.disposition, CloneReceipt(reservation.value.receipt)));
    }

    method MarkExecuting(identity: Identity) returns (r: Reply<Receipt>)
      modifies this
      ensures receipts == Next(old(receipts), Call.MarkExecuting(identity))
      ensures r == Answer(old(receipts), Call.MarkExecuting(identity))
    {
      r := Mark(Call.MarkExecuting(identity));
    }

    method MarkReconciliationRequired(identity: Identity) returns (r: Reply<Receipt>)
      modifies this
      ensures receipts == Next(old(receipts), Call.MarkReconciliation(identity))
      ensures r == Answer(old(receipts), Call.MarkReconciliation(identity))
    {
      r := Mark(Call.MarkReconciliation(identity));
    }

    method MarkCompleted(identity: Identity, result: Js) returns (r: Reply<Receipt>)
      modifies this
      ensures receipts == Next(old(receipts), Call.MarkCompleted(identity, result))
      ensures r == Answer(old(receipts), Call.MarkCompleted(identity, result))
    {
      r := Mark(Call.MarkCompleted(identity, result));
    }

    /** What the three marking calls share: write the new receipt under the parsed key, return a copy. */
    method Mark(call: Call) returns (r: Reply<Receipt>)
      requires call.MarkExecuting? || call.MarkReconciliation? || call.MarkCompleted?
      modifies this
      ensures receipts == Next(old(receipts), call)
      ensures r == Answer(old(receipts), call)
    {
      r := Marked(receipts, call);
      if r.Done? {
        receipts := receipts[ParseIdentity(call.identity).value.idempotencyKey := CloneReceipt(r.value)];
        r := Done(CloneReceipt(r.value));
      }
    }

    method Get(key: Text) returns (r: Option<Receipt>)
      ensures r.Some? <==> key in receipts
      ensures r.Some? ==> r.value == CloneReceipt(receipts[key])
    {
      r := if key in receipts then Some(CloneReceipt(receipts[key])) else None;
    }
  }

  /** What a marking call returns. */
  function Answer(s: Store, call: Call): Reply<Receipt>
    requires call.MarkExecuting? || call.MarkReconciliation? || call.MarkCompleted?
  {
    match Marked(s, call)
    case Done(r) => Done(CloneReceipt(r))
    case Refused(e) => Refused(e)
  }

  // ---------------------------------------------------------------- what the store holds

  lemma ParseIdentityIdempotent(i: Identity)
    ensures ParseIdentity(i).Done? ==> ParseIdentity(ParseIdentity(i).value) == ParseIdentity(i)
  {
    TrimIdempotent(i.workspaceId);
    TrimIdempotent(i.targetResource);
    TrimIdempotent(i.idempotencyKey);
  }

  /** The same texts with white space around some of them. */
  ghost predicate Spaced(i: Identity, j: Identity) {
    Surrounds(i.workspaceId, j.workspaceId) && Surrounds(i.targetResource, j.targetResource) &&
    Surrounds(i.idempotencyKey, j.idempotencyKey) && i.operation == j.operation && i.digest == j.digest
  }

  predicate InRange(i: Identity) {
    && i.workspaceId != [] && 1 <= |i.targetResource| <= 512 && 1 <= |i.idempotencyKey| <= 512
    && !i.operation.Other? && IsSha256Hex(i.digest)
  }

  /** An identity is parsed as itself without outer white space, exactly when that is in range. */
  lemma ParseIdentityIff(i: Identity, j: Identity)
    ensures ParseIdentity(i) == Done(j) <==> Spaced(i, j) && InRange(j)
    ensures ParseIdentity(i).Refused? ==> ParseIdentity(i) == Refused(InvalidArgument)
  {
    TrimIff(i.workspaceId, j.workspaceId);
    TrimIff(i.targetResource, j.targetResource);
    TrimIff(i.idempotencyKey, j.idempotencyKey);
  }

  /** Without outer white space, an accepted identity is kept as it is. */
  lemma CleanIdentityIsKept(i: Identity)
    requires Trimmed(i.workspaceId) && Trimmed(i.targetResource) && Trimmed(i.idempotencyKey)
    ensures ParseIdentity(i) == if InRange(i) then Done(i) else Refused(InvalidArgument)
  {
    forall t | Trimmed(t) ensures Trim(t) == t {
      TrimSpaced([], t, []);
      assert [] + t + [] == t;
    }
  }

  /** Exactly which receipts parse, and what becomes of them. */
  lemma ParseReceiptIff(r: Receipt)
    ensures ParseReceipt(r).Done? <==>
            ParseIdentity(r.identity).Done? && (r.state == Completed <==> r.result.Some?) && (r.result.Some? ==> Publishable(r.result.value))
    ensures ParseReceipt(r).Done? ==>
              var q := ParseReceipt(r).value;
              && ParseIdentity(r.identity) == Done(q.identity) && q.state == r.state && (q.result.Some? <==> r.result.Some?)
              && (q.result.Some? ==> Clone(q.result.value) == WithoutProto(r.result.value))
    ensures ParseReceipt(r).Refused? ==> ParseReceipt(r) == Refused(InvalidArgument)
  {
    if r.result.Some? {
      ParsedExactly(r.result.value);
    }
  }

  /** Filed under its own key, with a parsed identity, and with a public result exactly when completed. */
  ghost predicate Sound(key: Text, r: Receipt) {
    && r.identity.idempotencyKey == key && ParseIdentity(r.identity) == Done(r.identity)
    && (r.state == Completed <==> r.result.Some?)
    && (r.result.Some? ==> Public(r.result.value))
  }

  ghost predicate StoreSound(s: Store) {
    forall k :: k in s ==> Sound(k, s[k])
  }

  lemma SoundReceiptParses(key: Text, r: Receipt)
    requires Sound(key, r)
    ensures ParseReceipt(r) == Done(r) && CloneReceipt(r) == r
  {
    if r.result.Some? {
      PublicIsFixed(r.result.value);
    }
  }

  /** The receipt filed under its key is this identity's. */
  predicate OwnedBy(s: Store, id: Identity) {
    id.idempotencyKey in s && s[id.idempotencyKey].identity == id
  }

  /** In a sound store, a marking call finds its own receipt exactly as stored, or is refused. */
  lemma FoundIff(s: Store, id: Identity)
    requires StoreSound(s) && ParseIdentity(id) == Done(id)
    ensures RequireExisting(Lookup(s, id.idempotencyKey), id) ==
            if OwnedBy(s, id) then Done(s[id.idempotencyKey])
            else Refused(if id.idempotencyKey in s then Conflict else StateInvalid)
  {
    if id.idempotencyKey in s {
      SoundReceiptParses(id.idempotencyKey, s[id.idempotencyKey]);
    }
  }

  // ---------------------------------------------------------------- the protocol

  /** What a call amounts to. */
  datatype Event = Nothing | Grant(key: Text) | Begin(key: Text) | Reconcile(key: Text) | Finish(key: Text)

  function EventOf(s: Store, call: Call): Event {
    match call
    case Get(_) => Nothing
    case Reserve(identity) =>
      (match Reserving(s, identity)
       case Done(Reservation(Execute, r)) => Grant(r.identity.idempotencyKey)
       case _ => Nothing)
    case _ =>
      if Marked(s, call).Refused? then Nothing
      else
        var key := ParseIdentity(call.identity).value.idempotencyKey;
        if call.MarkExecuting? then Begin(key) else if call.MarkCompleted? then Finish(key) else Reconcile(key)
  }

  /** Only the receipt of `key` may differ, and not in its identity. */
  ghost predicate Rewrites(s: Store, t: Store, key: Text) {
    key in s && key in t && t == s[key := t[key]] && t[key].identity == s[key].identity
  }

  /** The receipt life cycle: reserved, executing, perhaps reconciliation required, completed. */
  ghost predicate Moves(s: Store, e: Event, t: Store) {
    match e
    case Nothing => t == s
    case Grant(k) => k !in s && k in t && t == s[k := t[k]] && t[k].state == Reserved
    case Begin(k) => Rewrites(s, t, k) && s[k].state == Reserved && t[k].state == Executing
    case Reconcile(k) =>
      Rewrites(s, t, k) && (s[k].state == Executing || s[k].state == ReconciliationRequired) &&
      t[k].state == ReconciliationRequired
    case Finish(k) =>
      Rewrites(s, t, k) && (s[k].state == Executing || s[k].state == ReconciliationRequired) && t[k].state == Completed
  }

  lemma MarkIsSound(s: Store, call: Call)
    requires StoreSound(s) && (call.MarkExecuting? || call.MarkReconciliation? || call.MarkCompleted?)
    requires Marked(s, call).Done?
    ensures var key, r := ParseIdentity(call.identity).value.idempotencyKey, CloneReceipt(Marked(s, call).value);
            key in s && Sound(key, r) && Moves(s, EventOf(s, call), s[key := r])
  {
    var key := ParseIdentity(call.identity).value.idempotencyKey;
    ParseIdentityIdempotent(call.identity);
    FoundIff(s, ParseIdentity(call.identity).value);
    SoundReceiptParses(key, s[key]);
    if call.MarkCompleted? {
      ParsedIsPublic(call.result);
    }
  }

  lemma ReserveIsSound(s: Store, identity: Identity)
    requires StoreSound(s) && EventOf(s, Reserve(identity)).Grant?
    ensures var key, r := EventOf(s, Reserve(identity)).key, Reserving(s, identity).value.receipt;
            key !in s && Sound(key, r) && r.state == Reserved && CloneReceipt(r) == r
  {
    ParseIdentityIdempotent(identity);
  }

  lemma UpdateIsSound(s: Store, key: Text, r: Receipt)
    requires StoreSound(s) && Sound(key, r)
    ensures StoreSound(s[key := r])
  {
  }

  /** Every call on a sound store is a move of the protocol and leaves the store sound. */
  lemma CallMoves(s: Store, call: Call)
    requires StoreSound(s)
    ensures StoreSound(Next(s, call)) && Moves(s, EventOf(s, call), Next(s, call))
  {
    match call {
      case Get(_) =>
      case Reserve(identity) =>
        if EventOf(s, call).Grant? {
          ReserveIsSound(s, identity);
          UpdateIsSound(s, EventOf(s, call).key, Reserving(s, identity).value.receipt);
        }
      case _ =>
        if Marked(s, call).Done? {
          MarkIsSound(s, call);
          UpdateIsSound(s, ParseIdentity(call.identity).value.idempotencyKey, CloneReceipt(Marked(s, call).value));
        }
    }
  }

  predicate Started(s: Store, key: Text) {
    key in s && s[key].state != Reserved
  }

  predicate Over(s: Store, key: Text) {
    key in s && s[key].state == Completed
  }

  /**
   Per key, "execute" has been answered, execution begun and a result recorded exactly once if the
   receipt has got that far, and never otherwise.
   */
  ghost predicate Counted(s: Store, events: seq<Event>, key: Text) {
    && multiset(events)[Grant(key)] == (if key in s then 1 else 0)
    && multiset(events)[Begin(key)] == (if Started(s, key) then 1 else 0)
    && multiset(events)[Finish(key)] == (if Over(s, key) then 1 else 0)
  }

  lemma MoveCounts(s: Store, e: Event, t: Store, events: seq<Event>, key: Text)
    requires Moves(s, e, t) && Counted(s, events, key)
    ensures Counted(t, events + [e], key)
  {
  }

  function Rank(s: State): nat {
    match s case Reserved => 0 case Executing => 1 case ReconciliationRequired => 2 case Completed => 3
  }

  /** The receipt of `key` has kept its identity, not moved back, and not changed if it was completed. */
  ghost predicate Advanced(s: Store, t: Store, key: Text) {
    key in s ==>
      && key in t && t[key].identity == s[key].identity && Rank(s[key].state) <= Rank(t[key].state)
      && (s[key].state == Completed ==> t[key] == s[key])
  }

  lemma MoveAdvances(r: Store, s: Store, e: Event, t: Store, key: Text)
    requires Advanced(r, s, key) && Moves(s, e, t)
    ensures Advanced(r, t, key)
  {
  }

  // ---------------------------------------------------------------- runs

  /** The store after the calls of a run, from any number of clients, on the store `s`. */
  function After(s: Store, run: seq<Call>): Store {
    if run == [] then s else Next(After(s, run[..|run| - 1]), run[|run| - 1])
  }

  function Events(s: Store, run: seq<Call>): seq<Event> {
    if run == [] then []
    else Events(s, run[..|run| - 1]) + [EventOf(After(s, run[..|run| - 1]), run[|run| - 1])]
  }

  /** Every run, from an empty or any sound store, keeps the store sound. */
  lemma {:induction false} AlwaysSound(s: Store, run: seq<Call>)
    requires StoreSound(s)
    ensures StoreSound(After(s, run))
  {
    if run != [] {
      AlwaysSound(s, run[..|run| - 1]);
      CallMoves(After(s, run[..|run| - 1]), run[|run| - 1]);
    }
  }

  /** After every run, every receipt held parses unchanged and has a result exactly when completed. */
  lemma HeldReceiptsParse(s: Store, run: seq<Call>, key: Text)
    requires StoreSound(s) && key in After(s, run)
    ensures var r := After(s, run)[key];
            ParseReceipt(r) == Done(r) && r.identity.idempotencyKey == key && (r.state == Completed <==> r.result.Some?)
  {
    AlwaysSound(s, run);
    SoundReceiptParses(key, After(s, run)[key]);
  }

  /** At most one execution per key, over every run on an empty store. */
  lemma {:induction false} ExactlyOnce(run: seq<Call>, key: Text)
    ensures Counted(After(map[], run), Events(map[], run), key)
  {
    if run != [] {
      ExactlyOnce(run[..|run| - 1], key);
      AlwaysSound(map[], run[..|run| - 1]);
      CallCounts(After(map[], run[..|run| - 1]), run[|run| - 1], Events(map[], run[..|run| - 1]), key);
    }
  }

  lemma CallCounts(s: Store, call: Call, events: seq<Event>, key: Text)
    requires StoreSound(s) && Counted(s, events, key)
    ensures Counted(Next(s, call), events + [EventOf(s, call)], key)
  {
    CallMoves(s, call);
    MoveCounts(s, EventOf(s, call), Next(s, call), events, key);
  }

  /** However a run goes on, receipts only move forward, and completed ones never change. */
  lemma {:induction false} OnlyForward(s: Store, run: seq<Call>, key: Text)
    requires StoreSound(s)
    ensures Advanced(s, After(s, run), key)
  {
    if run != [] {
      OnlyForward(s, run[..|run| - 1], key);
      AlwaysSound(s, run[..|run| - 1]);
      CallAdvances(s, After(s, run[..|run| - 1]), run[|run| - 1], key);
    }
  }

  lemma CallAdvances(r: Store, s: Store, call: Call, key: Text)
    requires StoreSound(s) && Advanced(r, s, key)
    ensures Advanced(r, Next(s, call), key)
  {
    CallMoves(s, call);
    MoveAdvances(r, s, EventOf(s, call), Next(s, call), key);
  }

  /**
   Once completed, every later reserve for that identity replays the recorded result, and one for
   another identity under the same key is refused; neither changes the store.
   */
  lemma CompletedIsReplayed(s: Store, run: seq<Call>, key: Text, identity: Identity)
    requires StoreSound(s) && Over(s, key)
    requires ParseIdentity(identity).Done? && ParseIdentity(identity).value.idempotencyKey == key
    ensures Reserving(After(s, run), identity) ==
            if ParseIdentity(identity).value == s[key].identity then Done(Reservation(ReplayCompleted, s[key])) else Refused(Conflict)
    ensures Next(After(s, run), Reserve(identity)) == After(s, run)
  {
    OnlyForward(s, run, key);
    AlwaysSound(s, run);
    ReserveAnswers(After(s, run), identity);
  }

  /** On a sound store, the answer to a reservation. */
  lemma ReserveAnswers(s: Store, identity: Identity)
    requires StoreSound(s)
    ensures ParseIdentity(identity).Refused? ==> Reserving(s, identity) == Refused(InvalidArgument)
    ensures ParseIdentity(identity).Done? ==>
            var id := ParseIdentity(identity).value;
            Reserving(s, identity) ==
            if id.idempotencyKey !in s then Done(Reservation(Execute, Receipt(id, Reserved, None)))
            else if !OwnedBy(s, id) then Refused(Conflict)
            else Done(Reservation(if Over(s, id.idempotencyKey) then ReplayCompleted else ReconcileFirst, s[id.idempotencyKey]))
  {
    if ParseIdentity(identity).Done? {
      var id := ParseIdentity(identity).value;
      ParseIdentityIdempotent(identity);
      if id.idempotencyKey in s {
        SoundReceiptParses(id.idempotencyKey, s[id.idempotencyKey]);
      }
    }
  }

  /** On a sound store, when the marking calls go through. */
  lemma MarksGoThrough(s: Store, call: Call)
    requires StoreSound(s) && (call.MarkExecuting? || call.MarkReconciliation? || call.MarkCompleted?)
    requires ParseIdentity(call.identity).Done?
    ensures var id := ParseIdentity(call.identity).value;
            var key := id.idempotencyKey;
            Marked(s, call).Done? <==>
            && OwnedBy(s, id)
            && (if call.MarkExecuting? then !Started(s, key) else Started(s, key) && !Over(s, key))
            && (call.MarkCompleted? ==> Publishable(call.result))
  {
    ParseIdentityIdempotent(call.identity);
    FoundIff(s, ParseIdentity(call.identity).value);
    if call.MarkCompleted? {
      ParsedExactly(call.result);
    }
  }

  /** On a sound store, which mark is refused for what reason. */
  lemma MarkRefusals(s: Store, call: Call)
    requires StoreSound(s) && (call.MarkExecuting? || call.MarkReconciliation? || call.MarkCompleted?) && Marked(s, call).Refused?
    ensures var id := ParseIdentity(call.identity);
            Marked(s, call).error ==
            if id.Refused? then InvalidArgument
            else if id.value.idempotencyKey !in s then StateInvalid
            else if !OwnedBy(s, id.value) then Conflict
            else if call.MarkCompleted? && Started(s, id.value.idempotencyKey) && !Over(s, id.value.idempotencyKey) then InvalidArgument
            else StateInvalid
  {
    if ParseIdentity(call.identity).Refused? {
      ParseIdentityIff(call.identity, call.identity);
    } else {
      var id := ParseIdentity(call.identity).value;
      ParseIdentityIdempotent(call.identity);
      FoundIff(s, id);
      RefusedInState(Lookup(s, id.idempotencyKey), id, call);
    }
  }

  lemma RefusedInState(existing: Option<Receipt>, id: Identity, call: Call)
    ensures call.MarkExecuting? && MarkedExecuting(existing, id).Refused? ==>
              MarkedExecuting(existing, id).error == if RequireExisting(existing, id).Refused? then RequireExisting(existing, id).error else StateInvalid
    ensures call.MarkReconciliation? && MarkedReconciliation(existing, id).Refused? ==>
              MarkedReconciliation(existing, id).error == if RequireExisting(existing, id).Refused? then RequireExisting(existing, id).error else StateInvalid
    ensures call.MarkCompleted? && MarkedCompleted(existing, id, call.result).Refused? ==>
              MarkedCompleted(existing, id, call.result).error ==
              var found := RequireExisting(existing, id);
              if found.Refused? then found.error
              else if found.value.state == Executing || found.value.state == ReconciliationRequired then InvalidArgument else StateInvalid
  {
  }

  /** What a mark returns is the receipt it stored. */
  lemma AnswerIsStored(s: Store, call: Call)
    requires call.MarkExecuting? || call.MarkReconciliation? || call.MarkCompleted?
    ensures Marked(s, call).Refused? ==> Answer(s, call) == Refused(Marked(s, call).error)
    ensures Marked(s, call).Done? ==>
              var key := ParseIdentity(call.identity).value.idempotencyKey;
              key in Next(s, call) && Answer(s, call) == Done(Next(s, call)[key])
  {
  }

  /** Execute if nothing was granted before, replay if finished, reconcile in between, conflict for others. */
  ghost predicate ReserveFollows(s: Store, before: seq<Event>, identity: Identity)
    requires ParseIdentity(identity).Done?
  {
    var id, reply := ParseIdentity(identity).value, Reserving(s, identity);
    && (Grant(id.idempotencyKey) !in before <==> reply.Done? && reply.value.disposition == Execute)
    && (OwnedBy(s, id) && Finish(id.idempotencyKey) in before <==> reply.Done? && reply.value.disposition == ReplayCompleted)
    && (OwnedBy(s, id) && Finish(id.idempotencyKey) !in before <==> reply.Done? && reply.value.disposition == ReconcileFirst)
    && (Grant(id.idempotencyKey) in before && !OwnedBy(s, id) <==> reply.Refused?)
  }

  /** A mark goes through exactly when it is the owner's and next in line. */
  ghost predicate MarkFollows(s: Store, before: seq<Event>, call: Call)
    requires call.MarkExecuting? || call.MarkReconciliation? || call.MarkCompleted?
    requires ParseIdentity(call.identity).Done?
  {
    var id := ParseIdentity(call.identity).value;
    var key := id.idempotencyKey;
    Marked(s, call).Done? <==>
      && OwnedBy(s, id)
      && (if call.MarkExecuting? then Begin(key) !in before else Begin(key) in before && Finish(key) !in before)
      && (call.MarkCompleted? ==> Publishable(call.result))
  }

  lemma ReserveFollowsCount(s: Store, before: seq<Event>, identity: Identity)
    requires StoreSound(s) && ParseIdentity(identity).Done?
    requires Counted(s, before, ParseIdentity(identity).value.idempotencyKey)
    ensures ReserveFollows(s, before, identity)
  {
    HistoryMembers(s, before, ParseIdentity(identity).value.idempotencyKey);
    ReserveAnswers(s, identity);
  }

  lemma MarkFollowsCount(s: Store, before: seq<Event>, call: Call)
    requires StoreSound(s) && (call.MarkExecuting? || call.MarkReconciliation? || call.MarkCompleted?)
    requires ParseIdentity(call.identity).Done? && Counted(s, before, ParseIdentity(call.identity).value.idempotencyKey)
    ensures MarkFollows(s, before, call)
  {
    HistoryMembers(s, before, ParseIdentity(call.identity).value.idempotencyKey);
    MarksGoThrough(s, call);
  }

  lemma HistoryMembers(s: Store, events: seq<Event>, key: Text)
    requires Counted(s, events, key)
    ensures Grant(key) in events <==> key in s
    ensures Begin(key) in events <==> Started(s, key)
    ensures Finish(key) in events <==> Over(s, key)
  {
    assert Grant(key) in events <==> Grant(key) in multiset(events);
    assert Begin(key) in events <==> Begin(key) in multiset(events);
    assert Finish(key) in events <==> Finish(key) in multiset(events);
  }

  /** Over every run on an empty store, what a call answers is decided by what was answered before. */
  lemma HistoryDecides(run: seq<Call>, call: Call)
    requires !call.Get? && ParseIdentity(call.identity).Done?
    ensures call.Reserve? ==> ReserveFollows(After(map[], run), Events(map[], run), call.identity)
    ensures !call.Reserve? ==> MarkFollows(After(map[], run), Events(map[], run), call)
  {
    AlwaysSound(map[], run);
    ExactlyOnce(run, ParseIdentity(call.identity).value.idempotencyKey);
    if call.Reserve? {
      ReserveFollowsCount(After(map[], run), Events(map[], run), call.identity);
    } else {
      MarkFollowsCount(After(map[], run), Events(map[], run), call);
    }
  }

  /** The `i`-th call of a run on an empty store amounts to `e`. */
  predicate Happens(run: seq<Call>, i: nat, e: Event)
    requires i < |run|
  {
    EventOf(After(map[], run[..i]), run[i]) == e
  }

  lemma HappensEarlier(run: seq<Call>, n: nat, i: nat, e: Event)
    requires i < n <= |run| && Happens(run[..n], i, e)
    ensures Happens(run, i, e)
  {
    assert run[..n][..i] == run[..i];
  }

  /** The identity of a receipt is that of the reservation that was granted. */
  lemma {:induction false} IdentityWasGranted(run: seq<Call>, key: Text) returns (i: nat)
    requires key in After(map[], run)
    ensures i < |run| && Happens(run, i, Grant(key)) && run[i].Reserve?
    ensures ParseIdentity(run[i].identity) == Done(After(map[], run)[key].identity)
  {
    var n := |run| - 1;
    var s := After(map[], run[..n]);
    AlwaysSound(map[], run[..n]);
    if key in s {
      CallAdvances(s, s, run[n], key);
      i := IdentityWasGranted(run[..n], key);
      HappensEarlier(run, n, i, Grant(key));
    } else {
      GrantRecords(s, run[n], key);
      i := n;
    }
  }

  /** Keys that differ beyond outer white space never meet: the first reservation for one is answered "execute". */
  lemma KeysNeverMeet(run: seq<Call>, identity: Identity)
    requires ParseIdentity(identity).Done?
    requires forall i, m :: 0 <= i < |run| && run[i].Reserve? && Surrounds(run[i].identity.idempotencyKey, m) ==>
                              !Surrounds(identity.idempotencyKey, m)
    ensures var reply := Reserving(After(map[], run), identity); reply.Done? && reply.value.disposition == Execute
  {
    var id := ParseIdentity(identity).value;
    var key := id.idempotencyKey;
    ParseIdentityIff(identity, id);
    if key in After(map[], run) {
      var i := IdentityWasGranted(run, key);
      AlwaysSound(map[], run);
      ParseIdentityIff(run[i].identity, After(map[], run)[key].identity);
    }
    AlwaysSound(map[], run);
    ReserveAnswers(After(map[], run), identity);
  }

  lemma GrantRecords(s: Store, call: Call, key: Text)
    requires StoreSound(s) && key !in s && key in Next(s, call)
    ensures EventOf(s, call) == Grant(key) && call.Reserve?
    ensures ParseIdentity(call.identity) == Done(Next(s, call)[key].identity)
  {
    CallMoves(s, call);
    if call.Reserve? && ParseIdentity(call.identity).Done? {
      ReserveAnswers(s, call.identity);
    }
  }

  /** The result of a receipt is what the completing call handed in, less own `__proto__` fields. */
  lemma {:induction false} ResultWasHandedIn(run: seq<Call>, key: Text) returns (i: nat)
    requires Over(After(map[], run), key)
    ensures i < |run| && Happens(run, i, Finish(key)) && run[i].MarkCompleted?
    ensures After(map[], run)[key].result == Some(WithoutProto(run[i].result))
  {
    var n := |run| - 1;
    var s := After(map[], run[..n]);
    AlwaysSound(map[], run[..n]);
    CallMoves(s, run[n]);
    if Over(s, key) {
      CallAdvances(s, s, run[n], key);
      i := ResultWasHandedIn(run[..n], key);
      HappensEarlier(run, n, i, Finish(key));
    } else {
      FinishRecords(s, run[n]);
      i := n;
    }
  }

  lemma FinishRecords(s: Store, call: Call)
    requires StoreSound(s) && EventOf(s, call).Finish?
    ensures call.MarkCompleted? && EventOf(s, call).key in Next(s, call)
    ensures Next(s, call)[EventOf(s, call).key].result == Some(WithoutProto(call.result))
  {
    ParsedExactly(call.result);
  }

  /** A refused call leaves the store as it was. */
  lemma RefusedChangesNothing(s: Store, call: Call)
    requires match call
             case Get(_) => true
             case Reserve(identity) => Reserving(s, identity).Refused?
             case _ => Marked(s, call).Refused?
    ensures Next(s, call) == s && EventOf(s, call) == Nothing
  {
  }
}
