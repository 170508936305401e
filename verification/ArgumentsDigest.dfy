/** Which field names are treated as secret or as the confirmation id itself. */
module SensitiveKeys {
  import opened Texts

  /** What one code unit contributes to `key.toLowerCase().replace(/[^a-z0-9]/gu, "")`. */
  function NormalUnit(u: CodeUnit): Text {
    if 0x61 <= u <= 0x7A || 0x30 <= u <= 0x39 then [u]
    else if 0x41 <= u <= 0x5A then [u + 0x20]
    else if u == 0x0130 then [0x69]   // capital I with dot lowers to i and a combining dot
    else if u == 0x212A then [0x6B]   // the Kelvin sign lowers to k
    else []
  }

  function Normal(key: Text): Text {
    if key == [] then [] else NormalUnit(key[0]) + Normal(key[1..])
  }

  predicate Includes(t: Text, sub: string) {
    exists i :: 0 <= i <= |t| && Ascii(sub) <= t[i..]
  }

  predicate EndsWith(t: Text, sub: string) {
    |sub| <= |t| && t[|t| - |sub|..] == Ascii(sub)
  }

  predicate IsConfirmationId(key: Text) {
    Normal(key) == Ascii("confirmationid")
  }

  predicate IsSecret(key: Text) {
    var k := Normal(key);
    Includes(k, "authorization") || EndsWith(k, "token") || Includes(k, "credential") ||
    Includes(k, "password") || Includes(k, "secret") || EndsWith(k, "apikey") || Includes(k, "privatekey")
  }

  lemma {:induction false} NormalConcat(a: Text, b: Text)
    ensures Normal(a + b) == Normal(a) + Normal(b)
  {
    if a == [] {
      assert a + b == b;
    } else {
      assert (a + b)[1..] == a[1..] + b;
      NormalConcat(a[1..], b);
    }
  }

  predicate LowerOrDigit(u: CodeUnit) {
    0x61 <= u <= 0x7A || 0x30 <= u <= 0x39
  }

  lemma {:induction false} LowerIsNormal(t: Text)
    requires forall i :: 0 <= i < |t| ==> LowerOrDigit(t[i])
    ensures Normal(t) == t
  {
    if t != [] {
      LowerIsNormal(t[1..]);
      assert t == [t[0]] + t[1..];
    }
  }

  lemma {:induction false} NormalMiddle(a: Text, u: CodeUnit, b: Text)
    ensures Normal(a + [u] + b) == Normal(a) + NormalUnit(u) + Normal(b)
  {
    NormalConcat(a + [u], b);
    NormalConcat(a, [u]);
    assert [u][1..] == [];
    assert Normal([u]) == NormalUnit(u) + [];
  }

  /** Names that differ in case are treated alike. */
  lemma {:induction false} NamesIgnoreCase(a: Text, u: CodeUnit, b: Text)
    requires 0x41 <= u <= 0x5A
    ensures Normal(a + [u] + b) == Normal(a + [u + 0x20] + b)
  {
    NormalMiddle(a, u, b);
    NormalMiddle(a, u + 0x20, b);
  }

  /** And so are names that differ in anything but letters and digits. */
  lemma {:induction false} NamesIgnorePunctuation(a: Text, u: CodeUnit, b: Text)
    requires !LowerOrDigit(u) && !(0x41 <= u <= 0x5A) && u != 0x0130 && u != 0x212A
    ensures Normal(a + [u] + b) == Normal(a + b)
  {
    NormalMiddle(a, u, b);
    NormalConcat(a, b);
    assert Normal(a) + [] + Normal(b) == Normal(a) + Normal(b);
  }

  /** Two letters beyond ASCII lower to ASCII ones: the capital I with a dot, and the Kelvin sign. */
  lemma {:induction false} NamesLowerBeyondAscii(a: Text, b: Text)
    ensures Normal(a + [0x0130] + b) == Normal(a + [0x69] + b)
    ensures Normal(a + [0x212A] + b) == Normal(a + [0x6B] + b)
  {
    NormalMiddle(a, 0x0130, b);
    NormalMiddle(a, 0x69, b);
    NormalMiddle(a, 0x212A, b);
    NormalMiddle(a, 0x6B, b);
  }

  ghost predicate Holds(t: Text, word: string) {
    exists a, b :: t == a + Ascii(word) + b
  }

  ghost predicate Closes(t: Text, word: string) {
    exists a :: t == a + Ascii(word)
  }

  lemma {:induction false} HoldsIff(t: Text, word: string)
    ensures Includes(t, word) <==> Holds(t, word)
  {
    if Includes(t, word) {
      var i :| 0 <= i <= |t| && Ascii(word) <= t[i..];
      assert t == t[..i] + Ascii(word) + t[i + |word|..];
    }
    if Holds(t, word) {
      var a, b :| t == a + Ascii(word) + b;
      assert t[|a|..] == Ascii(word) + b;
    }
  }

  lemma {:induction false} ClosesIff(t: Text, word: string)
    ensures EndsWith(t, word) <==> Closes(t, word)
  {
    if EndsWith(t, word) {
      assert t == t[..|t| - |word|] + Ascii(word);
    }
    if Closes(t, word) {
      var a :| t == a + Ascii(word);
    }
  }

  /** Exactly which names are secret, among those of lower-case letters and digits; the others reduce to these. */
  lemma {:induction false} SecretIff(t: Text)
    requires forall i :: 0 <= i < |t| ==> LowerOrDigit(t[i])
    ensures IsConfirmationId(t) <==> t == Ascii("confirmationid")
    ensures IsSecret(t) <==>
            || Holds(t, "authorization") || Holds(t, "credential") || Holds(t, "password") || Holds(t, "secret")
            || Holds(t, "privatekey") || Closes(t, "token") || Closes(t, "apikey")
  {
    LowerIsNormal(t);
    HoldsIff(t, "authorization");
    HoldsIff(t, "credential");
    HoldsIff(t, "password");
    HoldsIff(t, "secret");
    HoldsIff(t, "privatekey");
    ClosesIff(t, "token");
    ClosesIff(t, "apikey");
  }

  /** Only the normal form of a name matters. */
  lemma {:induction false} OnlyNormalMatters(a: Text, b: Text)
    requires Normal(a) == Normal(b)
    ensures IsSecret(a) == IsSecret(b) && IsConfirmationId(a) == IsConfirmationId(b)
  {
  }
}

/**
 The text that `canonicalSourceControlArgumentsDigest` hashes: the arguments without their
 confirmation ids, refused when they carry credentials.
 */
module ArgumentsDigest {
  import opened Common
  import opened Texts
  import opened Json
  import opened CanonicalJson
  import Utf8
  import opened SensitiveKeys

  /** The value the digest is taken of. */
  function Stripped(v: Js): Result<Js> {
    match v
    case Arr(items) =>
      (match StrippedItems(items) case Ok(r) => Ok(Arr(r)) case Err => Err)
    case Obj(plain, entries) =>
      if plain then StrippedEntries(entries) else Err
    case _ => Ok(v)
  }

  function StrippedItems(items: seq<Js>): Result<seq<Js>> {
    if items == [] then Ok([])
    else
      match (StrippedItems(items[..|items| - 1]), Stripped(items[|items| - 1]))
      case (Ok(r), Ok(x)) => Ok(r + [x])
      case _ => Err
  }

  /** The record after the loop has gone through `entries`. */
  function StrippedEntries(entries: seq<Entry>): (r: Result<Js>)
    ensures r.Ok? ==> r.value.Obj?
  {
    if entries == [] then Ok(Obj(true, []))
    else
      var e := entries[|entries| - 1];
      match StrippedEntries(entries[..|entries| - 1])
      case Err => Err
      case Ok(record) =>
        if IsConfirmationId(e.key) then Ok(record)
        else if IsSecret(e.key) then Err
        else match Stripped(e.value) case Ok(x) => Ok(Assign(record, e.key, x)) case Err => Err
  }

  method RemoveEphemeralAndRejectSensitive(v: Js) returns (r: Result<Js>)
    ensures r == Stripped(v)
    decreases v
  {
    match v {
      case Arr(items) =>
        var out := [];
        var i := 0;
        while i < |items|
          invariant 0 <= i <= |items| && StrippedItems(items[..i]) == Ok(out)
        {
          var x := RemoveEphemeralAndRejectSensitive(items[i]);
          assert items[..i + 1][..i] == items[..i];
          if x.Err? {
            ItemsFail(items, i + 1);
            return Err;
          }
          out := out + [x.value];
          i := i + 1;
        }
        assert items[..i] == items;
        return Ok(Arr(out));
      case Obj(plain, entries) =>
        if !plain {
          return Err;
        }
        var record := Obj(true, []);
        var i := 0;
        while i < |entries|
          invariant 0 <= i <= |entries| && StrippedEntries(entries[..i]) == Ok(record) && record.Obj?
        {
          var e := entries[i];
          assert entries[..i + 1][..i] == entries[..i];
          if !IsConfirmationId(e.key) {
            if IsSecret(e.key) {
              EntriesFail(entries, i + 1);
              return Err;
            }
            var x := RemoveEphemeralAndRejectSensitive(e.value);
            if x.Err? {
              EntriesFail(entries, i + 1);
              return Err;
            }
            record := Assign(record, e.key, x.value);
          }
          i := i + 1;
        }
        assert entries[..i] == entries;
        return Ok(record);
      case _ => return Ok(v);
    }
  }

  lemma {:induction false} ItemsFail(items: seq<Js>, i: nat)
    requires i <= |items| && StrippedItems(items[..i]).Err?
    ensures StrippedItems(items).Err?
    decreases |items| - i
  {
    if i < |items| {
      assert items[..i + 1][..i] == items[..i];
      ItemsFail(items, i + 1);
    } else {
      assert items[..i] == items;
    }
  }

  lemma {:induction false} EntriesFail(entries: seq<Entry>, i: nat)
    requires i <= |entries| && StrippedEntries(entries[..i]).Err?
    ensures StrippedEntries(entries).Err?
    decreases |entries| - i
  {
    if i < |entries| {
      assert entries[..i + 1][..i] == entries[..i];
      EntriesFail(entries, i + 1);
    } else {
      assert entries[..i] == entries;
    }
  }

  function DigestText(v: Js): Result<Text> {
    match Stripped(v)
    case Ok(w) => Canonical(w)
    case Err => Err
  }

  // ---------------------------------------------------------------- what the text depends on

  /** Fields of JSON data that never reach the digest. */
  predicate Dropped(key: Text) {
    IsConfirmationId(key) || key == PROTO
  }

  /** The data without its dropped fields, at every depth. */
  function Pruned(d: Data): Data {
    match d
    case DArr(items) => DArr(seq(|items|, i requires 0 <= i < |items| => Pruned(items[i])))
    case DObj(fields) => DObj(map k | k in fields && !Dropped(k) :: Pruned(fields[k]))
    case _ => d
  }

  function PrunedFields(fields: map<Text, Data>): map<Text, Data> {
    Pruned(DObj(fields)).fields
  }

  lemma PruneSnoc(items: seq<Data>, x: Data)
    ensures Pruned(DArr(items + [x])).items == Pruned(DArr(items)).items + [Pruned(x)]
  {
  }

  lemma PruneDropped(fields: map<Text, Data>, e: Entry)
    requires Dropped(e.key)
    ensures PrunedFields(fields + Field(e)) == PrunedFields(fields)
  {
  }

  lemma PruneKept(fields: map<Text, Data>, e: Entry, x: Js)
    requires !Dropped(e.key) && Meaning(x) == Pruned(Meaning(e.value)) && (x.Undefined? <==> e.value.Undefined?)
    ensures PrunedFields(fields + Field(e)) == PrunedFields(fields) + Field(Entry(e.key, x))
  {
  }

  lemma {:induction false} HasKeySnoc(es: seq<Entry>, e: Entry, key: Text)
    ensures HasKey(es + [e], key) <==> HasKey(es, key) || e.key == key
  {
    assert e in es + [e];
    assert forall x :: x in es + [e] <==> x in es || x == e;
  }

  lemma {:induction false} DistinctSnoc(es: seq<Entry>, e: Entry)
    ensures DistinctKeys(es + [e]) <==> DistinctKeys(es) && !HasKey(es, e.key)
  {
    if es != [] {
      assert (es + [e])[0] == es[0] && (es + [e])[1..] == es[1..] + [e];
      DistinctSnoc(es[1..], e);
      HasKeySnoc(es[1..], e, es[0].key);
      assert HasKey(es, e.key) <==> HasKey(es[1..], e.key) || es[0].key == e.key by {
        assert es == [es[0]] + es[1..];
        assert es[0] in es;
      }
    } else {
      assert (es + [e])[1..] == [];
    }
  }

  lemma {:induction false} FieldsSnoc(es: seq<Entry>, e: Entry)
    ensures Fields(es + [e]) == Fields(es) + Field(e)
  {
    if es == [] {
      assert es + [e] == [e] && [e][1..] == [];
      assert Fields([e]) == Field(e) + Fields([]);
    } else {
      assert (es + [e])[0] == es[0] && (es + [e])[1..] == es[1..] + [e];
      FieldsSnoc(es[1..], e);
      Associate(Field(es[0]), Fields(es[1..]), Field(e));
    }
  }

  lemma Associate<K, V>(a: map<K, V>, b: map<K, V>, c: map<K, V>)
    ensures a + (b + c) == (a + b) + c
  {
  }

  lemma {:induction false} MeaningSnoc(items: seq<Js>, x: Js)
    ensures MeaningOfItems(items + [x]) == MeaningOfItems(items) + [Meaning(x)]
  {
    if items == [] {
      assert items + [x] == [x] && [x][1..] == [];
    } else {
      assert (items + [x])[0] == items[0] && (items + [x])[1..] == items[1..] + [x];
      MeaningSnoc(items[1..], x);
    }
  }

  /** Stripping prunes the meaning. */
  lemma {:induction false} StrippedMeaning(v: Js)
    requires Valid(v) && Stripped(v).Ok?
    ensures Valid(Stripped(v).value) && Meaning(Stripped(v).value) == Pruned(Meaning(v))
    ensures v.Undefined? <==> Stripped(v).value.Undefined?
  {
    match v {
      case Arr(items) =>
        StrippedItemsMeaning(items);
        LoneSlotStays(items);
      case Obj(_, entries) => StrippedEntriesMeaning(entries);
      case _ =>
    }
  }

  lemma {:induction false} StrippedItemsMeaning(items: seq<Js>)
    requires (forall x :: x in items ==> ValidItem(x)) && StrippedItems(items).Ok?
    ensures forall x :: x in StrippedItems(items).value ==> ValidItem(x)
    ensures DArr(MeaningOfItems(StrippedItems(items).value)) == Pruned(DArr(MeaningOfItems(items)))
  {
    if items != [] {
      var init, last := items[..|items| - 1], items[|items| - 1];
      assert items == init + [last];
      assert last in items;
      StrippedItemsMeaning(init);
      if !last.Slot? {
        StrippedMeaning(last);
      }
      MeaningSnoc(init, last);
      MeaningSnoc(StrippedItems(init).value, Stripped(last).value);
      PruneSnoc(MeaningOfItems(init), Meaning(last));
    }
  }

  lemma LoneSlotStays(items: seq<Js>)
    requires StrippedItems(items).Ok?
    ensures |StrippedItems(items).value| == |items| && (items == [Slot] <==> StrippedItems(items).value == [Slot])
  {
    StrippedLength(items);
    if |items| == 1 {
      assert items == items[..0] + [items[0]] && StrippedItems(items[..0]) == Ok([]);
      assert StrippedItems(items).value == [Stripped(items[0]).value];
    }
  }

  lemma {:induction false} StrippedLength(items: seq<Js>)
    requires StrippedItems(items).Ok?
    ensures |StrippedItems(items).value| == |items|
  {
    if items != [] {
      StrippedLength(items[..|items| - 1]);
    }
  }

  /** Stripping only takes keys away. */
  lemma {:induction false} StrippedKeys(entries: seq<Entry>)
    requires DistinctKeys(entries) && StrippedEntries(entries).Ok?
    ensures DistinctKeys(StrippedEntries(entries).value.entries)
    ensures forall k :: HasKey(StrippedEntries(entries).value.entries, k) ==> HasKey(entries, k)
  {
    if entries != [] {
      var init, e := entries[..|entries| - 1], entries[|entries| - 1];
      assert entries == init + [e];
      DistinctSnoc(init, e);
      StrippedKeys(init);
      var r := StrippedEntries(init).value.entries;
      forall k ensures HasKey(entries, k) <==> HasKey(init, k) || e.key == k {
        HasKeySnoc(init, e, k);
      }
      if !Dropped(e.key) {
        var e' := Entry(e.key, Stripped(e.value).value);
        DistinctSnoc(r, e');
        forall k ensures HasKey(r + [e'], k) <==> HasKey(r, k) || e.key == k {
          HasKeySnoc(r, e', k);
        }
      }
    }
  }

  lemma {:induction false} StrippedEntriesMeaning(entries: seq<Entry>)
    requires DistinctKeys(entries) && (forall e :: e in entries ==> Valid(e.value)) && StrippedEntries(entries).Ok?
    ensures Valid(StrippedEntries(entries).value)
    ensures Fields(StrippedEntries(entries).value.entries) == PrunedFields(Fields(entries))
  {
    StrippedKeys(entries);
    if entries != [] {
      var init, e := entries[..|entries| - 1], entries[|entries| - 1];
      assert entries == init + [e];
      assert e in entries;
      DistinctSnoc(init, e);
      StrippedEntriesMeaning(init);
      var r := StrippedEntries(init).value;
      if Dropped(e.key) {
        assert StrippedEntries(entries).value.entries == r.entries;
        assert PrunedFields(Fields(entries)) == PrunedFields(Fields(init)) by {
          FieldsSnoc(init, e);
          PruneDropped(Fields(init), e);
        }
      } else {
        StrippedMeaning(e.value);
        var e' := Entry(e.key, Stripped(e.value).value);
        assert StrippedEntries(entries).value.entries == r.entries + [e'];
        assert PrunedFields(Fields(entries)) == Fields(r.entries + [e']) by {
          FieldsSnoc(init, e);
          PruneKept(Fields(init), e, e'.value);
          FieldsSnoc(r.entries, e');
        }
      }
    }
  }

  /**
   Two accepted arguments have the same digest text exactly when they mean the same JSON data
   once confirmation ids (and `__proto__` fields, which the record assignment loses) are left out.
   */
  lemma DigestTextIff(a: Js, b: Js)
    requires Valid(a) && Valid(b) && DigestText(a).Ok? && DigestText(b).Ok?
    ensures DigestText(a) == DigestText(b) <==> Pruned(Meaning(a)) == Pruned(Meaning(b))
  {
    StrippedMeaning(a);
    StrippedMeaning(b);
    PrintableIffOk(Stripped(a).value);
    PrintableIffOk(Stripped(b).value);
    CanonicalTextIsMeaning(Stripped(a).value, Stripped(b).value);
  }

  /** The same holds of the bytes that are hashed. */
  lemma DigestBytesIff(a: Js, b: Js)
    requires Valid(a) && Valid(b) && DigestText(a).Ok? && DigestText(b).Ok?
    ensures Utf8.Encode(DigestText(a).value) == Utf8.Encode(DigestText(b).value) <==> Pruned(Meaning(a)) == Pruned(Meaning(b))
  {
    DigestTextIff(a, b);
    CanonicalBytesAreText(Stripped(a).value, Stripped(b).value);
  }

  /** The value without its confirmation ids, at every depth, and otherwise as it was. */
  function Bare(v: Js): Js {
    match v
    case Arr(items) => Arr(seq(|items|, i requires 0 <= i < |items| => Bare(items[i])))
    case Obj(plain, entries) => Obj(plain, BareEntries(entries))
    case _ => v
  }

  function BareEntries(entries: seq<Entry>): seq<Entry> {
    if entries == [] then []
    else
      var e := entries[|entries| - 1];
      BareEntries(entries[..|entries| - 1]) + if IsConfirmationId(e.key) then [] else [Entry(e.key, Bare(e.value))]
  }

  /**
   The digest text, and whether there is one, depend only on the bare value: arguments that come
   back carrying confirmation ids, anywhere, have the text of the arguments without them.
   */
  lemma {:induction false} DigestIgnoresConfirmationIds(v: Js)
    ensures Stripped(Bare(v)) == Stripped(v)
    ensures DigestText(Bare(v)) == DigestText(v)
  {
    match v {
      case Arr(items) => StripBareItems(items);
      case Obj(_, entries) => StripBareEntries(entries);
      case _ =>
    }
  }

  lemma {:induction false} StripBareItems(items: seq<Js>)
    ensures StrippedItems(Bare(Arr(items)).items) == StrippedItems(items)
  {
    if items != [] {
      var init, last := items[..|items| - 1], items[|items| - 1];
      var bare := Bare(Arr(items)).items;
      assert bare[..|items| - 1] == Bare(Arr(init)).items && bare[|items| - 1] == Bare(last);
      StripBareItems(init);
      assert last in items;
      DigestIgnoresConfirmationIds(last);
    }
  }

  lemma {:induction false} StripBareEntries(entries: seq<Entry>)
    ensures StrippedEntries(BareEntries(entries)) == StrippedEntries(entries)
  {
    if entries != [] {
      var init, e := entries[..|entries| - 1], entries[|entries| - 1];
      assert e in entries;
      StripBareEntries(init);
      if IsConfirmationId(e.key) {
        assert BareEntries(entries) == BareEntries(init);
      } else {
        DigestIgnoresConfirmationIds(e.value);
        var bare := BareEntries(init) + [Entry(e.key, Bare(e.value))];
        assert BareEntries(entries) == bare;
        assert bare[..|bare| - 1] == BareEntries(init) && bare[|bare| - 1] == Entry(e.key, Bare(e.value));
      }
    }
  }

  /** Confirm and retry: adding a confirmation id to an object, anywhere among its entries. */
  lemma RetryKeepsDigest(before: seq<Entry>, key: Text, id: Js, after: seq<Entry>)
    requires IsConfirmationId(key)
    ensures DigestText(Obj(true, before + [Entry(key, id)] + after)) == DigestText(Obj(true, before + after))
  {
    BareSkips(before, Entry(key, id), after);
    DigestIgnoresConfirmationIds(Obj(true, before + [Entry(key, id)] + after));
    DigestIgnoresConfirmationIds(Obj(true, before + after));
  }

  lemma BareSkips(before: seq<Entry>, e: Entry, after: seq<Entry>)
    requires IsConfirmationId(e.key)
    ensures BareEntries(before + [e] + after) == BareEntries(before + after)
  {
    BareSnoc(before, e);
    BareConcat(before + [e], after);
    BareConcat(before, after);
  }

  lemma {:induction false} BareConcat(a: seq<Entry>, b: seq<Entry>)
    ensures BareEntries(a + b) == BareEntries(a) + BareEntries(b)
    decreases |b|
  {
    if b == [] {
      assert a + b == a;
    } else {
      var init, last := b[..|b| - 1], b[|b| - 1];
      assert a + b == a + init + [last] && b == init + [last];
      BareConcat(a, init);
      BareSnoc(a + init, last);
      BareSnoc(init, last);
    }
  }

  lemma {:induction false} BareSnoc(init: seq<Entry>, e: Entry)
    ensures BareEntries(init + [e]) ==
            BareEntries(init) + if IsConfirmationId(e.key) then [] else [Entry(e.key, Bare(e.value))]
  {
    assert (init + [e])[..|init|] == init;
  }

  /** Accepted: no credential-like name and no exotic object, looking past confirmation ids. */
  predicate Accepted(v: Js) {
    match v
    case Arr(items) => forall x :: x in items ==> Accepted(x)
    case Obj(plain, entries) =>
      plain && forall e :: e in entries && !IsConfirmationId(e.key) ==> !IsSecret(e.key) && Accepted(e.value)
    case _ => true
  }

  lemma {:induction false} StrippedIffAccepted(v: Js)
    ensures Stripped(v).Ok? <==> Accepted(v)
  {
    match v {
      case Arr(items) => StrippedItemsIff(items);
      case Obj(_, entries) => StrippedEntriesIff(entries);
      case _ =>
    }
  }

  lemma {:induction false} StrippedItemsIff(items: seq<Js>)
    ensures StrippedItems(items).Ok? <==> forall x :: x in items ==> Accepted(x)
  {
    if items != [] {
      var init, last := items[..|items| - 1], items[|items| - 1];
      assert items == init + [last];
      StrippedItemsIff(init);
      StrippedIffAccepted(last);
    }
  }

  lemma {:induction false} StrippedEntriesIff(entries: seq<Entry>)
    ensures StrippedEntries(entries).Ok? <==>
            forall e :: e in entries && !IsConfirmationId(e.key) ==> !IsSecret(e.key) && Accepted(e.value)
  {
    if entries != [] {
      var init, last := entries[..|entries| - 1], entries[|entries| - 1];
      assert entries == init + [last];
      StrippedEntriesIff(init);
      StrippedIffAccepted(last.value);
    }
  }

  // ---------------------------------------------------------------- the field that is lost

  /** No object, looking past confirmation ids, has an own `__proto__` field. */
  predicate NoProto(v: Js) {
    match v
    case Arr(items) => forall x :: x in items ==> NoProto(x)
    case Obj(_, entries) => forall e :: e in entries && !IsConfirmationId(e.key) ==> e.key != PROTO && NoProto(e.value)
    case _ => true
  }

  lemma {:induction false} StrippedIsBare(v: Js)
    requires Accepted(v) && NoProto(v)
    ensures Stripped(v) == Ok(Bare(v))
  {
    match v {
      case Arr(items) => StrippedItemsAreBare(items);
      case Obj(_, entries) => StrippedEntriesAreBare(entries);
      case _ =>
    }
  }

  lemma {:induction false} StrippedItemsAreBare(items: seq<Js>)
    requires forall x :: x in items ==> Accepted(x) && NoProto(x)
    ensures StrippedItems(items) == Ok(Bare(Arr(items)).items)
  {
    if items != [] {
      var init, last := items[..|items| - 1], items[|items| - 1];
      assert last in items;
      StrippedItemsAreBare(init);
      StrippedIsBare(last);
      assert Bare(Arr(items)).items == Bare(Arr(init)).items + [Bare(last)];
    } else {
      assert Bare(Arr(items)).items == [];
    }
  }

  lemma {:induction false} StrippedEntriesAreBare(entries: seq<Entry>)
    requires Accepted(Obj(true, entries)) && NoProto(Obj(true, entries))
    ensures StrippedEntries(entries) == Ok(Obj(true, BareEntries(entries)))
  {
    if entries != [] {
      var init, e := entries[..|entries| - 1], entries[|entries| - 1];
      assert e in entries && entries == init + [e];
      StrippedEntriesAreBare(init);
      StripSnoc(init, e);
      BareSnoc(init, e);
      if IsConfirmationId(e.key) {
        assert BareEntries(init) + [] == BareEntries(init);
      } else {
        StrippedIsBare(e.value);
      }
    }
  }

  /** Without own `__proto__` fields, arguments that differ beyond confirmation ids have different texts. */
  lemma DigestSeparates(a: Js, b: Js)
    requires Valid(a) && Valid(b) && DigestText(a).Ok? && DigestText(b).Ok?
    requires NoProto(a) && NoProto(b)
    ensures DigestText(a) == DigestText(b) <==> Meaning(Bare(a)) == Meaning(Bare(b))
  {
    StrippedIffAccepted(a);
    StrippedIffAccepted(b);
    StrippedIsBare(a);
    StrippedIsBare(b);
    StrippedMeaning(a);
    StrippedMeaning(b);
    DigestTextIff(a, b);
  }

  lemma ProtoIsOrdinaryName()
    ensures !IsConfirmationId(PROTO) && !IsSecret(PROTO)
  {
    var proto := [0x70, 0x72, 0x6F, 0x74, 0x6F];
    assert PROTO == [0x5F, 0x5F] + proto + [0x5F, 0x5F];
    UnderscoresIgnored(proto);
    assert Ascii("token")[0] == 0x74;
  }

  /** Underscores around a name do not count. */
  lemma {:induction false} UnderscoresIgnored(t: Text)
    requires forall i :: 0 <= i < |t| ==> LowerOrDigit(t[i])
    ensures Normal([0x5F, 0x5F] + t + [0x5F, 0x5F]) == t
  {
    NormalConcat([0x5F, 0x5F] + t, [0x5F, 0x5F]);
    NormalConcat([0x5F, 0x5F], t);
    assert Normal([0x5F, 0x5F]) == [] by {
      assert [0x5F, 0x5F][1..] == [0x5F] && [0x5F][1..] == [];
    }
    LowerIsNormal(t);
  }

  /**
   The claim of `DigestSeparates` fails for every object with an own `__proto__` field: the same
   object without it means something else and has the same digest text.
   */
  lemma ProtoFieldIsLost(before: seq<Entry>, x: Js, after: seq<Entry>)
    requires Accepted(x)
    ensures DigestText(Obj(true, before + [Entry(PROTO, x)] + after)) == DigestText(Obj(true, before + after))
    ensures DistinctKeys(before + [Entry(PROTO, x)] + after) && !x.Undefined? ==>
              Meaning(Obj(true, before + [Entry(PROTO, x)] + after)) != Meaning(Obj(true, before + after))
  {
    var e := Entry(PROTO, x);
    ProtoSkipped(before, x, after);
    if DistinctKeys(before + [e] + after) && !x.Undefined? {
      DistinctMiddle(before, e, after);
      FieldsKeysOnly(before + after, PROTO);
      FieldsConcat(before + [e], after);
      FieldsSnoc(before, e);
    }
  }

  lemma {:induction false} ProtoSkipped(before: seq<Entry>, x: Js, after: seq<Entry>)
    requires Accepted(x)
    ensures var with, without := StrippedEntries(before + [Entry(PROTO, x)] + after), StrippedEntries(before + after);
            (with.Ok? <==> without.Ok?) && (with.Ok? ==> with.value.entries == without.value.entries)
    decreases |after|
  {
    var e := Entry(PROTO, x);
    if after == [] {
      assert before + [e] + after == before + [e] && before + after == before;
      ProtoIsOrdinaryName();
      StrippedIffAccepted(x);
      StripSnoc(before, e);
    } else {
      var init, last := after[..|after| - 1], after[|after| - 1];
      ProtoSkipped(before, x, init);
      assert before + [e] + after == (before + [e] + init) + [last];
      assert before + after == (before + init) + [last];
      StripSnoc(before + [e] + init, last);
      StripSnoc(before + init, last);
    }
  }

  lemma {:induction false} StripSnoc(init: seq<Entry>, e: Entry)
    ensures StrippedEntries(init + [e]) ==
            match StrippedEntries(init)
            case Err => Err
            case Ok(record) =>
              if IsConfirmationId(e.key) then Ok(record)
              else if IsSecret(e.key) then Err
              else match Stripped(e.value) case Ok(x) => Ok(Assign(record, e.key, x)) case Err => Err
  {
    assert (init + [e])[..|init|] == init;
  }

  lemma {:induction false} DistinctMiddle(before: seq<Entry>, e: Entry, after: seq<Entry>)
    requires DistinctKeys(before + [e] + after)
    ensures !HasKey(before + after, e.key)
    decreases |after|
  {
    if after == [] {
      assert before + [e] + after == before + [e] && before + after == before;
      DistinctSnoc(before, e);
    } else {
      var init, last := after[..|after| - 1], after[|after| - 1];
      assert before + [e] + after == (before + [e] + init) + [last];
      DistinctSnoc(before + [e] + init, last);
      DistinctMiddle(before, e, init);
      assert before + after == (before + init) + [last];
      HasKeySnoc(before + init, last, e.key);
      assert e in before + [e] + init;
    }
  }

  lemma {:induction false} FieldsConcat(a: seq<Entry>, b: seq<Entry>)
    ensures Fields(a).Keys <= Fields(a + b).Keys
  {
    if a != [] {
      assert (a + b)[0] == a[0] && (a + b)[1..] == a[1..] + b;
      FieldsConcat(a[1..], b);
    }
  }
}
