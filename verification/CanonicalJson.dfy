/**
 `canonicalJson`: one text per JSON meaning, and the browser fingerprints built on it.
 */
module CanonicalJson {
  import opened Common
  import opened Texts
  import opened Json
  import Utf8

  // ---------------------------------------------------------------- strings

  function HexDigit(d: nat): CodeUnit
    requires d < 16
  {
    if d < 10 then 0x30 + d else 0x61 + d - 10
  }

  function Nibble(u: CodeUnit, i: nat): (d: nat)
    requires i < 4
    ensures d < 16
  {
    if i == 0 then u / 0x1000 else if i == 1 then u / 0x100 % 16 else if i == 2 then u / 0x10 % 16 else u % 16
  }

  function HexEscape(u: CodeUnit): (r: Text)
    ensures |r| == 6
  {
    [BACKSLASH, 0x75] + seq(4, i requires 0 <= i < 4 => HexDigit(Nibble(u, i)))
  }

  /** How `JSON.stringify` writes one unit; `paired` says it is half of a surrogate pair. */
  function EscapedUnit(u: CodeUnit, paired: bool): Text {
    if u == 0x22 then [BACKSLASH, 0x22]
    else if u == 0x5C then [BACKSLASH, 0x5C]
    else if u == 0x08 then [BACKSLASH, 0x62]
    else if u == 0x0C then [BACKSLASH, 0x66]
    else if u == 0x0A then [BACKSLASH, 0x6E]
    else if u == 0x0D then [BACKSLASH, 0x72]
    else if u == 0x09 then [BACKSLASH, 0x74]
    else if u < 0x20 || ((IsHigh(u) || IsLow(u)) && !paired) then HexEscape(u)
    else [u]
  }

  /** A high surrogate and a low one right after it form a pair. */
  predicate Paired(s: Text, i: nat)
    requires i < |s|
  {
    if IsLow(s[i]) then i > 0 && IsHigh(s[i - 1]) else IsHigh(s[i]) && i + 1 < |s| && IsLow(s[i + 1])
  }

  function EscapedUnits(s: Text): seq<Text> {
    seq(|s|, i requires 0 <= i < |s| => EscapedUnit(s[i], Paired(s, i)))
  }

  function Concat(parts: seq<Text>): Text {
    if parts == [] then [] else parts[0] + Concat(parts[1..])
  }

  /** `JSON.stringify` of a string. */
  function Stringify(s: Text): Text {
    [QUOTE] + Concat(EscapedUnits(s)) + [QUOTE]
  }

  lemma HexDigitReads(d: nat)
    requires d < 16
    ensures HexValue(HexDigit(d)) == Some(d)
  {
  }

  lemma HexDigits(u: CodeUnit)
    ensures u / 0x1000 < 16
    ensures u == u / 0x1000 * 0x1000 + u / 0x100 % 16 * 0x100 + u / 0x10 % 16 * 0x10 + u % 16
  {
    var h := u / 0x10;
    var k := h / 0x10;
    assert k == u / 0x100 && k / 0x10 == u / 0x1000;
  }

  lemma HexEscapeReads(u: CodeUnit)
    ensures ReadHex4(HexEscape(u)[2..6]) == Some(u)
  {
    HexDigits(u);
    var t := HexEscape(u)[2..6];
    forall i | 0 <= i < 4 ensures HexValue(t[i]) == Some(Nibble(u, i)) {
      HexDigitReads(Nibble(u, i));
    }
  }

  /** Every unit that is not a quote, a backslash, a control character or an unpaired surrogate stands for itself. */
  lemma OrdinaryUnitsStay(u: CodeUnit, paired: bool)
    ensures EscapedUnit(u, paired) == [u] <==> u >= 0x20 && u != 0x22 && u != 0x5C && ((IsHigh(u) || IsLow(u)) ==> paired)
  {
  }

  /**
   The other units are written in the shortest way that is read back as them, unpaired surrogates
   and the remaining control characters as four lower-case hexadecimal digits.
   */
  lemma EscapesAreShortest(u: CodeUnit, paired: bool, e: Text)
    requires EscapedUnit(u, paired) != [u]
    ensures ReadUnit(e) == Some(Read(u, [])) && !IsHigh(u) && !IsLow(u) ==> |EscapedUnit(u, paired)| <= |e|
    ensures IsHigh(u) || IsLow(u) ==> |EscapedUnit(u, paired)| == 6
    ensures |EscapedUnit(u, paired)| == 6 ==>
              forall i :: 2 <= i < 6 ==> 0x30 <= EscapedUnit(u, paired)[i] <= 0x39 || 0x61 <= EscapedUnit(u, paired)[i] <= 0x66
  {
    if |EscapedUnit(u, paired)| == 6 {
      assert EscapedUnit(u, paired) == HexEscape(u);
    }
    if ReadUnit(e) == Some(Read(u, [])) && |e| >= 1 && e[0] == BACKSLASH && |e| >= 6 && e[1] == 0x75 {
      assert |e| == 6;
    }
  }

  /** Whatever follows it, `e` is read as the one character `u`. */
  ghost predicate ReadsAs(unit: Text -> Option<Read<CodeUnit>>, e: Text, u: CodeUnit) {
    e != [] && e[0] != QUOTE && forall t :: unit(e + t) == Some(Read(u, t))
  }

  lemma EscapedUnitReads(u: CodeUnit, paired: bool)
    ensures ReadsAs(ReadUnit, EscapedUnit(u, paired), u)
  {
    var e := EscapedUnit(u, paired);
    forall t ensures ReadUnit(e + t) == Some(Read(u, t)) {
      var w := e + t;
      if e == HexEscape(u) {
        assert w[2..6] == HexEscape(u)[2..6] && w[6..] == t;
        HexEscapeReads(u);
      } else if |e| == 2 {
        assert w[0] == BACKSLASH && w[1] == e[1] && w[2..] == t;
      } else {
        assert w[0] == u && w[1..] == t;
      }
    }
  }

  lemma {:induction false} ReadParts(unit: Text -> Option<Read<CodeUnit>>, parts: seq<Text>, s: Text, r: Text)
    requires |parts| == |s| && forall i :: 0 <= i < |s| ==> ReadsAs(unit, parts[i], s[i])
    ensures ReadChars(unit, Concat(parts) + [QUOTE] + r) == Some(Read(s, r))
  {
    if s == [] {
      assert Concat(parts) + [QUOTE] + r == [QUOTE] + r;
      assert ([QUOTE] + r)[1..] == r;
    } else {
      ReadParts(unit, parts[1..], s[1..], r);
      var t := Concat(parts[1..]) + [QUOTE] + r;
      assert Concat(parts) + [QUOTE] + r == parts[0] + t;
      assert unit(parts[0] + t) == Some(Read(s[0], t));
      assert s == [s[0]] + s[1..];
    }
  }

  lemma ReadStringified(s: Text, r: Text)
    ensures ReadString(Concat(EscapedUnits(s)) + [QUOTE] + r) == Some(Read(s, r))
  {
    forall i | 0 <= i < |s| ensures ReadsAs(ReadUnit, EscapedUnits(s)[i], s[i]) {
      EscapedUnitReads(s[i], Paired(s, i));
    }
    ReadParts(ReadUnit, EscapedUnits(s), s, r);
  }

  // ---------------------------------------------------------------- the printer

  /** The entries whose value is not `undefined`. */
  function Defined(entries: seq<Entry>): (r: seq<Entry>)
    ensures forall e :: e in r <==> e in entries && !e.value.Undefined?
    ensures SizeOfEntries(r) <= SizeOfEntries(entries)
  {
    if entries == [] then []
    else if entries[0].value.Undefined? then Defined(entries[1..])
    else
      assert ([entries[0]] + Defined(entries[1..]))[1..] == Defined(entries[1..]);
      [entries[0]] + Defined(entries[1..])
  }

  function Insert(e: Entry, sorted: seq<Entry>): (r: seq<Entry>)
    ensures forall x :: x in r <==> x == e || x in sorted
    ensures SizeOfEntries(r) == Size(e.value) + SizeOfEntries(sorted)
  {
    if sorted == [] || Less(e.key, sorted[0].key) then
      assert ([e] + sorted)[1..] == sorted;
      [e] + sorted
    else
      var rest := Insert(e, sorted[1..]);
      assert ([sorted[0]] + rest)[1..] == rest;
      [sorted[0]] + rest
  }

  /** The entries in ascending code-unit order of their keys. */
  function SortByKey(entries: seq<Entry>): (r: seq<Entry>)
    ensures forall e :: e in r <==> e in entries
    ensures SizeOfEntries(r) == SizeOfEntries(entries)
  {
    if entries == [] then [] else Insert(entries[0], SortByKey(entries[1..]))
  }

  function Canonical(v: Js): Result<Text>
    decreases Size(v), 0
  {
    match v
    case Slot => Ok([])
    case Undefined => Ok(NULL)
    case Null => Ok(NULL)
    case Bool(b) => Ok(if b then TRUE else FALSE)
    case Number(t) => Ok(t)
    case NonFinite => Err
    case Str(s) => Ok(Stringify(s))
    case Opaque => Err
    case Arr(items) =>
      (match CanonicalItems(items)
       case Ok(texts) => Ok([LBRACKET] + JoinWith(texts, COMMA) + [RBRACKET])
       case Err => Err)
    case Obj(_, entries) =>
      match CanonicalMembers(SortByKey(Defined(entries)))
      case Ok(texts) => Ok([LBRACE] + JoinWith(texts, COMMA) + [RBRACE])
      case Err => Err
  }

  function CanonicalItems(items: seq<Js>): (r: Result<seq<Text>>)
    ensures r.Ok? ==> |r.value| == |items|
    decreases SizeOfItems(items), 1
  {
    if items == [] then Ok([])
    else
      match (Canonical(items[0]), CanonicalItems(items[1..]))
      case (Ok(text), Ok(texts)) => Ok([text] + texts)
      case _ => Err
  }

  function CanonicalMembers(entries: seq<Entry>): (r: Result<seq<Text>>)
    ensures r.Ok? ==> |r.value| == |entries|
    decreases SizeOfEntries(entries), 1
  {
    if entries == [] then Ok([])
    else
      match (Canonical(entries[0].value), CanonicalMembers(entries[1..]))
      case (Ok(text), Ok(texts)) => Ok([Stringify(entries[0].key) + [COLON] + text] + texts)
      case _ => Err
  }

  // ---------------------------------------------------------------- sorting keeps the meaning

  ghost predicate StrictlySorted(entries: seq<Entry>) {
    entries == [] ||
    (StrictlySorted(entries[1..]) &&
     forall e :: e in entries[1..] ==> Less(entries[0].key, e.key))
  }

  lemma {:induction false} FieldsKeys(entries: seq<Entry>, key: Text)
    requires forall e :: e in entries ==> !e.value.Undefined?
    ensures key in Fields(entries) <==> HasKey(entries, key)
  {
    if entries != [] {
      FieldsKeys(entries[1..], key);
      assert entries == [entries[0]] + entries[1..];
      assert entries[0] in entries;
    }
  }

  lemma {:induction false} FieldsOfDefined(entries: seq<Entry>)
    ensures Fields(Defined(entries)) == Fields(entries)
    ensures DistinctKeys(entries) ==> DistinctKeys(Defined(entries))
  {
    if entries != [] {
      FieldsOfDefined(entries[1..]);
      if !entries[0].value.Undefined? {
        assert Defined(entries)[1..] == Defined(entries[1..]);
      }
    }
  }

  lemma {:induction false} InsertKeepsOrder(e: Entry, sorted: seq<Entry>)
    requires StrictlySorted(sorted) && !HasKey(sorted, e.key)
    ensures StrictlySorted(Insert(e, sorted))
  {
    var r := Insert(e, sorted);
    if sorted == [] || Less(e.key, sorted[0].key) {
      assert r[1..] == sorted;
      forall x | x in sorted ensures Less(e.key, x.key) {
        if x != sorted[0] {
          assert x in sorted[1..];
          LessTransitive(e.key, sorted[0].key, x.key);
        }
      }
    } else {
      assert sorted[0] in sorted;
      LessTotal(e.key, sorted[0].key);
      InsertKeepsOrder(e, sorted[1..]);
      assert r[0] == sorted[0] && r[1..] == Insert(e, sorted[1..]);
    }
  }

  lemma {:induction false} InsertKeepsFields(e: Entry, sorted: seq<Entry>)
    requires !HasKey(sorted, e.key)
    ensures Fields(Insert(e, sorted)) == Field(e) + Fields(sorted)
  {
    var r := Insert(e, sorted);
    if sorted == [] || Less(e.key, sorted[0].key) {
      assert r[0] == e && r[1..] == sorted;
    } else {
      assert sorted[0] in sorted;
      assert r[0] == sorted[0] && r[1..] == Insert(e, sorted[1..]);
      calc {
        Fields(r);
        Field(sorted[0]) + Fields(Insert(e, sorted[1..]));
        { InsertKeepsFields(e, sorted[1..]); }
        Field(sorted[0]) + (Field(e) + Fields(sorted[1..]));
        { FieldKeys(e); FieldKeys(sorted[0]); Swap(Field(e), Field(sorted[0]), Fields(sorted[1..])); }
        Field(e) + (Field(sorted[0]) + Fields(sorted[1..]));
        Field(e) + Fields(sorted);
      }
    }
  }

  lemma FieldKeys(e: Entry)
    ensures Field(e).Keys <= {e.key}
  {
  }

  lemma Swap<K, V>(a: map<K, V>, b: map<K, V>, c: map<K, V>)
    requires a.Keys !! b.Keys
    ensures b + (a + c) == a + (b + c)
  {
  }

  lemma {:induction false} SortKeepsFields(entries: seq<Entry>)
    requires DistinctKeys(entries) && forall e :: e in entries ==> !e.value.Undefined?
    ensures StrictlySorted(SortByKey(entries))
    ensures Fields(SortByKey(entries)) == Fields(entries)
  {
    if entries != [] {
      SortKeepsFields(entries[1..]);
      assert entries[0] in entries;
      InsertKeepsOrder(entries[0], SortByKey(entries[1..]));
      InsertKeepsFields(entries[0], SortByKey(entries[1..]));
    }
  }

  /** The entries that are printed: sorted, defined, and with the meaning of the original ones. */
  lemma PrintedEntries(entries: seq<Entry>)
    requires DistinctKeys(entries)
    ensures var p := SortByKey(Defined(entries));
            StrictlySorted(p) && Fields(p) == Fields(entries) && forall e :: e in p ==> e in entries && !e.value.Undefined?
  {
    FieldsOfDefined(entries);
    SortKeepsFields(Defined(entries));
  }

  // ---------------------------------------------------------------- the text means the value

  /** Text that may follow a value. */
  predicate Ends(r: Text) {
    r == [] || r[0] == COMMA || r[0] == RBRACKET || r[0] == RBRACE
  }

  lemma {:induction false} NumberIsMaximal(t: Text, r: Text)
    requires (forall u :: u in t ==> IsNumberUnit(u)) && Ends(r)
    ensures NumberLength(t + r) == |t|
  {
    if t == [] {
      assert t + r == r;
    } else {
      assert (t + r)[1..] == t[1..] + r;
      NumberIsMaximal(t[1..], r);
    }
  }

  /** No printed value begins like a comma, a closing bracket or a closing brace. */
  lemma CanonicalStart(v: Js)
    requires Canonical(v).Ok? && !v.Slot?
    ensures var t := Canonical(v).value; t != [] && t[0] != RBRACKET && t[0] != RBRACE && t[0] != COMMA
  {
    if v.Number? {
      assert v.text[0] in v.text;
    }
  }

  lemma ReadBackLiteral(v: Js, r: Text)
    requires v.Undefined? || v.Null? || v.Bool?
    ensures ReadValue(Canonical(v).value + r) == Some(Read(Meaning(v), r))
  {
    var t := Canonical(v).value;
    var w := t + r;
    assert w[0] == t[0] && w[|t|..] == r;
  }

  lemma ReadBackNumber(t: NumberText, r: Text)
    requires Ends(r)
    ensures ReadValue(t + r) == Some(Read(DNumber(t), r))
  {
    var w := t + r;
    assert t[0] in t && w[0] == t[0];
    NumberIsMaximal(t, r);
    assert w[..|t|] == t && w[|t|..] == r;
  }

  lemma ReadBackString(s: Text, r: Text)
    ensures ReadValue(Stringify(s) + r) == Some(Read(DStr(s), r))
  {
    var inner := Concat(EscapedUnits(s)) + [QUOTE] + r;
    assert Stringify(s) + r == [QUOTE] + inner;
    ReadStringified(s, r);
    ReadQuoted(inner);
  }

  lemma ReadQuoted(inner: Text)
    requires ReadString(inner).Some?
    ensures ReadValue([QUOTE] + inner) == Some(Read(DStr(ReadString(inner).value.value), ReadString(inner).value.rest))
  {
    assert ([QUOTE] + inner)[1..] == inner;
  }

  /** The reader gets back exactly the meaning of the value, and stops after it. */
  lemma {:induction false} ReadBack(v: Js, r: Text)
    requires Valid(v) && Canonical(v).Ok? && Ends(r)
    ensures ReadValue(Canonical(v).value + r) == Some(Read(Meaning(v), r))
    decreases Size(v), 0
  {
    if v.Arr? {
      var texts := CanonicalItems(v.items).value;
      if v.items != [] && v.items != [Slot] {
        ItemsStart(v.items);
        ReadBackItems(v.items, r);
      }
      LoneSlot();
      ReadArray(texts, r);
    } else if v.Obj? {
      var printed := SortByKey(Defined(v.entries));
      PrintedEntries(v.entries);
      var texts := CanonicalMembers(printed).value;
      if printed != [] {
        ReadBackMembers(printed, r);
      }
      ReadObject(texts, r);
    } else if v.Number? {
      ReadBackNumber(v.text, r);
    } else if v.Str? {
      ReadBackString(v.s, r);
    } else {
      ReadBackLiteral(v, r);
    }
  }

  lemma ReadArray(texts: seq<Text>, r: Text)
    requires JoinWith(texts, COMMA) != [] ==> JoinWith(texts, COMMA)[0] != RBRACKET
    ensures ReadValue([LBRACKET] + JoinWith(texts, COMMA) + [RBRACKET] + r) ==
            if JoinWith(texts, COMMA) == [] then Some(Read(DArr([]), r))
            else match ReadItems(JoinWith(texts, COMMA) + [RBRACKET] + r)
                 case Some(Read(vs, rest)) => Some(Read(DArr(vs), rest))
                 case None => None
  {
    var inner := JoinWith(texts, COMMA) + [RBRACKET] + r;
    assert [LBRACKET] + JoinWith(texts, COMMA) + [RBRACKET] + r == [LBRACKET] + inner;
    assert JoinWith(texts, COMMA) == [] ==> inner == [RBRACKET] + r;
    ReadBracketed(LBRACKET, inner, r);
  }

  /** Any other list of items prints as something that does not begin with a closing bracket. */
  lemma ItemsStart(items: seq<Js>)
    requires items != [] && items != [Slot] && CanonicalItems(items).Ok?
    ensures var t := JoinWith(CanonicalItems(items).value, COMMA); t != [] && t[0] != RBRACKET
  {
    var texts := CanonicalItems(items).value;
    assert items == [items[0]] + items[1..];
    assert texts[0] == Canonical(items[0]).value;
    if !items[0].Slot? {
      CanonicalStart(items[0]);
      assert JoinWith(texts, COMMA)[0] == texts[0][0];
    } else {
      assert |items| > 1;
      assert JoinWith(texts, COMMA)[0] == COMMA;
    }
  }

  lemma ReadObject(texts: seq<Text>, r: Text)
    requires texts != [] ==> texts[0] != [] && texts[0][0] != RBRACE
    ensures ReadValue([LBRACE] + JoinWith(texts, COMMA) + [RBRACE] + r) ==
            if texts == [] then Some(Read(DObj(map[]), r))
            else match ReadMembers(JoinWith(texts, COMMA) + [RBRACE] + r)
                 case Some(Read(fs, rest)) => Some(Read(DObj(fs), rest))
                 case None => None
  {
    var inner := JoinWith(texts, COMMA) + [RBRACE] + r;
    assert [LBRACE] + JoinWith(texts, COMMA) + [RBRACE] + r == [LBRACE] + inner;
    assert texts == [] ==> inner == [RBRACE] + r;
    ReadBracketed(LBRACE, inner, r);
  }

  lemma ReadBracketed(open: CodeUnit, inner: Text, r: Text)
    requires open == LBRACKET || open == LBRACE
    ensures open == LBRACKET && inner == [RBRACKET] + r ==> ReadValue([open] + inner) == Some(Read(DArr([]), r))
    ensures open == LBRACKET && inner != [] && inner[0] != RBRACKET ==>
              ReadValue([open] + inner) ==
              match ReadItems(inner) case Some(Read(vs, rest)) => Some(Read(DArr(vs), rest)) case None => None
    ensures open == LBRACE && inner == [RBRACE] + r ==> ReadValue([open] + inner) == Some(Read(DObj(map[]), r))
    ensures open == LBRACE && inner != [] && inner[0] != RBRACE ==>
              ReadValue([open] + inner) ==
              match ReadMembers(inner) case Some(Read(fs, rest)) => Some(Read(DObj(fs), rest)) case None => None
  {
    var w := [open] + inner;
    assert w[0] == open && w[1..] == inner;
    assert inner != [] ==> w[1] == inner[0] && w[2..] == inner[1..];
    assert ([RBRACKET] + r)[1..] == r && ([RBRACE] + r)[1..] == r;
  }

  /** How a joined, non-empty list continues after its first text. */
  lemma JoinStart(texts: seq<Text>, after: Text)
    requires texts != []
    ensures JoinWith(texts, COMMA) + after ==
            texts[0] + (if |texts| == 1 then after else [COMMA] + (JoinWith(texts[1..], COMMA) + after))
  {
  }

  lemma {:induction false} ReadBackItems(items: seq<Js>, r: Text)
    requires items != [] && (forall x :: x in items ==> ValidItem(x)) && CanonicalItems(items).Ok?
    ensures ReadItems(JoinWith(CanonicalItems(items).value, COMMA) + [RBRACKET] + r) ==
            Some(Read(MeaningOfItems(items), r))
    decreases SizeOfItems(items), 2
  {
    var texts := CanonicalItems(items).value;
    var after := [RBRACKET] + r;
    assert JoinWith(texts, COMMA) + [RBRACKET] + r == JoinWith(texts, COMMA) + after;
    JoinStart(texts, after);
    assert items[0] in items;
    if |items| == 1 {
      ReadBackItem(items[0], after);
      assert after[1..] == r;
      assert MeaningOfItems(items) == [Meaning(items[0])];
    } else {
      var more := JoinWith(texts[1..], COMMA) + after;
      ReadBackItem(items[0], [COMMA] + more);
      assert ([COMMA] + more)[1..] == more;
      assert CanonicalItems(items[1..]) == Ok(texts[1..]);
      ReadBackItems(items[1..], r);
      assert more == JoinWith(texts[1..], COMMA) + [RBRACKET] + r;
    }
  }

  lemma {:induction false} ReadBackItem(v: Js, after: Text)
    requires ValidItem(v) && Canonical(v).Ok? && Ends(after) && after != [] && after[0] != RBRACE
    ensures ReadItem(Canonical(v).value + after) == Some(Read(Meaning(v), after))
    decreases Size(v), 1
  {
    if v.Slot? {
      assert [] + after == after;
    } else {
      ReadBack(v, after);
      CanonicalStart(v);
    }
  }

  lemma {:induction false} ReadBackMembers(entries: seq<Entry>, r: Text)
    requires entries != [] && CanonicalMembers(entries).Ok?
    requires forall e :: e in entries ==> Valid(e.value) && !e.value.Undefined?
    ensures ReadMembers(JoinWith(CanonicalMembers(entries).value, COMMA) + [RBRACE] + r) ==
            Some(Read(Fields(entries), r))
    decreases SizeOfEntries(entries), 1
  {
    var texts := CanonicalMembers(entries).value;
    var e, value := entries[0], Canonical(entries[0].value).value;
    assert e in entries;
    assert texts[0] == Stringify(e.key) + [COLON] + value;
    if |entries| == 1 {
      ReadBack(e.value, [RBRACE] + r);
      ReadLastMember(texts, e.key, value, r, Meaning(e.value));
      assert Fields(entries) == Field(e) + Fields([]) == map[e.key := Meaning(e.value)];
    } else {
      assert CanonicalMembers(entries[1..]) == Ok(texts[1..]);
      var more := JoinWith(texts[1..], COMMA) + [RBRACE] + r;
      ReadBack(e.value, [COMMA] + more);
      ReadBackMembers(entries[1..], r);
      ReadFirstMember(texts, e.key, value, r, Meaning(e.value));
    }
  }

  lemma {:induction false} ReadLastMember(texts: seq<Text>, key: Text, value: Text, r: Text, data: Data)
    requires |texts| == 1 && texts[0] == Stringify(key) + [COLON] + value
    requires ReadValue(value + ([RBRACE] + r)) == Some(Read(data, [RBRACE] + r))
    ensures ReadMembers(JoinWith(texts, COMMA) + [RBRACE] + r) == Some(Read(map[key := data], r))
  {
    var after := [RBRACE] + r;
    assert JoinWith(texts, COMMA) + [RBRACE] + r == JoinWith(texts, COMMA) + after;
    JoinStart(texts, after);
    assert after[1..] == r;
    ReadMember(key, value, after, data);
  }

  lemma {:induction false} ReadFirstMember(texts: seq<Text>, key: Text, value: Text, r: Text, data: Data)
    requires |texts| > 1 && texts[0] == Stringify(key) + [COLON] + value
    requires var rest := [COMMA] + (JoinWith(texts[1..], COMMA) + [RBRACE] + r);
             ReadValue(value + rest) == Some(Read(data, rest))
    requires ReadMembers(JoinWith(texts[1..], COMMA) + [RBRACE] + r).Some?
    ensures ReadMembers(JoinWith(texts, COMMA) + [RBRACE] + r) ==
            var later := ReadMembers(JoinWith(texts[1..], COMMA) + [RBRACE] + r).value;
            Some(Read(map[key := data] + later.value, later.rest))
  {
    var more := JoinWith(texts[1..], COMMA) + [RBRACE] + r;
    JoinContinues(texts, r);
    assert ([COMMA] + more)[1..] == more;
    ReadMember(key, value, [COMMA] + more, data);
  }

  lemma {:induction false} JoinContinues(texts: seq<Text>, r: Text)
    requires |texts| > 1
    ensures JoinWith(texts, COMMA) + [RBRACE] + r ==
            texts[0] + ([COMMA] + (JoinWith(texts[1..], COMMA) + [RBRACE] + r))
  {
    var after := [RBRACE] + r;
    assert JoinWith(texts, COMMA) + [RBRACE] + r == JoinWith(texts, COMMA) + after;
    assert JoinWith(texts[1..], COMMA) + [RBRACE] + r == JoinWith(texts[1..], COMMA) + after;
    JoinStart(texts, after);
  }

  /** A written member is read as its key and value, up to the brace or comma after it. */
  lemma ReadMember(key: Text, value: Text, after: Text, data: Data)
    requires after != [] && ReadValue(value + after) == Some(Read(data, after))
    ensures after[0] == RBRACE ==>
              ReadMembers(Stringify(key) + [COLON] + value + after) == Some(Read(map[key := data], after[1..]))
    ensures after[0] == COMMA && ReadMembers(after[1..]).Some? ==>
              ReadMembers(Stringify(key) + [COLON] + value + after) ==
              Some(Read(map[key := data] + ReadMembers(after[1..]).value.value, ReadMembers(after[1..]).value.rest))
  {
    var colon := [COLON] + (value + after);
    MemberText(key, value, after);
    ReadStringified(key, colon);
    assert colon[1..] == value + after;
    ReadKeyed(Concat(EscapedUnits(key)) + [QUOTE] + colon, key, colon, after, data);
  }

  lemma MemberText(key: Text, value: Text, after: Text)
    ensures Stringify(key) + [COLON] + value + after ==
            [QUOTE] + (Concat(EscapedUnits(key)) + [QUOTE] + ([COLON] + (value + after)))
  {
    Quoting(Concat(EscapedUnits(key)), [COLON], value, after);
  }

  lemma Quoting(body: Text, a: Text, b: Text, c: Text)
    ensures [QUOTE] + body + [QUOTE] + a + b + c == [QUOTE] + (body + [QUOTE] + (a + (b + c)))
  {
  }

  lemma ReadKeyed(inner: Text, key: Text, colon: Text, after: Text, data: Data)
    requires ReadString(inner) == Some(Read(key, colon)) && colon != [] && colon[0] == COLON
    requires after != [] && ReadValue(colon[1..]) == Some(Read(data, after))
    ensures after[0] == RBRACE ==> ReadMembers([QUOTE] + inner) == Some(Read(map[key := data], after[1..]))
    ensures after[0] == COMMA && ReadMembers(after[1..]).Some? ==>
              ReadMembers([QUOTE] + inner) ==
              Some(Read(map[key := data] + ReadMembers(after[1..]).value.value, ReadMembers(after[1..]).value.rest))
  {
    assert ([QUOTE] + inner)[1..] == inner;
  }

  // ---------------------------------------------------------------- one text per meaning

  lemma {:induction false} PrintableIffOk(v: Js)
    ensures Canonical(v).Ok? <==> Printable(v)
    decreases Size(v), 0
  {
    match v {
      case Arr(items) => ItemsPrintable(items);
      case Obj(_, entries) =>
        var printed := SortByKey(Defined(entries));
        MembersPrintable(printed);
        assert forall e :: e in entries && e !in printed ==> e.value.Undefined?;
      case _ =>
    }
  }

  lemma {:induction false} ItemsPrintable(items: seq<Js>)
    ensures CanonicalItems(items).Ok? <==> forall x :: x in items ==> Printable(x)
    decreases SizeOfItems(items), 1
  {
    if items != [] {
      PrintableIffOk(items[0]);
      ItemsPrintable(items[1..]);
      assert items == [items[0]] + items[1..];
    }
  }

  lemma {:induction false} MembersPrintable(entries: seq<Entry>)
    ensures CanonicalMembers(entries).Ok? <==> forall e :: e in entries ==> Printable(e.value)
    decreases SizeOfEntries(entries), 1
  {
    if entries != [] {
      PrintableIffOk(entries[0].value);
      MembersPrintable(entries[1..]);
      assert entries == [entries[0]] + entries[1..];
    }
  }

  lemma {:induction false} SameMeaningSameText(a: Js, b: Js)
    requires Valid(a) && Valid(b) && Printable(a) && Printable(b) && Meaning(a) == Meaning(b)
    ensures Canonical(a) == Canonical(b)
    decreases Size(a), 0
  {
    match a {
      case Arr(items) =>
        LoneSlot();
        if items != [Slot] && b.items != [Slot] {
          SameItems(items, b.items);
        }
      case Obj(_, entries) =>
        PrintedEntries(entries);
        PrintedEntries(b.entries);
        SameMembers(SortByKey(Defined(entries)), SortByKey(Defined(b.entries)));
      case _ =>
    }
  }

  lemma {:induction false} SameItems(xs: seq<Js>, ys: seq<Js>)
    requires forall x :: x in xs || x in ys ==> ValidItem(x) && Printable(x)
    requires MeaningOfItems(xs) == MeaningOfItems(ys)
    ensures CanonicalItems(xs) == CanonicalItems(ys)
    decreases SizeOfItems(xs), 1
  {
    if xs != [] {
      assert xs[0] in xs && ys[0] in ys;
      assert MeaningOfItems(xs)[0] == Meaning(xs[0]) && MeaningOfItems(ys)[0] == Meaning(ys[0]);
      assert MeaningOfItems(xs)[1..] == MeaningOfItems(xs[1..]);
      assert MeaningOfItems(ys)[1..] == MeaningOfItems(ys[1..]);
      if !xs[0].Slot? && !ys[0].Slot? {
        SameMeaningSameText(xs[0], ys[0]);
      }
      SameItems(xs[1..], ys[1..]);
    } else {
      assert |MeaningOfItems(ys)| == 0;
    }
  }

  /** An array with one empty slot prints like the empty array. */
  lemma LoneSlot()
    ensures CanonicalItems([Slot]) == Ok([[]])
    ensures Canonical(Arr([Slot])) == Canonical(Arr([])) == Ok([LBRACKET, RBRACKET])
  {
    var items: seq<Js>, one: seq<Text>, none: seq<Text> := [Slot], [[]], [];
    assert one + none == one;
    assert items[0] == Slot && items[1..] == [];
    assert CanonicalItems(items[1..]) == Ok([]) && Canonical(items[0]) == Ok([]);
    assert [LBRACKET] + [] + [RBRACKET] == [LBRACKET, RBRACKET];
  }

  /** A strictly sorted list is determined by its fields: the head is the least key. */
  lemma {:induction false} SameMembers(p: seq<Entry>, q: seq<Entry>)
    requires StrictlySorted(p) && StrictlySorted(q) && Fields(p) == Fields(q)
    requires forall e :: e in p || e in q ==> Valid(e.value) && Printable(e.value) && !e.value.Undefined?
    ensures CanonicalMembers(p) == CanonicalMembers(q)
    decreases SizeOfEntries(p), 1
  {
    if p == [] || q == [] {
      NoFields(p);
      NoFields(q);
    } else {
      LeastKey(p, q);
      LeastKey(q, p);
      LessIrreflexive(p[0].key);
      if Less(p[0].key, q[0].key) && Less(q[0].key, p[0].key) {
        LessTransitive(p[0].key, q[0].key, p[0].key);
      }
      HeadAndTail(p);
      HeadAndTail(q);
      SameMeaningSameText(p[0].value, q[0].value);
      SameMembers(p[1..], q[1..]);
    }
  }

  lemma NoFields(p: seq<Entry>)
    requires forall e :: e in p ==> !e.value.Undefined?
    ensures Fields(p) == map[] <==> p == []
  {
    if p != [] {
      assert p[0] in p;
      FieldsKeys(p, p[0].key);
    }
  }

  lemma LeastKey(p: seq<Entry>, q: seq<Entry>)
    requires p != [] && q != [] && StrictlySorted(q) && Fields(p) == Fields(q)
    requires forall e :: e in p || e in q ==> !e.value.Undefined?
    ensures p[0].key == q[0].key || Less(q[0].key, p[0].key)
  {
    assert p[0] in p;
    FieldsKeys(p, p[0].key);
    FieldsKeys(q, p[0].key);
    var e :| e in q && e.key == p[0].key;
    if e != q[0] {
      assert e in q[1..];
    }
  }

  lemma HeadAndTail(p: seq<Entry>)
    requires p != [] && StrictlySorted(p) && forall e :: e in p ==> !e.value.Undefined?
    ensures p[0] in p && p[0].key in Fields(p) && Fields(p)[p[0].key] == Meaning(p[0].value)
    ensures Fields(p[1..]) == Fields(p) - {p[0].key}
  {
    LessIrreflexive(p[0].key);
    FieldsKeys(p[1..], p[0].key);
    assert !HasKey(p[1..], p[0].key);
    assert Fields(p) == Field(p[0]) + Fields(p[1..]);
    assert p[0] in p;
  }

  /**
   The canonical text exists exactly for printable values; it is JSON for the value's meaning;
   and two values have the same text if and only if they have the same meaning.
   */
  lemma CanonicalTextIsMeaning(a: Js, b: Js)
    requires Valid(a) && Valid(b)
    ensures Canonical(a).Ok? <==> Printable(a)
    ensures Printable(a) ==> Parse(Canonical(a).value) == Some(Meaning(a))
    ensures Printable(a) && Printable(b) ==> (Canonical(a) == Canonical(b) <==> Meaning(a) == Meaning(b))
  {
    PrintableIffOk(a);
    PrintableIffOk(b);
    if Printable(a) {
      ParsesBack(a);
      if Printable(b) {
        ParsesBack(b);
        if Meaning(a) == Meaning(b) {
          SameMeaningSameText(a, b);
        }
      }
    }
  }

  lemma ParsesBack(v: Js)
    requires Valid(v) && Canonical(v).Ok?
    ensures Parse(Canonical(v).value) == Some(Meaning(v))
  {
    ReadBack(v, []);
    assert Canonical(v).value + [] == Canonical(v).value;
  }

  /** No empty slot, but for arrays that hold nothing else than one. */
  predicate SlotFree(v: Js) {
    match v
    case Arr(items) => items == [Slot] || forall x :: x in items ==> !x.Slot? && SlotFree(x)
    case Obj(_, entries) => forall e :: e in entries ==> SlotFree(e.value)
    case _ => true
  }

  /** The text is JSON exactly for values without slots, apart from lone ones, which print as nothing. */
  lemma {:induction false} TextIsJsonIff(v: Js)
    requires Valid(v)
    ensures Solid(Meaning(v)) <==> SlotFree(v)
  {
    match v {
      case Arr(items) =>
        if items != [Slot] {
          SolidItems(items);
        }
      case Obj(_, entries) =>
        SolidFields(entries);
        assert Meaning(v) == DObj(Fields(entries));
      case _ =>
    }
  }

  lemma {:induction false} SolidItems(items: seq<Js>)
    requires forall x :: x in items ==> ValidItem(x)
    ensures (forall d :: d in MeaningOfItems(items) ==> Solid(d)) <==> forall x :: x in items ==> !x.Slot? && SlotFree(x)
  {
    if items != [] {
      SolidItems(items[1..]);
      assert items[0] in items && ValidItem(items[0]);
      if !items[0].Slot? {
        TextIsJsonIff(items[0]);
      }
      assert Solid(Meaning(items[0])) <==> !items[0].Slot? && SlotFree(items[0]);
      assert Meaning(items[0]) in MeaningOfItems(items);
      assert forall x :: x in items <==> x == items[0] || x in items[1..];
      assert forall d :: d in MeaningOfItems(items) <==> d == Meaning(items[0]) || d in MeaningOfItems(items[1..]);
    }
  }

  lemma {:induction false} SolidFields(entries: seq<Entry>)
    requires DistinctKeys(entries) && forall e :: e in entries ==> Valid(e.value)
    ensures Solid(DObj(Fields(entries))) <==> forall e :: e in entries ==> SlotFree(e.value)
  {
    if entries != [] {
      var e, rest := entries[0], entries[1..];
      assert entries == [e] + rest;
      SolidFields(rest);
      TextIsJsonIff(e.value);
      FieldsKeysOnly(rest, e.key);
      assert Fields(entries) == Field(e) + Fields(rest);
      if !e.value.Undefined? {
        assert Fields(entries)[e.key] == Meaning(e.value);
      }
      assert forall k :: k in Fields(rest) ==> k in Fields(entries) && Fields(entries)[k] == Fields(rest)[k];
    }
  }

  lemma {:induction false} FieldsKeysOnly(es: seq<Entry>, key: Text)
    ensures key in Fields(es) ==> HasKey(es, key)
  {
    if es != [] {
      FieldsKeysOnly(es[1..], key);
      FieldKeys(es[0]);
      assert es[0] in es && forall e :: e in es[1..] ==> e in es;
    }
  }

  // ---------------------------------------------------------------- one byte string per meaning

  /** Surrogates stand in the text in pairs only, since the others are escaped. */
  lemma {:induction false} EscapedIsWellFormed(s: Text, n: nat)
    requires n <= |s| && (n < |s| ==> !(IsLow(s[n]) && Paired(s, n)))
    ensures Utf8.WellFormed(Concat(EscapedUnits(s)[n..]))
    decreases |s| - n
  {
    var parts := EscapedUnits(s);
    if n < |s| {
      assert parts[n..][0] == parts[n] && parts[n..][1..] == parts[n + 1..];
      if IsHigh(s[n]) && Paired(s, n) {
        EscapedIsWellFormed(s, n + 2);
        assert parts[n + 1..][0] == parts[n + 1] && parts[n + 1..][1..] == parts[n + 2..];
        assert Concat(parts[n..]) == [s[n]] + ([s[n + 1]] + Concat(parts[n + 2..]));
        assert Concat(parts[n..])[2..] == Concat(parts[n + 2..]);
      } else {
        EscapedIsWellFormed(s, n + 1);
        EscapedIsPlain(s[n], Paired(s, n));
        Utf8.PlainIsWellFormed(parts[n]);
        Utf8.WellFormedConcat(parts[n], Concat(parts[n + 1..]));
      }
    }
  }

  lemma EscapedIsPlain(u: CodeUnit, paired: bool)
    requires paired ==> !IsHigh(u) && !IsLow(u)
    ensures Utf8.Plain(EscapedUnit(u, paired))
  {
    var e := EscapedUnit(u, paired);
    forall i | 0 <= i < |e| ensures !IsHigh(e[i]) && !IsLow(e[i]) {
      assert e == HexEscape(u) && i >= 2 ==> e[i] == HexDigit(Nibble(u, i - 2));
    }
  }

  lemma StringifiedIsWellFormed(s: Text)
    ensures Utf8.WellFormed(Stringify(s))
  {
    EscapedIsWellFormed(s, 0);
    assert EscapedUnits(s)[0..] == EscapedUnits(s);
    Enclosed(QUOTE, Concat(EscapedUnits(s)), QUOTE);
  }

  lemma Enclosed(open: CodeUnit, t: Text, close: CodeUnit)
    requires Utf8.WellFormed(t) && Utf8.Plain([open, close])
    ensures Utf8.WellFormed([open] + t + [close])
  {
    assert open in [open, close] && close in [open, close];
    Utf8.PlainIsWellFormed([open]);
    Utf8.PlainIsWellFormed([close]);
    Utf8.WellFormedConcat([open], t);
    Utf8.WellFormedConcat([open] + t, [close]);
  }

  lemma {:induction false} JoinedIsWellFormed(texts: seq<Text>)
    requires forall t :: t in texts ==> Utf8.WellFormed(t)
    ensures Utf8.WellFormed(JoinWith(texts, COMMA))
  {
    if |texts| > 0 {
      assert texts[0] in texts;
      if |texts| > 1 {
        JoinedIsWellFormed(texts[1..]);
        Utf8.PlainIsWellFormed([COMMA]);
        Utf8.WellFormedConcat(texts[0], [COMMA]);
        Utf8.WellFormedConcat(texts[0] + [COMMA], JoinWith(texts[1..], COMMA));
      }
    }
  }

  /** Whatever strings the value holds, its text has no unpaired surrogate. */
  lemma {:induction false} CanonicalIsWellFormed(v: Js)
    requires Canonical(v).Ok?
    ensures Utf8.WellFormed(Canonical(v).value)
    decreases Size(v), 0
  {
    match v {
      case Number(t) =>
        forall u | u in t ensures !IsHigh(u) && !IsLow(u) {
          assert IsNumberUnit(u);
        }
        Utf8.PlainIsWellFormed(t);
      case Str(s) => StringifiedIsWellFormed(s);
      case Arr(items) =>
        ItemsAreWellFormed(items);
        JoinedIsWellFormed(CanonicalItems(items).value);
        Enclosed(LBRACKET, JoinWith(CanonicalItems(items).value, COMMA), RBRACKET);
      case Obj(_, entries) =>
        var printed := SortByKey(Defined(entries));
        MembersAreWellFormed(printed);
        JoinedIsWellFormed(CanonicalMembers(printed).value);
        Enclosed(LBRACE, JoinWith(CanonicalMembers(printed).value, COMMA), RBRACE);
      case Bool(b) => Utf8.PlainIsWellFormed(if b then TRUE else FALSE);
      case _ => Utf8.PlainIsWellFormed(NULL);
    }
  }

  lemma {:induction false} ItemsAreWellFormed(items: seq<Js>)
    requires CanonicalItems(items).Ok?
    ensures forall t :: t in CanonicalItems(items).value ==> Utf8.WellFormed(t)
    decreases SizeOfItems(items), 1
  {
    if items != [] {
      CanonicalIsWellFormed(items[0]);
      ItemsAreWellFormed(items[1..]);
    }
  }

  lemma {:induction false} MembersAreWellFormed(entries: seq<Entry>)
    requires CanonicalMembers(entries).Ok?
    ensures forall t :: t in CanonicalMembers(entries).value ==> Utf8.WellFormed(t)
    decreases SizeOfEntries(entries), 1
  {
    if entries != [] {
      var e := entries[0];
      CanonicalIsWellFormed(e.value);
      MembersAreWellFormed(entries[1..]);
      StringifiedIsWellFormed(e.key);
      Utf8.PlainIsWellFormed([COLON]);
      Utf8.WellFormedConcat(Stringify(e.key), [COLON]);
      Utf8.WellFormedConcat(Stringify(e.key) + [COLON], Canonical(e.value).value);
    }
  }

  /** The bytes that are hashed are as telling as the text. */
  lemma CanonicalBytesAreText(a: Js, b: Js)
    requires Canonical(a).Ok? && Canonical(b).Ok?
    ensures Utf8.Encode(Canonical(a).value) == Utf8.Encode(Canonical(b).value) <==> Canonical(a) == Canonical(b)
  {
    CanonicalIsWellFormed(a);
    CanonicalIsWellFormed(b);
    Utf8.SameBytesSameText(Canonical(a).value, Canonical(b).value);
  }

  /** So two values are hashed alike if and only if they mean the same. */
  lemma CanonicalBytesAreMeaning(a: Js, b: Js)
    requires Valid(a) && Valid(b) && Printable(a) && Printable(b)
    ensures Canonical(a).Ok? && Canonical(b).Ok?
    ensures Utf8.Encode(Canonical(a).value) == Utf8.Encode(Canonical(b).value) <==> Meaning(a) == Meaning(b)
  {
    CanonicalTextIsMeaning(a, b);
    PrintableIffOk(b);
    CanonicalBytesAreText(a, b);
  }

  // ---------------------------------------------------------------- browser fingerprints

  const OPERATION: Text := Ascii("operation")
  const INPUT: Text := Ascii("input")
  const VERSION: Text := Ascii("browser-v2")

  /** What `createBrowserOperationFingerprint` hashes. */
  function FingerprintText(operation: Text, input: Js): Result<Text> {
    Canonical(Pair(OPERATION, Str(operation), INPUT, input))
  }

  /** What `createBrowserIdempotencyKey` hashes. */
  function IdempotencyKeyText(invocationId: Text, fingerprint: Text): Text {
    VERSION + [0] + invocationId + [0] + fingerprint
  }

  function Pair(k: Text, v: Js, l: Text, w: Js): Js {
    Obj(true, [Entry(k, v), Entry(l, w)])
  }

  /** Fingerprints tell apart operations, inputs, and an absent input from a null one. */
  lemma FingerprintSeparates(op1: Text, in1: Js, op2: Text, in2: Js)
    requires Valid(in1) && Valid(in2) && Printable(in1) && Printable(in2)
    ensures FingerprintText(op1, in1).Ok? && FingerprintText(op2, in2).Ok?
    ensures FingerprintText(op1, in1) == FingerprintText(op2, in2) <==>
            op1 == op2 && Meaning(in1) == Meaning(in2) && in1.Undefined? == in2.Undefined?
    ensures Utf8.Encode(FingerprintText(op1, in1).value) == Utf8.Encode(FingerprintText(op2, in2).value) <==>
            op1 == op2 && Meaning(in1) == Meaning(in2) && in1.Undefined? == in2.Undefined?
  {
    assert |OPERATION| != |INPUT|;
    var a, b := Pair(OPERATION, Str(op1), INPUT, in1), Pair(OPERATION, Str(op2), INPUT, in2);
    PairMeaning(OPERATION, Str(op1), INPUT, in1);
    PairMeaning(OPERATION, Str(op2), INPUT, in2);
    PairMeaningSeparates(OPERATION, Str(op1), Str(op2), INPUT, in1, in2);
    SameBytesIffSame(a, b, op1 == op2 && Meaning(in1) == Meaning(in2) && in1.Undefined? == in2.Undefined?);
  }

  /** The fingerprint text is an object with the operation and, if there is one, the input. */
  lemma FingerprintReads(operation: Text, input: Js)
    requires Valid(input) && Printable(input)
    ensures FingerprintText(operation, input).Ok?
    ensures Parse(FingerprintText(operation, input).value) ==
            Some(DObj(map[Ascii("operation") := DStr(operation)] +
                      if input.Undefined? then map[] else map[Ascii("input") := Meaning(input)]))
  {
    assert |OPERATION| != |INPUT|;
    PairMeaning(OPERATION, Str(operation), INPUT, input);
    PrintableIffOk(Pair(OPERATION, Str(operation), INPUT, input));
    ParsesBack(Pair(OPERATION, Str(operation), INPUT, input));
  }

  lemma SameBytesIffSame(a: Js, b: Js, same: bool)
    requires Valid(a) && Valid(b) && Printable(a) && Printable(b)
    requires same <==> Meaning(a) == Meaning(b)
    ensures Canonical(a).Ok? && Canonical(b).Ok?
    ensures same <==> Canonical(a) == Canonical(b)
    ensures same <==> Utf8.Encode(Canonical(a).value) == Utf8.Encode(Canonical(b).value)
  {
    CanonicalBytesAreMeaning(a, b);
    CanonicalTextIsMeaning(a, b);
  }

  lemma PairMeaningSeparates(k: Text, v1: Js, v2: Js, l: Text, w1: Js, w2: Js)
    requires k != l && !v1.Undefined? && !v2.Undefined?
    requires Valid(v1) && Valid(v2) && Valid(w1) && Valid(w2)
    requires Printable(v1) && Printable(v2) && Printable(w1) && Printable(w2)
    ensures Meaning(Pair(k, v1, l, w1)) == Meaning(Pair(k, v2, l, w2)) <==>
            Meaning(v1) == Meaning(v2) && Meaning(w1) == Meaning(w2) && w1.Undefined? == w2.Undefined?
  {
    PairMeaning(k, v1, l, w1);
    PairMeaning(k, v2, l, w2);
    SamePair(k, Meaning(v1), Meaning(v2), l, Field(Entry(l, w1)), Field(Entry(l, w2)));
    SameField(l, w1, w2);
  }

  lemma SameField(l: Text, w1: Js, w2: Js)
    ensures Field(Entry(l, w1)) == Field(Entry(l, w2)) <==>
            w1.Undefined? == w2.Undefined? && Meaning(w1) == Meaning(w2)
  {
    var m, n := Field(Entry(l, w1)), Field(Entry(l, w2));
    assert !w1.Undefined? ==> l in m && m[l] == Meaning(w1);
    assert !w2.Undefined? ==> l in n && n[l] == Meaning(w2);
  }

  lemma PairMeaning(k: Text, v: Js, l: Text, w: Js)
    requires k != l && !v.Undefined? && Valid(v) && Printable(v) && Valid(w) && Printable(w)
    ensures Valid(Pair(k, v, l, w)) && Printable(Pair(k, v, l, w))
    ensures Meaning(Pair(k, v, l, w)) == DObj(map[k := Meaning(v)] + Field(Entry(l, w)))
  {
    var es := [Entry(k, v), Entry(l, w)];
    assert es[1..] == [es[1]] && es[1..][1..] == [];
    assert DistinctKeys(es[1..]);
    assert Fields(es[1..]) == Field(es[1]) + Fields([]) == Field(es[1]);
    assert Fields(es) == Field(es[0]) + Fields(es[1..]);
  }

  lemma SamePair(k: Text, v: Data, w: Data, l: Text, m: map<Text, Data>, n: map<Text, Data>)
    requires k != l && m.Keys <= {l} && n.Keys <= {l}
    ensures map[k := v] + m == map[k := w] + n <==> v == w && m == n
  {
    if map[k := v] + m == map[k := w] + n {
      assert (map[k := v] + m)[k] == v && (map[k := w] + n)[k] == w;
      assert m == (map[k := v] + m) - {k} && n == (map[k := w] + n) - {k};
    }
  }

  /**
   With fingerprints of one length, two keys are made from the same bytes exactly when invocations
   and fingerprints are the same once unpaired surrogates are replaced by U+FFFD.
   */
  lemma IdempotencyKeySeparates(inv1: Text, fp1: Text, inv2: Text, fp2: Text)
    requires |fp1| == |fp2|
    ensures Utf8.Encode(IdempotencyKeyText(inv1, fp1)) == Utf8.Encode(IdempotencyKeyText(inv2, fp2)) <==>
            Utf8.Repaired(inv1) == Utf8.Repaired(inv2) && Utf8.Repaired(fp1) == Utf8.Repaired(fp2)
  {
    Utf8.SameBytesExactly(IdempotencyKeyText(inv1, fp1), IdempotencyKeyText(inv2, fp2));
    RepairedKeyText(inv1, fp1);
    RepairedKeyText(inv2, fp2);
    IdempotencyTextSeparates(Utf8.Repaired(inv1), Utf8.Repaired(fp1), Utf8.Repaired(inv2), Utf8.Repaired(fp2));
  }

  /** The key text is the version, the invocation and the fingerprint, separated by zeros. */
  lemma KeyTextParts(inv: Text, fp: Text)
    ensures SplitOn(IdempotencyKeyText(inv, fp), 0) == [Ascii("browser-v2")] + SplitOn(inv, 0) + SplitOn(fp, 0)
  {
    SplitAcross(VERSION + [0] + inv, 0, fp);
    SplitAcross(VERSION, 0, inv);
    VersionIsPlain();
    SplitWithoutSeparator(VERSION, 0);
  }

  lemma RepairedKeyText(inv: Text, fp: Text)
    ensures Utf8.Repaired(IdempotencyKeyText(inv, fp)) == IdempotencyKeyText(Utf8.Repaired(inv), Utf8.Repaired(fp))
  {
    VersionIsPlain();
    RepairedParts(VERSION, inv, fp);
  }

  lemma VersionIsPlain()
    ensures Utf8.Plain(VERSION) && 0 !in VERSION
  {
    forall i | 0 <= i < |VERSION| ensures 0 < VERSION[i] < 0x80 {
      assert VERSION[i] == "browser-v2"[i] as int;
    }
  }

  lemma RepairedParts(version: Text, inv: Text, fp: Text)
    requires Utf8.Plain(version)
    ensures Utf8.Repaired(version + [0] + inv + [0] + fp) == version + [0] + Utf8.Repaired(inv) + [0] + Utf8.Repaired(fp)
  {
    Utf8.PlainIsWellFormed(version);
    Utf8.RepairIsIdentity(version);
    Utf8.RepairedAcross(version + [0] + inv, 0, fp);
    Utf8.RepairedAcross(version, 0, inv);
  }

  /** With fingerprints of one length, the key text determines invocation and fingerprint. */
  lemma IdempotencyTextSeparates(inv1: Text, fp1: Text, inv2: Text, fp2: Text)
    requires |fp1| == |fp2|
    ensures IdempotencyKeyText(inv1, fp1) == IdempotencyKeyText(inv2, fp2) <==> inv1 == inv2 && fp1 == fp2
  {
    var n := |VERSION| + 1;
    var t1, t2 := IdempotencyKeyText(inv1, fp1), IdempotencyKeyText(inv2, fp2);
    if t1 == t2 {
      assert fp1 == t1[|t1| - |fp1|..] == t2[|t2| - |fp2|..] == fp2;
      assert inv1 == t1[n..|t1| - |fp1| - 1] == t2[n..|t2| - |fp2| - 1] == inv2;
    }
  }
}
