/**
 JavaScript values as `canonicalJson` sees them, what they mean, and a reader for compact JSON.
 */
module Json {
  import opened Common
  import opened Texts

  // ---------------------------------------------------------------- values

  predicate IsNumberUnit(u: CodeUnit) {
    0x30 <= u <= 0x39 || u == 0x2B || u == 0x2D || u == 0x2E || u == 0x65 || u == 0x45
  }

  /** A finite number is represented by the text JavaScript prints for it; 0 and -0 print alike. */
  type NumberText = t: Text | t != [] && forall u :: u in t ==> IsNumberUnit(u) witness [0x30]

  /**
   `Obj` is any object that is not an array, given by its own enumerable entries in order;
   `plain` says that its prototype is `Object.prototype` or null. `Opaque` stands for functions,
   symbols and big integers. `Slot` is an empty slot of an array, which `map` skips and keeps.
   */
  datatype Js =
    | Undefined
    | Null
    | Bool(b: bool)
    | Number(text: NumberText)
    | NonFinite
    | Str(s: Text)
    | Arr(items: seq<Js>)
    | Obj(plain: bool, entries: seq<Entry>)
    | Opaque
    | Slot

  datatype Entry = Entry(key: Text, value: Js)

  predicate HasKey(entries: seq<Entry>, key: Text) {
    exists e :: e in entries && e.key == key
  }

  predicate DistinctKeys(entries: seq<Entry>) {
    entries == [] || (!HasKey(entries[1..], entries[0].key) && DistinctKeys(entries[1..]))
  }

  /** Every object at every depth has distinct keys, and only arrays have slots, as in JavaScript. */
  predicate Valid(v: Js) {
    match v
    case Slot => false
    case Arr(items) => forall x :: x in items ==> x.Slot? || Valid(x)
    case Obj(_, entries) => DistinctKeys(entries) && forall e :: e in entries ==> Valid(e.value)
    case _ => true
  }

  function Size(v: Js): (n: nat)
    ensures n >= 1
  {
    match v
    case Arr(items) => 1 + SizeOfItems(items)
    case Obj(_, entries) => 1 + SizeOfEntries(entries)
    case _ => 1
  }

  function SizeOfItems(items: seq<Js>): nat {
    if items == [] then 0 else Size(items[0]) + SizeOfItems(items[1..])
  }

  function SizeOfEntries(entries: seq<Entry>): nat {
    if entries == [] then 0 else Size(entries[0].value) + SizeOfEntries(entries[1..])
  }

  const PROTO: Text := Ascii("__proto__")

  /**
   `record[key] = value` on an object the program built itself, for a key it does not have yet.
   Assigning `__proto__` makes no entry: it sets the prototype when the value is an object, and
   does nothing otherwise.
   */
  function Assign(record: Js, key: Text, value: Js): (r: Js)
    requires record.Obj?
    ensures r.Obj?
  {
    if key == PROTO then Obj(record.plain && !value.Arr? && !value.Obj? && !value.Opaque?, record.entries)
    else Obj(record.plain, record.entries + [Entry(key, value)])
  }

  // ---------------------------------------------------------------- meaning

  predicate ValidItem(v: Js) {
    v.Slot? || Valid(v)
  }

  /**
   JSON data, and arrays with empty slots. Objects are finite maps, so key order and
   undefined-valued keys are gone.
   */
  datatype Data =
    | DSlot
    | DNull
    | DBool(b: bool)
    | DNumber(text: NumberText)
    | DStr(s: Text)
    | DArr(items: seq<Data>)
    | DObj(fields: map<Text, Data>)

  /** The values that have a JSON form at all: no non-finite number and no `Opaque` inside. */
  predicate Printable(v: Js) {
    match v
    case NonFinite => false
    case Opaque => false
    case Arr(items) => forall x :: x in items ==> Printable(x)
    case Obj(_, entries) => forall e :: e in entries ==> Printable(e.value)
    case _ => true
  }

  /** No empty slot at any depth: JSON proper. */
  predicate Solid(d: Data) {
    match d
    case DSlot => false
    case DArr(items) => forall x :: x in items ==> Solid(x)
    case DObj(fields) => forall k :: k in fields ==> Solid(fields[k])
    case _ => true
  }

  /** An array whose only item is an empty slot is taken for the empty array. */
  function Meaning(v: Js): Data {
    match v
    case Slot => DSlot
    case Bool(b) => DBool(b)
    case Number(t) => DNumber(t)
    case Str(s) => DStr(s)
    case Arr(items) => DArr(if items == [Slot] then [] else MeaningOfItems(items))
    case Obj(_, entries) => DObj(Fields(entries))
    case _ => DNull
  }

  function MeaningOfItems(items: seq<Js>): (r: seq<Data>)
    ensures |r| == |items|
  {
    if items == [] then [] else [Meaning(items[0])] + MeaningOfItems(items[1..])
  }

  function Fields(entries: seq<Entry>): map<Text, Data> {
    if entries == [] then map[] else Field(entries[0]) + Fields(entries[1..])
  }

  function Field(e: Entry): map<Text, Data> {
    if e.value.Undefined? then map[] else map[e.key := Meaning(e.value)]
  }

  // ---------------------------------------------------------------- a reader for the compact form
  // It follows RFC 8259, except that it takes no white space, takes any run of number characters
  // for a number, and takes nothing at all between commas for an empty slot.

  const QUOTE: CodeUnit := 0x22
  const COMMA: CodeUnit := 0x2C
  const COLON: CodeUnit := 0x3A
  const LBRACKET: CodeUnit := 0x5B
  const BACKSLASH: CodeUnit := 0x5C
  const RBRACKET: CodeUnit := 0x5D
  const LBRACE: CodeUnit := 0x7B
  const RBRACE: CodeUnit := 0x7D
  const NULL: Text := [0x6E, 0x75, 0x6C, 0x6C]
  const TRUE: Text := [0x74, 0x72, 0x75, 0x65]
  const FALSE: Text := [0x66, 0x61, 0x6C, 0x73, 0x65]

  datatype Read<+T> = Read(value: T, rest: Text)

  function HexValue(u: CodeUnit): Option<nat> {
    if 0x30 <= u <= 0x39 then Some(u - 0x30)
    else if 0x41 <= u <= 0x46 then Some(u - 0x41 + 10)
    else if 0x61 <= u <= 0x66 then Some(u - 0x61 + 10)
    else None
  }

  function ReadHex4(t: Text): (r: Option<CodeUnit>)
    requires |t| == 4
  {
    var a, b, c, d := HexValue(t[0]), HexValue(t[1]), HexValue(t[2]), HexValue(t[3]);
    if a.None? || b.None? || c.None? || d.None? then None
    else
      var u := a.value * 0x1000 + b.value * 0x100 + c.value * 0x10 + d.value;
      if u < 0x1_0000 then Some(u) else None
  }

  /** The two-character escapes of section 7 of RFC 8259. */
  function ShortEscape(u: CodeUnit): Option<CodeUnit> {
    if u == 0x22 || u == 0x5C || u == 0x2F then Some(u)
    else if u == 0x62 then Some(0x08)
    else if u == 0x66 then Some(0x0C)
    else if u == 0x6E then Some(0x0A)
    else if u == 0x72 then Some(0x0D)
    else if u == 0x74 then Some(0x09)
    else None
  }

  /** Reads one possibly escaped character of a string. */
  function ReadUnit(t: Text): (r: Option<Read<CodeUnit>>)
    ensures r.Some? ==> |r.value.rest| < |t|
  {
    if t == [] || t[0] < 0x20 || t[0] == QUOTE then None
    else if t[0] != BACKSLASH then Some(Read(t[0], t[1..]))
    else if |t| >= 6 && t[1] == 0x75 then
      match ReadHex4(t[2..6]) case Some(u) => Some(Read(u, t[6..])) case None => None
    else if |t| >= 2 then
      match ShortEscape(t[1]) case Some(u) => Some(Read(u, t[2..])) case None => None
    else None
  }

  /** Reads characters with `unit` up to and including the closing quote. */
  function ReadChars(unit: Text -> Option<Read<CodeUnit>>, t: Text): (r: Option<Read<Text>>)
    ensures r.Some? ==> |r.value.rest| < |t|
    decreases |t|
  {
    if t != [] && t[0] == QUOTE then Some(Read([], t[1..]))
    else
      match unit(t)
      case None => None
      case Some(Read(u, rest)) =>
        if |rest| >= |t| then None
        else
          match ReadChars(unit, rest)
          case None => None
          case Some(Read(s, rest')) => Some(Read([u] + s, rest'))
  }

  /** Reads string contents up to and including the closing quote. */
  function ReadString(t: Text): (r: Option<Read<Text>>)
    ensures r.Some? ==> |r.value.rest| < |t|
  {
    ReadChars(ReadUnit, t)
  }

  /** Length of the longest prefix made of number characters. */
  function NumberLength(t: Text): (n: nat)
    ensures n <= |t| && forall i :: 0 <= i < n ==> IsNumberUnit(t[i])
  {
    if t != [] && IsNumberUnit(t[0]) then 1 + NumberLength(t[1..]) else 0
  }

  function ReadValue(t: Text): (r: Option<Read<Data>>)
    ensures r.Some? ==> |r.value.rest| < |t|
    decreases |t|, 0
  {
    if t == [] then None
    else if NULL <= t then Some(Read(DNull, t[4..]))
    else if TRUE <= t then Some(Read(DBool(true), t[4..]))
    else if FALSE <= t then Some(Read(DBool(false), t[5..]))
    else if IsNumberUnit(t[0]) then
      var n := NumberLength(t);
      var number: Text := t[..n];
      Some(Read(DNumber(number), t[n..]))
    else if t[0] == QUOTE then
      match ReadString(t[1..])
      case Some(Read(s, rest)) => Some(Read(DStr(s), rest))
      case None => None
    else if t[0] == LBRACKET then
      if |t| > 1 && t[1] == RBRACKET then Some(Read(DArr([]), t[2..]))
      else
        match ReadItems(t[1..])
        case Some(Read(items, rest)) => Some(Read(DArr(items), rest))
        case None => None
    else if t[0] == LBRACE then
      if |t| > 1 && t[1] == RBRACE then Some(Read(DObj(map[]), t[2..]))
      else
        match ReadMembers(t[1..])
        case Some(Read(fields, rest)) => Some(Read(DObj(fields), rest))
        case None => None
    else None
  }

  function ReadItem(t: Text): (r: Option<Read<Data>>)
    ensures r.Some? ==> |r.value.rest| <= |t|
    decreases |t|, 1
  {
    if t != [] && (t[0] == COMMA || t[0] == RBRACKET) then Some(Read(DSlot, t)) else ReadValue(t)
  }

  /** One or more values or slots separated by commas, then the closing bracket. */
  function ReadItems(t: Text): (r: Option<Read<seq<Data>>>)
    ensures r.Some? ==> |r.value.rest| < |t|
    decreases |t|, 2
  {
    match ReadItem(t)
    case None => None
    case Some(Read(v, rest)) =>
      if rest == [] then None
      else if rest[0] == RBRACKET then Some(Read([v], rest[1..]))
      else if rest[0] == COMMA then
        match ReadItems(rest[1..])
        case Some(Read(vs, rest')) => Some(Read([v] + vs, rest'))
        case None => None
      else None
  }

  /** One or more `key:value` members separated by commas, then the closing brace. */
  function ReadMembers(t: Text): (r: Option<Read<map<Text, Data>>>)
    ensures r.Some? ==> |r.value.rest| < |t|
    decreases |t|, 1
  {
    if t == [] || t[0] != QUOTE then None
    else
      match ReadString(t[1..])
      case None => None
      case Some(Read(key, afterKey)) =>
        if afterKey == [] || afterKey[0] != COLON then None
        else
          match ReadValue(afterKey[1..])
          case None => None
          case Some(Read(v, rest)) =>
            if rest == [] then None
            else if rest[0] == RBRACE then Some(Read(map[key := v], rest[1..]))
            else if rest[0] == COMMA then
              match ReadMembers(rest[1..])
              case Some(Read(fields, rest')) => Some(Read(map[key := v] + fields, rest'))
              case None => None
            else None
  }

  /** The whole text is one value. */
  function Parse(t: Text): Option<Data> {
    match ReadValue(t)
    case Some(Read(v, rest)) => if rest == [] then Some(v) else None
    case None => None
  }
}
