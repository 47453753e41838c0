// The canonical serialization of JSON values (`stableJson`): two values serialize alike exactly when they are equal up
// to the order of object keys.
module StableJson {
  import opened Sorting
  import opened Alignment
  import opened Texts

  const QUOTE: Utf16 := 0x22
  const BACKSLASH: Utf16 := 0x5C
  const COMMA: Utf16 := 0x2C
  const COLON: Utf16 := 0x3A
  const LEFT_BRACKET: Utf16 := 0x5B
  const RIGHT_BRACKET: Utf16 := 0x5D
  const LEFT_BRACE: Utf16 := 0x7B
  const RIGHT_BRACE: Utf16 := 0x7D
  const NULL: Text := [0x6E, 0x75, 0x6C, 0x6C]
  const TRUE: Text := [0x74, 0x72, 0x75, 0x65]
  const FALSE: Text := [0x66, 0x61, 0x6C, 0x73, 0x65]

  // A number is given by its shortest decimal text, as `JSON.stringify` prints it.
  datatype Json = Null | Bool(b: bool) | Number(text: Text) | String(s: Text) | Array(items: Items) | Object(fields: Fields)
  datatype Items = NoItems | Item(head: Json, tail: Items)
  datatype Fields = NoFields | Field(key: Text, value: Json, rest: Fields)

  // The characters of a number: digits, sign, point and exponent.
  predicate Numeral(u: Utf16) {
    0x30 <= u <= 0x39 || u == 0x2B || u == 0x2D || u == 0x2E || u == 0x45 || u == 0x65
  }

  predicate NumberText(t: Text) {
    t != [] && (0x30 <= t[0] <= 0x39 || t[0] == 0x2D) && forall k :: 0 <= k < |t| ==> Numeral(t[k])
  }

  predicate HasKey(f: Fields, key: Text) {
    f.Field? && (f.key == key || HasKey(f.rest, key))
  }

  // Numbers are printed numbers, and the keys of an object are distinct.
  predicate Valid(v: Json) {
    match v
    case Number(t) => NumberText(t)
    case Array(items) => ValidItems(items)
    case Object(fields) => ValidFields(fields)
    case _ => true
  }

  predicate ValidItems(items: Items) {
    items.Item? ==> Valid(items.head) && ValidItems(items.tail)
  }

  predicate ValidFields(f: Fields) {
    f.Field? ==> Valid(f.value) && !HasKey(f.rest, f.key) && ValidFields(f.rest)
  }

  // ---- Meaning: objects as maps ----

  datatype Meaning =
    | MNull | MBool(b: bool) | MNumber(text: Text) | MString(s: Text) | MArray(items: seq<Meaning>)
    | MObject(fields: map<Text, Meaning>)

  function MeaningOf(v: Json): Meaning {
    match v
    case Null => MNull
    case Bool(b) => MBool(b)
    case Number(t) => MNumber(t)
    case String(s) => MString(s)
    case Array(items) => MArray(MeaningsOf(items))
    case Object(fields) => MObject(FieldsOf(fields))
  }

  function MeaningsOf(items: Items): seq<Meaning> {
    if items.NoItems? then [] else [MeaningOf(items.head)] + MeaningsOf(items.tail)
  }

  function FieldsOf(f: Fields): map<Text, Meaning> {
    if f.NoFields? then map[] else FieldsOf(f.rest)[f.key := MeaningOf(f.value)]
  }

  // ---- Serialization ----

  function HexDigit(n: nat): Utf16
    requires n < 16
  {
    if n < 10 then 0x30 + n else 0x61 + (n - 10)
  }

  function UnicodeEscape(u: Utf16): Text {
    [BACKSLASH, 0x75, HexDigit(u / 16 / 16 / 16), HexDigit(u / 16 / 16 % 16), HexDigit(u / 16 % 16), HexDigit(u % 16)]
  }

  lemma HexDigitExactly(n: nat)
    requires n < 16
    ensures HexDigit(n) == "0123456789abcdef"[n] as int
  {
  }

  // The letter of a two-character escape, or 0.
  function ShortEscape(u: Utf16): Utf16 {
    if u == QUOTE then QUOTE else if u == BACKSLASH then BACKSLASH
    else if u == 0x8 then 0x62 else if u == 0x9 then 0x74 else if u == 0xA then 0x6E
    else if u == 0xC then 0x66 else if u == 0xD then 0x72 else 0
  }

  // `JSON.stringify` of the code point at `i`, inside a string.
  function Escape(s: Text, i: nat): Text
    requires i < |s|
  {
    if Width(s, i) == 2 then s[i..i + 2]
    else if ShortEscape(s[i]) != 0 then [BACKSLASH, ShortEscape(s[i])]
    else if s[i] < 0x20 || High(s[i]) || Low(s[i]) then UnicodeEscape(s[i])
    else [s[i]]
  }

  function EscapeFrom(s: Text, i: nat): Text
    requires i <= |s|
    decreases |s| - i
  {
    if i == |s| then [] else Escape(s, i) + EscapeFrom(s, i + Width(s, i))
  }

  function Quoted(s: Text): Text {
    [QUOTE] + EscapeFrom(s, 0) + [QUOTE]
  }

  function JoinComma(parts: seq<Text>): Text {
    if parts == [] then []
    else if |parts| == 1 then parts[0]
    else parts[0] + [COMMA] + JoinComma(parts[1..])
  }

  // `localeCompare(left, right) < 0` on keys.
  type Order = (Text, Text) -> bool

  function ByKey(before: Order): ((Text, Text), (Text, Text)) -> bool {
    (x: (Text, Text), y: (Text, Text)) => before(x.0, y.0)
  }

  function Entry(e: (Text, Text)): Text {
    Quoted(e.0) + [COLON] + e.1
  }

  function EntryTexts(entries: seq<(Text, Text)>): seq<Text> {
    seq(|entries|, k requires 0 <= k < |entries| => Entry(entries[k]))
  }

  // Sorting the entries by key and printing their values commute, since the order looks at keys only.
  function Stable(v: Json, before: Order): Text {
    match v
    case Null => NULL
    case Bool(b) => if b then TRUE else FALSE
    case Number(t) => t
    case String(s) => Quoted(s)
    case Array(items) => [LEFT_BRACKET] + JoinComma(StableItems(items, before)) + [RIGHT_BRACKET]
    case Object(fields) =>
      [LEFT_BRACE] + JoinComma(EntryTexts(Sort(StableFields(fields, before), ByKey(before)))) + [RIGHT_BRACE]
  }

  function StableItems(items: Items, before: Order): seq<Text> {
    if items.NoItems? then [] else [Stable(items.head, before)] + StableItems(items.tail, before)
  }

  function StableFields(f: Fields, before: Order): seq<(Text, Text)> {
    if f.NoFields? then [] else [(f.key, Stable(f.value, before))] + StableFields(f.rest, before)
  }
}
