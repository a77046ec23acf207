/** JSON trees, and the grammar of RFC 8259 as concrete syntax trees. Nothing here is taken from the
    parser: a text belongs to the language when it is the text of some well-formed syntax tree. */
module Json {
  import opened Bytes
  import Utf8
  import Utf16

  /** The value of a JsonNode. Arrays and objects share `children`; a child carries a key exactly
      inside an object. A number is the text that `%.16g` renders it as. */
  datatype Tree =
    | Null
    | Bool(b: bool)
    | String(s: bytes)
    | Number(text: bytes)
    | Container(isObject: bool, children: seq<Child>)

  datatype Child = Child(key: Option<bytes>, value: Tree)

  // ----- Characters -----

  const QUOTE: byte := 0x22
  const BACKSLASH: byte := 0x5C
  const COMMA: byte := 0x2C
  const COLON: byte := 0x3A

  const NULL_TEXT: bytes := [0x6E, 0x75, 0x6C, 0x6C]
  const TRUE_TEXT: bytes := [0x74, 0x72, 0x75, 0x65]
  const FALSE_TEXT: bytes := [0x66, 0x61, 0x6C, 0x73, 0x65]

  function Open(isObject: bool): byte {
    if isObject then 0x7B else 0x5B
  }

  function Close(isObject: bool): byte {
    if isObject then 0x7D else 0x5D
  }

  predicate IsSpace(c: byte) {
    c == 0x09 || c == 0x0A || c == 0x0D || c == 0x20
  }

  predicate IsDigit(c: byte) {
    0x30 <= c <= 0x39
  }

  predicate Spaces(s: bytes) {
    forall k | 0 <= k < |s| :: IsSpace(s[k])
  }

  predicate Digits(s: bytes) {
    forall k | 0 <= k < |s| :: IsDigit(s[k])
  }

  // ----- Strings (section 7) -----

  /** One character of a string literal. */
  datatype Char =
    | Plain(code: int)
    | Escape(letter: byte)
    | Unicode(hex: bytes)
    | Pair(high: bytes, low: bytes)

  /** What the two-character escape with this letter stands for. */
  function EscapeMeaning(letter: byte): (c: Option<byte>)
    ensures c.Some? ==> c.value != 0
  {
    if letter == QUOTE || letter == BACKSLASH || letter == 0x2F then Some(letter)
    else if letter == 0x62 then Some(0x08)
    else if letter == 0x66 then Some(0x0C)
    else if letter == 0x6E then Some(0x0A)
    else if letter == 0x72 then Some(0x0D)
    else if letter == 0x74 then Some(0x09)
    else None
  }

  predicate IsHex4(d: bytes) {
    |d| == 4 && Utf16.IsHexNumber(d)
  }

  /** Section 7, without `\u0000` and without unpaired surrogates. */
  predicate CharOk(c: Char) {
    match c
    case Plain(u) => Utf8.IsScalar(u) && u >= 0x20 && u != QUOTE && u != BACKSLASH
    case Escape(letter) => EscapeMeaning(letter).Some?
    case Unicode(hex) => IsHex4(hex) && Utf8.IsScalar(Utf16.HexValue(hex)) && Utf16.HexValue(hex) != 0
    case Pair(high, low) =>
      IsHex4(high) && IsHex4(low) && Utf16.IsHigh(Utf16.HexValue(high)) && Utf16.IsLow(Utf16.HexValue(low))
  }

  function CharText(c: Char): (t: bytes)
    requires CharOk(c)
    ensures |t| > 0
  {
    match c
    case Plain(u) => Utf8.WriteChar(u)
    case Escape(letter) => [BACKSLASH, letter]
    case Unicode(hex) => [BACKSLASH, 0x75] + hex
    case Pair(high, low) => [BACKSLASH, 0x75] + high + [BACKSLASH, 0x75] + low
  }

  /** The bytes a character contributes to the string value. */
  function CharMeaning(c: Char): bytes
    requires CharOk(c)
  {
    match c
    case Plain(u) => Utf8.WriteChar(u)
    case Escape(letter) => [EscapeMeaning(letter).value]
    case Unicode(hex) => Utf8.WriteChar(Utf16.HexValue(hex))
    case Pair(high, low) =>
      var h, l := Utf16.HexValue(high), Utf16.HexValue(low);
      Utf8.WriteChar(0x10000 + (h - 0xD800) * 0x400 + (l - 0xDC00))
  }

  predicate CharsOk(cs: seq<Char>) {
    forall k | 0 <= k < |cs| :: CharOk(cs[k])
  }

  function CharsText(cs: seq<Char>): bytes
    requires CharsOk(cs)
  {
    if cs == [] then [] else CharText(cs[0]) + CharsText(cs[1..])
  }

  function CharsMeaning(cs: seq<Char>): bytes
    requires CharsOk(cs)
  {
    if cs == [] then [] else CharMeaning(cs[0]) + CharsMeaning(cs[1..])
  }

  function StringText(cs: seq<Char>): bytes
    requires CharsOk(cs)
  {
    [QUOTE] + CharsText(cs) + [QUOTE]
  }

  // ----- Numbers (section 6) -----

  datatype Num = Num(minus: bool, whole: bytes, frac: Option<bytes>, exp: Option<Exponent>)
  datatype Exponent = Exponent(e: byte, sign: bytes, digits: bytes)

  predicate NumOk(n: Num) {
    && Digits(n.whole) && n.whole != [] && (n.whole[0] == 0x30 ==> |n.whole| == 1)
    && (n.frac.Some? ==> Digits(n.frac.value) && n.frac.value != [])
    && (n.exp.Some? ==> ExponentOk(n.exp.value))
  }

  predicate ExponentOk(x: Exponent) {
    && (x.e == 0x45 || x.e == 0x65) && (x.sign == [] || x.sign == [0x2B] || x.sign == [0x2D])
    && Digits(x.digits) && x.digits != []
  }

  function FracText(frac: Option<bytes>): bytes {
    if frac.Some? then [0x2E] + frac.value else []
  }

  function ExponentText(exp: Option<Exponent>): bytes {
    if exp.Some? then [exp.value.e] + exp.value.sign + exp.value.digits else []
  }

  function NumText(n: Num): bytes {
    (if n.minus then [0x2D] else []) + MagnitudeText(n)
  }

  function MagnitudeText(n: Num): bytes {
    n.whole + FracText(n.frac) + ExponentText(n.exp)
  }

  // ----- Values (sections 3 to 5) -----

  /** The insignificant white space around an element belongs to its Item; `pad` is the white space of
      an empty array or object. */
  datatype Syntax =
    | SNull
    | STrue
    | SFalse
    | SString(chars: seq<Char>)
    | SNumber(num: Num)
    | SContainer(isObject: bool, pad: bytes, items: seq<Item>)

  datatype Item = Item(pre: bytes, key: Option<Key>, value: Syntax, post: bytes)

  /** A member name with the white space on both sides of its colon. */
  datatype Key = Key(chars: seq<Char>, before: bytes, after: bytes)

  predicate SyntaxOk(t: Syntax)
    decreases t, 1
  {
    match t
    case SString(chars) => CharsOk(chars)
    case SNumber(num) => NumOk(num)
    case SContainer(isObject, pad, items) => Spaces(pad) && ItemsOk(items, isObject)
    case _ => true
  }

  predicate ItemsOk(items: seq<Item>, isObject: bool)
    decreases items, 0
  {
    items == [] || (ItemOk(items[0], isObject) && ItemsOk(items[1..], isObject))
  }

  predicate ItemOk(x: Item, isObject: bool)
    decreases x, 2
  {
    && Spaces(x.pre) && Spaces(x.post) && SyntaxOk(x.value)
    && x.key.Some? == isObject
    && (isObject ==> CharsOk(x.key.value.chars) && Spaces(x.key.value.before) && Spaces(x.key.value.after))
  }

  function SyntaxText(t: Syntax): bytes
    requires SyntaxOk(t)
    decreases t, 1
  {
    match t
    case SNull => NULL_TEXT
    case STrue => TRUE_TEXT
    case SFalse => FALSE_TEXT
    case SString(chars) => StringText(chars)
    case SNumber(num) => NumText(num)
    case SContainer(isObject, pad, items) =>
      [Open(isObject)] + (if items == [] then pad + [Close(isObject)] else ItemsText(items, isObject))
  }

  /** The items separated by commas, then the closing bracket. */
  function ItemsText(items: seq<Item>, isObject: bool): bytes
    requires items != [] && ItemsOk(items, isObject)
    decreases items, 0
  {
    ItemText(items[0], isObject) +
    (if |items| == 1 then [Close(isObject)] else [COMMA] + ItemsText(items[1..], isObject))
  }

  function ItemText(x: Item, isObject: bool): bytes
    requires ItemOk(x, isObject)
    decreases x, 2
  {
    x.pre + KeyText(x.key) + SyntaxText(x.value) + x.post
  }

  function KeyText(key: Option<Key>): bytes
    requires key.Some? ==> CharsOk(key.value.chars)
  {
    if key.Some? then StringText(key.value.chars) + key.value.before + [COLON] + key.value.after else []
  }

  /** The tree that a syntax tree denotes. */
  function Meaning(t: Syntax): Tree
    requires SyntaxOk(t)
    decreases t, 1
  {
    match t
    case SNull => Null
    case STrue => Bool(true)
    case SFalse => Bool(false)
    case SString(chars) => String(CharsMeaning(chars))
    case SNumber(num) => Number(NumText(num))
    case SContainer(isObject, pad, items) => Container(isObject, ItemsMeaning(items, isObject))
  }

  function ItemsMeaning(items: seq<Item>, isObject: bool): seq<Child>
    requires ItemsOk(items, isObject)
    decreases items, 0
  {
    if items == [] then [] else [ItemMeaning(items[0], isObject)] + ItemsMeaning(items[1..], isObject)
  }

  function ItemMeaning(x: Item, isObject: bool): Child
    requires ItemOk(x, isObject)
    decreases x, 2
  {
    Child(if isObject then Some(CharsMeaning(x.key.value.chars)) else None, Meaning(x.value))
  }

  /** Section 2: a JSON text is a value with white space around it. */
  datatype Document = Document(pre: bytes, value: Syntax, post: bytes)

  predicate DocumentOk(d: Document) {
    Spaces(d.pre) && Spaces(d.post) && SyntaxOk(d.value)
  }

  function DocumentText(d: Document): bytes
    requires DocumentOk(d)
  {
    d.pre + SyntaxText(d.value) + d.post
  }

  /** `s` is a JSON text for the tree `v`. */
  ghost predicate Denotes(s: bytes, v: Tree) {
    exists d: Document :: DocumentOk(d) && DocumentText(d) == s && Meaning(d.value) == v
  }
}
