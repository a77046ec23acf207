/** Printing and parsing undo each other, on every tree that the printer accepts, except where a
    string holds the byte 0x1F: the printer writes it raw and the parser rejects it. */
module JsonRoundTrip {
  import opened Bytes
  import opened Json
  import opened JsonLanguage
  import opened JsonNodes
  import opened JsonParser
  import opened JsonPrinter
  import Utf8
  import Utf16

  /** U+001F, the one control character that the printer does not escape. */
  const UNIT_SEPARATOR: byte := 0x1F

  /** No string and no key contains the unit separator. */
  predicate Readable(v: Tree)
    decreases v, 1
  {
    match v
    case String(s) => UNIT_SEPARATOR !in s
    case Container(_, children) => ChildrenReadable(children)
    case _ => true
  }

  predicate ChildrenReadable(children: seq<Child>)
    decreases children, 0
  {
    children == [] || (ChildReadable(children[0]) && ChildrenReadable(children[1..]))
  }

  predicate ChildReadable(c: Child)
    decreases c, 2
  {
    Readable(c.value) && (c.key.Some? ==> UNIT_SEPARATOR !in c.key.value)
  }

  /** The tree with every number that is not valid JSON (an infinity or a NaN) replaced by null. */
  function Finite(v: Tree): Tree
    decreases v, 1
  {
    match v
    case Number(text) => if NumberIsValid(text) then v else Null
    case Container(isObject, children) => Container(isObject, ChildrenFinite(children))
    case _ => v
  }

  function ChildrenFinite(children: seq<Child>): (r: seq<Child>)
    ensures |r| == |children|
    decreases children, 0
  {
    if children == [] then [] else [ChildFinite(children[0])] + ChildrenFinite(children[1..])
  }

  function ChildFinite(c: Child): Child
    decreases c, 2
  {
    Child(c.key, Finite(c.value))
  }

  predicate StyleIsSpace(style: Style) {
    style.Indented? ==> Spaces(style.space)
  }

  // ----- What is printed belongs to the grammar -----

  lemma CharPrinted(s: bytes, i: nat) returns (c: Char)
    requires i < |s| && CString(s) && Utf8.ValidFrom(s, i) && s[i] != UNIT_SEPARATOR
    ensures CharOk(c) && CharText(c) == CharOut(s, i) && CharMeaning(c) == s[i..i + CharLength(s, i)]
  {
    Utf8.ValidatedIsWritten(s, i);
    PlainLead(Utf8.ReadChar(s, i));
    var letter := EscapeLetter(s[i]);
    if letter.Some? {
      c := Escape(letter.value);
    } else if s[i] < 0x1F {
      var hex := Utf16.WriteHex16(s[i]);
      Utf16.HexRoundTrip(s[i], hex, 0);
      c := Unicode(hex);
    } else {
      c := Plain(Utf8.ReadChar(s, i));
    }
  }

  lemma {:induction false} CharsPrinted(s: bytes, i: nat) returns (cs: seq<Char>)
    requires i <= |s| && CString(s) && Utf8.ValidFrom(s, i) && UNIT_SEPARATOR !in s[i..]
    ensures CharsOk(cs) && CharsText(cs) == CharsOut(s, i) && CharsMeaning(cs) == s[i..]
    decreases |s| - i
  {
    hide CharOk, CharText, CharMeaning, CharOut;
    if i == |s| {
      cs := [];
    } else {
      var j := i + CharLength(s, i);
      assert s[i..] == s[i..j] + s[j..];
      assert s[i..][0] == s[i];
      var c := CharPrinted(s, i);
      var rest := CharsPrinted(s, j);
      cs := [c] + rest;
      assert cs[1..] == rest;
    }
  }

  lemma StringPrinted(s: bytes) returns (cs: seq<Char>)
    requires TextOk(s) && UNIT_SEPARATOR !in s
    ensures CharsOk(cs) && StringText(cs) == StringOut(s) && CharsMeaning(cs) == s
  {
    assert s[0..] == s;
    cs := CharsPrinted(s, 0);
  }

  lemma {:induction false} IndentIsSpace(space: bytes, n: nat)
    requires Spaces(space)
    ensures Spaces(Indent(space, n))
  {
    if n > 0 {
      IndentIsSpace(space, n - 1);
    }
  }

  lemma LeadIsSpace(style: Style, depth: nat)
    requires StyleIsSpace(style)
    ensures Spaces(Lead(style, depth))
  {
    if style.Indented? {
      IndentIsSpace(style.space, depth);
    }
  }

  lemma {:induction false} ValuePrinted(v: Tree, style: Style, level: nat) returns (t: Syntax)
    requires TreeOk(v) && Readable(v) && StyleIsSpace(style)
    ensures SyntaxOk(t) && SyntaxText(t) == Printed(v, style, level) && Meaning(t) == Finite(v)
    decreases v, 1
  {
    match v
    case Null => t := SNull;
    case Bool(b) => t := if b then STrue else SFalse;
    case String(s) =>
      var cs := StringPrinted(s);
      t := SString(cs);
    case Number(text) =>
      t := NumberPrinted(text);
    case Container(isObject, children) =>
      if children == [] {
        t := SContainer(isObject, [], []);
      } else {
        var items := ChildrenPrintedAs(children, isObject, style, level);
        t := SContainer(isObject, [], items);
      }
  }

  lemma NumberPrinted(text: bytes) returns (t: Syntax)
    ensures SyntaxOk(t) && SyntaxText(t) == NumberOut(text) && Meaning(t) == Finite(Number(text))
  {
    if NumberIsValid(text) {
      var n := NumberSound(text, 0);
      assert text[0..|text|] == text;
      t := SNumber(n);
    } else {
      t := SNull;
    }
  }

  lemma {:induction false} ChildrenPrintedAs(children: seq<Child>, isObject: bool, style: Style, level: nat)
    returns (items: seq<Item>)
    requires children != [] && (forall k | 0 <= k < |children| :: ChildOk(children[k], isObject))
    requires ChildrenReadable(children) && StyleIsSpace(style)
    ensures items != [] && ItemsOk(items, isObject)
    ensures ItemsText(items, isObject) == ChildrenPrinted(children, isObject, style, level)
    ensures ItemsMeaning(items, isObject) == ChildrenFinite(children)
    decreases children, 0
  {
    hide ChildOk, ChildReadable, ChildPrinted, ChildFinite, Lead;
    hide ItemOk, ItemText, ItemMeaning, ItemsOk, ItemsText, ItemsMeaning;
    if |children| == 1 {
      LeadIsSpace(style, level);
      var x := ChildPrintedAs(children[0], isObject, style, level, Lead(style, level));
      items := [x];
      OneItem(x, isObject);
      Associative(ChildPrinted(children[0], isObject, style, level), Lead(style, level), [Close(isObject)]);
      assert children[1..] == [];
    } else {
      var x := ChildPrintedAs(children[0], isObject, style, level, []);
      var rest := ChildrenPrintedAs(children[1..], isObject, style, level);
      items := [x] + rest;
      MoreItems(x, rest, isObject);
      Associative(ItemText(x, isObject), [COMMA], ItemsText(rest, isObject));
    }
  }

  lemma {:induction false} ChildPrintedAs(c: Child, isObject: bool, style: Style, level: nat, post: bytes)
    returns (x: Item)
    requires ChildOk(c, isObject) && ChildReadable(c) && StyleIsSpace(style) && Spaces(post)
    ensures ItemOk(x, isObject) && ItemText(x, isObject) == ChildPrinted(c, isObject, style, level) + post
    ensures ItemMeaning(x, isObject) == ChildFinite(c)
    decreases c, 2
  {
    hide Printed, StringOut, Lead, SyntaxText, SyntaxOk, Meaning, StringText, Finite;
    LeadIsSpace(style, level + 1);
    var t := ValuePrinted(c.value, style, level + 1);
    var key: Option<Key> := None;
    if isObject {
      var cs := StringPrinted(c.key.value);
      key := Some(Key(cs, [], if style.Compact? then [] else [0x20]));
      assert StringText(cs) + [] == StringText(cs);
    }
    x := Item(Lead(style, level + 1), key, t, post);
  }

  // ----- A unit separator is fatal -----

  lemma SeparatorFails(s: bytes, k: nat, t: bytes, i: nat)
    requires k < |s| && CString(s) && Utf8.ValidFrom(s, k) && s[k] == UNIT_SEPARATOR
    requires Occurs(CharOut(s, k), t, i)
    ensures At(t, i) != QUOTE && CharAt(t, i).Fail?
  {
    OccursAt(CharOut(s, k), t, i);
    assert t[i + 0] == UNIT_SEPARATOR;
  }

  lemma {:induction false} CharsFail(s: bytes, k: nat, t: bytes, i: nat)
    requires k < |s| && CString(s) && Utf8.ValidFrom(s, k) && UNIT_SEPARATOR in s[k..]
    requires Occurs(CharsOut(s, k) + [QUOTE], t, i)
    ensures CharsAt(t, i).Fail?
    decreases |s| - k
  {
    hide CharMeaning, CharText, CharOk, CharOut, CharAt, CharLength;
    var j := k + CharLength(s, k);
    var rest := CharsOut(s, j) + [QUOTE];
    Associative(CharOut(s, k), CharsOut(s, j), [QUOTE]);
    OccursSplit(CharOut(s, k), rest, t, i);
    if s[k] == UNIT_SEPARATOR {
      SeparatorFails(s, k, t, i);
    } else {
      var c := CharPrinted(s, k);
      CharComplete(c, t, i);
      SeparatorBehind(s, k, j);
      CharsFail(s, j, t, i + |CharOut(s, k)|);
    }
  }

  lemma SeparatorBehind(s: bytes, k: nat, j: nat)
    requires k < j <= |s| && CString(s) && Utf8.ValidFrom(s, k) && j == k + CharLength(s, k)
    requires UNIT_SEPARATOR in s[k..] && s[k] != UNIT_SEPARATOR
    ensures j < |s| && UNIT_SEPARATOR in s[j..]
  {
    assert s[k..] == s[k..j] + s[j..];
  }

  lemma StringFails(s: bytes, t: bytes, i: nat)
    requires TextOk(s) && UNIT_SEPARATOR in s && Occurs(StringOut(s), t, i)
    ensures StringAt(t, i).Fail? && At(t, i) == QUOTE
  {
    hide CharsOut, CharsAt;
    assert s[0..] == s;
    Associative([QUOTE], CharsOut(s, 0), [QUOTE]);
    FirstOccurs(QUOTE, CharsOut(s, 0) + [QUOTE], t, i);
    CharsFail(s, 0, t, i + 1);
  }

  lemma {:induction false} ValueFails(v: Tree, style: Style, level: nat, s: bytes, i: nat)
    requires TreeOk(v) && !Readable(v) && StyleIsSpace(style) && Occurs(Printed(v, style, level), s, i)
    ensures ValueAt(s, i).Fail? && StartsValue(At(s, i))
    decreases v, 1
  {
    match v
    case String(str) => StringFails(str, s, i);
    case Container(isObject, children) => ContainerFails(isObject, children, style, level, s, i);
  }

  lemma {:induction false} ContainerFails(isObject: bool, children: seq<Child>, style: Style, level: nat,
                                          s: bytes, i: nat)
    requires TreeOk(Container(isObject, children)) && !ChildrenReadable(children) && StyleIsSpace(style)
    requires Occurs(Printed(Container(isObject, children), style, level), s, i)
    ensures At(s, i) == Open(isObject) && ContainerAt(s, i + 1, isObject).Fail?
    decreases children, 1
  {
    hide ChildrenPrinted, ChildOk, ItemsAt, SkipSpace, Occurs;
    FirstOccurs(Open(isObject), ChildrenPrinted(children, isObject, style, level), s, i);
    ItemsFail(children, isObject, style, level, s, i + 1);
  }

  lemma {:induction false} ItemsFail(children: seq<Child>, isObject: bool, style: Style, level: nat, s: bytes, i: nat)
    requires children != [] && (forall k | 0 <= k < |children| :: ChildOk(children[k], isObject))
    requires !ChildrenReadable(children) && StyleIsSpace(style)
    requires Occurs(ChildrenPrinted(children, isObject, style, level), s, i)
    ensures StartsValue(At(s, SkipSpace(s, i)))
    ensures ItemsAt(s, SkipSpace(s, i), isObject).Fail?
    decreases children, 0
  {
    hide ChildOk, ChildReadable, ChildPrinted, ItemAt, SkipSpace, ItemText, ItemOk, ItemMeaning, Lead, Occurs;
    var c, rest := children[0], children[1..];
    var t := ChildPrinted(c, isObject, style, level);
    var tail := if |children| == 1 then Lead(style, level) + [Close(isObject)]
                else [COMMA] + ChildrenPrinted(rest, isObject, style, level);
    OccursSplit(t, tail, s, i);
    if ChildReadable(c) {
      var x := ChildPrintedAs(c, isObject, style, level, []);
      assert ItemText(x, isObject) == t;
      FirstOccurs(COMMA, ChildrenPrinted(rest, isObject, style, level), s, i + |t|);
      ItemComplete(x, isObject, s, i);
      ItemsFail(rest, isObject, style, level, s, i + |t| + 1);
    } else {
      ItemFails(c, isObject, style, level, s, i);
    }
  }

  lemma {:induction false} ItemFails(c: Child, isObject: bool, style: Style, level: nat, s: bytes, i: nat)
    requires ChildOk(c, isObject) && !ChildReadable(c) && StyleIsSpace(style)
    requires Occurs(ChildPrinted(c, isObject, style, level), s, i)
    ensures StartsValue(At(s, SkipSpace(s, i)))
    ensures ItemAt(s, SkipSpace(s, i), isObject).Fail?
    decreases c, 2
  {
    hide Printed, Lead, SkipSpace, ValueAt, KeyOut, KeyAt, Occurs, Readable, Spaces;
    var lead, key, value := Lead(style, level + 1), KeyOut(c.key, style), Printed(c.value, style, level + 1);
    var j := i + |lead|;
    OccursThree(lead, key, value, s, i);
    LeadIsSpace(style, level + 1);
    if !isObject {
      NoKeyOut(style);
      ValueFails(c.value, style, level + 1, s, j);
    } else if UNIT_SEPARATOR in c.key.value {
      KeyFails(c.key.value, style, s, j);
    } else {
      ValueFails(c.value, style, level + 1, s, j + |key|);
      KeyParses(c.key.value, style, s, j);
    }
    SkipSpaceComplete(lead, s, i);
  }

  lemma NoKeyOut(style: Style)
    ensures KeyOut(None, style) == []
  {
  }

  lemma KeyParses(key: bytes, style: Style, s: bytes, i: nat)
    requires TextOk(key) && UNIT_SEPARATOR !in key && Occurs(KeyOut(Some(key), style), s, i)
    requires !IsSpace(At(s, i + |KeyOut(Some(key), style)|))
    ensures KeyAt(s, i) == Done(key, i + |KeyOut(Some(key), style)|) && At(s, i) == QUOTE
  {
    hide KeyOut, KeyAt;
    var y := KeyPrinted(key, style);
    KeyComplete(y, s, i);
  }

  lemma KeyPrinted(key: bytes, style: Style) returns (y: Key)
    requires TextOk(key) && UNIT_SEPARATOR !in key
    ensures CharsOk(y.chars) && Spaces(y.before) && Spaces(y.after) && KeyText(Some(y)) == KeyOut(Some(key), style)
    ensures CharsMeaning(y.chars) == key
  {
    hide StringText, StringOut;
    var cs := StringPrinted(key);
    y := Key(cs, [], if style.Compact? then [] else [0x20]);
    assert StringText(cs) + [] == StringText(cs);
  }

  lemma KeyFails(key: bytes, style: Style, s: bytes, i: nat)
    requires TextOk(key) && UNIT_SEPARATOR in key && Occurs(KeyOut(Some(key), style), s, i)
    ensures KeyAt(s, i).Fail? && At(s, i) == QUOTE
  {
    hide StringOut, StringAt;
    OccursThree(StringOut(key), [COLON], if style.Compact? then [] else [0x20], s, i);
    StringFails(key, s, i);
  }

  // ----- The theorems -----

  /** Every number is valid JSON. */
  predicate NumbersValid(v: Tree)
    decreases v, 1
  {
    match v
    case Number(text) => NumberIsValid(text)
    case Container(_, children) => ChildrenNumbersValid(children)
    case _ => true
  }

  predicate ChildrenNumbersValid(children: seq<Child>)
    decreases children, 0
  {
    children == [] || (ChildNumbersValid(children[0]) && ChildrenNumbersValid(children[1..]))
  }

  predicate ChildNumbersValid(c: Child)
    decreases c, 2
  {
    NumbersValid(c.value)
  }

  lemma {:induction false} FiniteIsIdentity(v: Tree)
    ensures Finite(v) == v <==> NumbersValid(v)
    decreases v, 1
  {
    if v.Container? {
      ChildrenFiniteIsIdentity(v.children);
    }
  }

  lemma {:induction false} ChildrenFiniteIsIdentity(children: seq<Child>)
    ensures ChildrenFinite(children) == children <==> ChildrenNumbersValid(children)
    decreases children, 0
  {
    if children != [] {
      ChildFiniteIsIdentity(children[0]);
      ChildrenFiniteIsIdentity(children[1..]);
      assert children == [children[0]] + children[1..];
      assert ChildrenFinite(children)[0] == ChildFinite(children[0]);
      assert ChildrenFinite(children)[1..] == ChildrenFinite(children[1..]);
    }
  }

  lemma {:induction false} ChildFiniteIsIdentity(c: Child)
    ensures ChildFinite(c) == c <==> ChildNumbersValid(c)
    decreases c, 2
  {
    FiniteIsIdentity(c.value);
  }

  /** Decoding what was printed, compact or indented by white space, gives the tree back, with numbers
      that JSON cannot express replaced by null, unless a string or key contains the unit separator:
      then decoding fails. */
  lemma DecodePrinted(v: Tree, style: Style)
    requires TreeOk(v) && StyleIsSpace(style)
    ensures CString(Printed(v, style, 0))
    ensures Decoded(Printed(v, style, 0)) == if Readable(v) then Some(Finite(v)) else None
  {
    hide *;
    SpaceStyleIsOk(style);
    PrintedIsCString(v, style, 0);
    if Readable(v) {
      PrintedDecodes(v, style);
    } else {
      PrintedFails(v, style);
    }
  }

  lemma SpaceStyleIsOk(style: Style)
    requires StyleIsSpace(style)
    ensures StyleOk(style)
  {
    if style.Indented? {
      assert forall k | 0 <= k < |style.space| :: IsSpace(style.space[k]);
    }
  }

  lemma PrintedDecodes(v: Tree, style: Style)
    requires TreeOk(v) && StyleIsSpace(style) && Readable(v) && CString(Printed(v, style, 0))
    ensures Decoded(Printed(v, style, 0)) == Some(Finite(v))
  {
    hide Printed, Decoded, SyntaxText, SyntaxOk, Meaning, Finite, TreeOk, Readable, CString;
    var t := ValuePrinted(v, style, 0);
    BareDocument(t);
    DecodeComplete(Document([], t, []));
  }

  lemma BareDocument(t: Syntax)
    requires SyntaxOk(t)
    ensures DocumentOk(Document([], t, [])) && DocumentText(Document([], t, [])) == SyntaxText(t)
  {
    hide SyntaxText, SyntaxOk;
  }

  lemma PrintedFails(v: Tree, style: Style)
    requires TreeOk(v) && StyleIsSpace(style) && !Readable(v) && CString(Printed(v, style, 0))
    ensures Decoded(Printed(v, style, 0)) == None
  {
    hide Printed, ValueAt, SkipSpace;
    var s := Printed(v, style, 0);
    assert s[0..|s|] == s;
    ValueFails(v, style, 0, s, 0);
    SkipSpaceComplete([], s, 0);
  }

  /** On texts, the round trip is exact: it returns the very tree, in its order and with its duplicate keys,
      exactly for trees without the unit separator whose numbers are all valid. */
  lemma TextRoundTrip(v: Tree, style: Style)
    requires TreeOk(v) && StyleIsSpace(style)
    ensures CString(Printed(v, style, 0))
    ensures Decoded(Printed(v, style, 0)) == Some(v) <==> Readable(v) && NumbersValid(v)
  {
    DecodePrinted(v, style);
    FiniteIsIdentity(v);
  }

  // ----- Numbers are doubles -----

  // A node holds the double that `strtod` reads from the text of a number, and the printer renders it with
  // `sprintf`. Neither function is known here: everything holds for any two.

  /** What becomes of the text of a number between the parser and the printer. */
  function Render(strtod: bytes -> Double, sprintf: Double -> bytes): bytes -> bytes {
    (text: bytes) => sprintf(strtod(text))
  }

  /** The tree with `render` applied to every number. */
  function Rendered(v: Tree, render: bytes -> bytes): Tree
    decreases v, 1
  {
    match v
    case Number(text) => Number(render(text))
    case Container(isObject, children) => Container(isObject, ChildrenRendered(children, render))
    case _ => v
  }

  function ChildrenRendered(children: seq<Child>, render: bytes -> bytes): (r: seq<Child>)
    ensures |r| == |children| && forall k | 0 <= k < |r| :: r[k] == ChildRendered(children[k], render)
    decreases children, 0
  {
    if children == [] then [] else [ChildRendered(children[0], render)] + ChildrenRendered(children[1..], render)
  }

  function ChildRendered(c: Child, render: bytes -> bytes): Child
    decreases c, 2
  {
    Child(c.key, Rendered(c.value, render))
  }

  /** The two trees differ at most in how they write the same doubles. */
  predicate SameValue(v: Tree, w: Tree, strtod: bytes -> Double)
    decreases v, 1
  {
    match v
    case Number(text) => w.Number? && strtod(w.text) == strtod(text)
    case Container(isObject, children) =>
      w.Container? && w.isObject == isObject && SameChildren(children, w.children, strtod)
    case _ => w == v
  }

  predicate SameChildren(cs: seq<Child>, ds: seq<Child>, strtod: bytes -> Double)
    decreases cs, 0
  {
    if cs == [] then ds == []
    else ds != [] && SameChild(cs[0], ds[0], strtod) && SameChildren(cs[1..], ds[1..], strtod)
  }

  predicate SameChild(c: Child, d: Child, strtod: bytes -> Double)
    decreases c, 2
  {
    d.key == c.key && SameValue(c.value, d.value, strtod)
  }

  /** The double survives being printed and read: it is not an infinity or a NaN, and needs no more digits
      than the printer gives it. */
  predicate Survives(d: Double, strtod: bytes -> Double, sprintf: Double -> bytes) {
    NumberIsValid(sprintf(d)) && strtod(sprintf(d)) == d
  }

  predicate NumbersSurvive(v: Tree, strtod: bytes -> Double, sprintf: Double -> bytes)
    decreases v, 1
  {
    match v
    case Number(text) => Survives(strtod(text), strtod, sprintf)
    case Container(_, children) => ChildrenSurvive(children, strtod, sprintf)
    case _ => true
  }

  predicate ChildrenSurvive(children: seq<Child>, strtod: bytes -> Double, sprintf: Double -> bytes)
    decreases children, 0
  {
    children == [] || (ChildSurvives(children[0], strtod, sprintf) && ChildrenSurvive(children[1..], strtod, sprintf))
  }

  predicate ChildSurvives(c: Child, strtod: bytes -> Double, sprintf: Double -> bytes)
    decreases c, 2
  {
    NumbersSurvive(c.value, strtod, sprintf)
  }

  lemma {:induction false} RenderedIsReadable(v: Tree, render: bytes -> bytes)
    ensures Readable(Rendered(v, render)) == Readable(v)
    decreases v, 1
  {
    if v.Container? {
      ChildrenRenderedAreReadable(v.children, render);
    }
  }

  lemma {:induction false} ChildrenRenderedAreReadable(children: seq<Child>, render: bytes -> bytes)
    ensures ChildrenReadable(ChildrenRendered(children, render)) == ChildrenReadable(children)
    decreases children, 0
  {
    if children != [] {
      ChildRenderedIsReadable(children[0], render);
      ChildrenRenderedAreReadable(children[1..], render);
      assert ChildrenRendered(children, render)[1..] == ChildrenRendered(children[1..], render);
    }
  }

  lemma {:induction false} ChildRenderedIsReadable(c: Child, render: bytes -> bytes)
    ensures ChildReadable(ChildRendered(c, render)) == ChildReadable(c)
    decreases c, 2
  {
    RenderedIsReadable(c.value, render);
  }

  /** Printing and reading the doubles of a tree gives them back exactly when all of them survive. */
  lemma {:induction false} FiniteIsSame(v: Tree, strtod: bytes -> Double, sprintf: Double -> bytes)
    ensures SameValue(v, Finite(Rendered(v, Render(strtod, sprintf))), strtod) <==> NumbersSurvive(v, strtod, sprintf)
    decreases v, 1
  {
    if v.Container? {
      ChildrenFiniteAreSame(v.children, strtod, sprintf);
    }
  }

  lemma {:induction false} ChildrenFiniteAreSame(cs: seq<Child>, strtod: bytes -> Double, sprintf: Double -> bytes)
    ensures SameChildren(cs, ChildrenFinite(ChildrenRendered(cs, Render(strtod, sprintf))), strtod)
       <==> ChildrenSurvive(cs, strtod, sprintf)
    decreases cs, 0
  {
    hide Render, ChildFinite, ChildRendered, SameChild, ChildSurvives;
    if cs != [] {
      var rs := ChildrenRendered(cs, Render(strtod, sprintf));
      ChildFiniteIsSame(cs[0], strtod, sprintf);
      ChildrenFiniteAreSame(cs[1..], strtod, sprintf);
      assert rs[1..] == ChildrenRendered(cs[1..], Render(strtod, sprintf));
      assert ChildrenFinite(rs)[0] == ChildFinite(rs[0]) && ChildrenFinite(rs)[1..] == ChildrenFinite(rs[1..]);
    }
  }

  lemma {:induction false} ChildFiniteIsSame(c: Child, strtod: bytes -> Double, sprintf: Double -> bytes)
    ensures SameChild(c, ChildFinite(ChildRendered(c, Render(strtod, sprintf))), strtod)
       <==> ChildSurvives(c, strtod, sprintf)
    decreases c, 2
  {
    FiniteIsSame(c.value, strtod, sprintf);
  }

  /** The round trip of values: printing the doubles of a tree and decoding the text gives the same value, in
      its order and with its duplicate keys, exactly for trees without the unit separator whose doubles all
      survive. */
  lemma RoundTrip(v: Tree, style: Style, strtod: bytes -> Double, sprintf: Double -> bytes)
    requires StyleIsSpace(style) && TreeOk(Rendered(v, Render(strtod, sprintf)))
    ensures var text := Printed(Rendered(v, Render(strtod, sprintf)), style, 0);
            && CString(text)
            && (Decoded(text).Some? && SameValue(v, Decoded(text).value, strtod)
                <==> Readable(v) && NumbersSurvive(v, strtod, sprintf))
  {
    hide Printed, Decoded, TreeOk, Readable, Finite, Rendered, Render, SameValue, NumbersSurvive, CString;
    var w := Rendered(v, Render(strtod, sprintf));
    DecodePrinted(w, style);
    RenderedIsReadable(v, Render(strtod, sprintf));
    FiniteIsSame(v, strtod, sprintf);
  }

  // ----- What the parser returns can be printed -----

  lemma {:induction false} ValidShift(a: bytes, b: bytes, j: nat)
    requires j <= |b|
    ensures Utf8.ValidFrom(a + b, |a| + j) == Utf8.ValidFrom(b, j)
    decreases |b| - j
  {
    if j < |b| {
      assert (a + b)[|a| + j..] == b[j..];
      ValidateShift(a, b, j);
      var len := Utf8.ValidateChar(b, j);
      if At(b, j) != 0 && len > 0 {
        ValidShift(a, b, j + len);
      }
    }
  }

  lemma ValidateShift(a: bytes, b: bytes, j: nat)
    requires j <= |b|
    ensures Utf8.ValidateChar(a + b, |a| + j) == Utf8.ValidateChar(b, j)
  {
    assert At(a + b, |a| + j) == At(b, j);
    assert j + 1 <= |b| ==> At(a + b, |a| + j + 1) == At(b, j + 1);
    assert j + 2 <= |b| ==> At(a + b, |a| + j + 2) == At(b, j + 2);
    assert j + 3 <= |b| ==> At(a + b, |a| + j + 3) == At(b, j + 3);
  }

  /** Every character of a literal contributes the encoding of a code point other than NUL. */
  lemma MeaningIsEncoding(c: Char) returns (u: int)
    requires CharOk(c)
    ensures Utf8.IsScalar(u) && u != 0 && CharMeaning(c) == Utf8.WriteChar(u)
  {
    match c
    case Plain(code) => u := code;
    case Escape(letter) => u := EscapeMeaning(letter).value;
    case Unicode(hex) => u := Utf16.HexValue(hex);
    case Pair(high, low) =>
      u := 0x10000 + (Utf16.HexValue(high) - 0xD800) * 0x400 + (Utf16.HexValue(low) - 0xDC00);
  }

  lemma EncodingInFront(u: int, rest: bytes)
    requires Utf8.IsScalar(u) && u != 0 && TextOk(rest)
    ensures TextOk(Utf8.WriteChar(u) + rest)
  {
    var t := Utf8.WriteChar(u);
    assert CString(t);
    assert (t + rest)[0..|t|] == t;
    Utf8.WrittenIsValidated(u, t + rest, 0);
    ValidShift(t, rest, 0);
  }

  lemma {:induction false} CharsMeaningOk(cs: seq<Char>)
    requires CharsOk(cs)
    ensures TextOk(CharsMeaning(cs))
    decreases |cs|
  {
    if cs != [] {
      CharsMeaningOk(cs[1..]);
      var u := MeaningIsEncoding(cs[0]);
      EncodingInFront(u, CharsMeaning(cs[1..]));
    }
  }

  lemma NumberMeaningOk(n: Num)
    requires NumOk(n)
    ensures CString(NumText(n)) && NumberIsValid(NumText(n))
  {
    hide NumText;
    NumTextIsCString(n);
    assert NumText(n)[0..|NumText(n)|] == NumText(n);
    NumberComplete(n, NumText(n), 0);
  }

  lemma {:induction false} MeaningOk(t: Syntax)
    requires SyntaxOk(t)
    ensures TreeOk(Meaning(t)) && NumbersValid(Meaning(t))
    decreases t, 1
  {
    match t
    case SString(chars) => CharsMeaningOk(chars);
    case SNumber(num) => NumberMeaningOk(num);
    case SContainer(isObject, pad, items) => ItemsMeaningOk(items, isObject);
    case _ =>
  }

  lemma {:induction false} ItemsMeaningOk(items: seq<Item>, isObject: bool)
    requires ItemsOk(items, isObject)
    ensures forall k | 0 <= k < |ItemsMeaning(items, isObject)| :: ChildOk(ItemsMeaning(items, isObject)[k], isObject)
    ensures ChildrenNumbersValid(ItemsMeaning(items, isObject))
    decreases items, 0
  {
    hide ChildOk, ItemOk, ItemMeaning, ChildNumbersValid;
    if items != [] {
      ItemMeaningOk(items[0], isObject);
      ItemsMeaningOk(items[1..], isObject);
      assert ItemsMeaning(items, isObject)[1..] == ItemsMeaning(items[1..], isObject);
    }
  }

  lemma {:induction false} ItemMeaningOk(x: Item, isObject: bool)
    requires ItemOk(x, isObject)
    ensures ChildOk(ItemMeaning(x, isObject), isObject) && ChildNumbersValid(ItemMeaning(x, isObject))
    decreases x, 2
  {
    MeaningOk(x.value);
    if isObject {
      CharsMeaningOk(x.key.value.chars);
    }
  }

  lemma {:induction false} RenderedIsOk(v: Tree, render: bytes -> bytes)
    requires TreeOk(v) && forall text: bytes :: CString(render(text))
    ensures TreeOk(Rendered(v, render))
    decreases v
  {
    if v.Container? {
      forall k | 0 <= k < |v.children| ensures ChildOk(ChildRendered(v.children[k], render), v.isObject) {
        assert ChildOk(v.children[k], v.isObject);
        RenderedIsOk(v.children[k].value, render);
      }
    }
  }

  lemma DecodedIsOk(s: bytes)
    requires CString(s) && Decoded(s).Some?
    ensures TreeOk(Decoded(s).value) && NumbersValid(Decoded(s).value)
  {
    DecodeIsExact(s, Decoded(s).value);
    var d: Document :| DocumentOk(d) && DocumentText(d) == s && Meaning(d.value) == Decoded(s).value;
    MeaningOk(d.value);
  }

  /** Every tree that the parser returns satisfies the printer's assertions, and its numbers are numbers of
      the grammar. What they are rendered as need not be: see OverflowIsLost. */
  lemma DecodedIsPrintable(s: bytes, render: bytes -> bytes)
    requires CString(s) && Decoded(s).Some? && forall text: bytes :: CString(render(text))
    ensures TreeOk(Decoded(s).value) && NumbersValid(Decoded(s).value)
    ensures TreeOk(Rendered(Decoded(s).value, render))
  {
    DecodedIsOk(s);
    RenderedIsOk(Decoded(s).value, render);
  }

  /** Decode, print, decode again. The second decoding fails exactly for accepted texts with the unit
      separator in a string; otherwise it returns the printed tree, with null for what is not a JSON number.
      This is the same value exactly when every double survives. */
  lemma Reencoding(s: bytes, style: Style, strtod: bytes -> Double, sprintf: Double -> bytes)
    requires CString(s) && Decoded(s).Some? && StyleIsSpace(style) && forall d: Double :: CString(sprintf(d))
    ensures TreeOk(Rendered(Decoded(s).value, Render(strtod, sprintf)))
    ensures var v := Decoded(s).value;
            var w := Rendered(v, Render(strtod, sprintf));
            var text := Printed(w, style, 0);
            && CString(text) && Decoded(text) == (if Readable(v) then Some(Finite(w)) else None)
            && (Decoded(text).Some? && SameValue(v, Decoded(text).value, strtod)
                <==> Readable(v) && NumbersSurvive(v, strtod, sprintf))
  {
    hide Printed, Decoded, TreeOk, Readable, Finite, Rendered, SameValue, NumbersSurvive;
    DecodedIsPrintable(s, Render(strtod, sprintf));
    DecodePrinted(Rendered(Decoded(s).value, Render(strtod, sprintf)), style);
    RenderedIsReadable(Decoded(s).value, Render(strtod, sprintf));
    RoundTrip(Decoded(s).value, style, strtod, sprintf);
  }

  const HUGE: bytes := [0x31, 0x65, 0x39, 0x39, 0x39]
  const INF: bytes := [0x69, 0x6E, 0x66]

  /** The text "1e999" is accepted; where it is rendered as "inf", decoding what is printed gives null. */
  lemma OverflowIsLost(strtod: bytes -> Double, sprintf: Double -> bytes)
    requires sprintf(strtod(HUGE)) == INF
    ensures CString(HUGE) && Decoded(HUGE) == Some(Number(HUGE))
    ensures TreeOk(Rendered(Number(HUGE), Render(strtod, sprintf)))
    ensures var text := Printed(Rendered(Number(HUGE), Render(strtod, sprintf)), Compact, 0);
            CString(text) && Decoded(text) == Some(Null) && !SameValue(Number(HUGE), Null, strtod)
  {
    hide Decoded, Printed;
    var n := Num(false, [0x31], None, Some(Exponent(0x65, [], [0x39, 0x39, 0x39])));
    assert NumText(n) == HUGE;
    var d := Document([], SNumber(n), []);
    assert DocumentText(d) == HUGE;
    DecodeComplete(d);
    assert !NumberIsValid(INF);
    DecodePrinted(Number(INF), Compact);
  }

  /** The text "\u001f" is accepted, and what it is printed as is not. */
  lemma UnitSeparatorIsLost()
    ensures var s: bytes := [QUOTE, BACKSLASH, 0x75, 0x30, 0x30, 0x31, 0x66, QUOTE];
            && CString(s) && Decoded(s) == Some(String([UNIT_SEPARATOR]))
            && TreeOk(String([UNIT_SEPARATOR])) && CString(Printed(String([UNIT_SEPARATOR]), Compact, 0))
            && Decoded(Printed(String([UNIT_SEPARATOR]), Compact, 0)) == None
  {
    hide Decoded, Printed, Utf8.ValidFrom;
    var s: bytes := [QUOTE, BACKSLASH, 0x75, 0x30, 0x30, 0x31, 0x66, QUOTE];
    var hex: bytes := [0x30, 0x30, 0x31, 0x66];
    Utf16.FourDigits(hex);
    var c := Unicode(hex);
    var d := Document([], SString([c]), []);
    assert CharsText([c]) == CharText(c) + CharsText([c][1..]);
    assert [c][1..] == [];
    assert CharMeaning(c) == [UNIT_SEPARATOR];
    assert CharsMeaning([c]) == [UNIT_SEPARATOR];
    assert DocumentText(d) == s;
    DecodeComplete(d);
    DecodedIsOk(s);
    DecodePrinted(String([UNIT_SEPARATOR]), Compact);
  }
}
