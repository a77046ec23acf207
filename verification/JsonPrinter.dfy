/** The printer of the JSON library: the text that a tree is printed as, and the emit_* functions that
    write this text into a string buffer. `JsonRoundTrip` relates it to the parser. */
module JsonPrinter {
  import opened Bytes
  import opened Json
  import opened JsonNodes
  import opened JsonTrees
  import opened StringBuffers
  import Utf8
  import Utf16
  import JsonLanguage
  import JsonParser

  /** json_stringify prints on one line, or indented by a string of the caller's choice. */
  datatype Style = Compact | Indented(space: bytes)

  const NEWLINE: bytes := [0x0A]

  /** What the printer's assertions demand of strings and keys. */
  predicate TextOk(s: bytes) {
    CString(s) && Utf8.Valid(s)
  }

  /** What the printer demands of a tree: good strings, and a key exactly on the members of objects. */
  predicate TreeOk(v: Tree)
    decreases v, 1
  {
    match v
    case String(s) => TextOk(s)
    case Number(text) => CString(text)
    case Container(isObject, children) => forall k | 0 <= k < |children| :: ChildOk(children[k], isObject)
    case _ => true
  }

  predicate ChildOk(c: Child, isObject: bool)
    decreases c, 2
  {
    TreeOk(c.value) && c.key.Some? == isObject && (isObject ==> TextOk(c.key.value))
  }

  // ----- The printed text -----

  /** The letter of the two-character escape for `c`, if emit_string uses one. */
  function EscapeLetter(c: byte): (letter: Option<byte>)
    ensures letter.Some? ==> EscapeMeaning(letter.value) == Some(c)
  {
    if c == QUOTE || c == BACKSLASH then Some(c)
    else if c == 0x08 then Some(0x62)
    else if c == 0x0C then Some(0x66)
    else if c == 0x0A then Some(0x6E)
    else if c == 0x0D then Some(0x72)
    else if c == 0x09 then Some(0x74)
    else None
  }

  /** The length of the character at `i`, as emit_string steps over it. */
  function CharLength(s: bytes, i: nat): (len: nat)
    requires i < |s| && CString(s) && Utf8.ValidFrom(s, i)
    ensures 0 < len && i + len <= |s| && Utf8.ValidFrom(s, i + len)
  {
    Utf8.ValidateChar(s, i)
  }

  /** One iteration of the loop of emit_string. */
  function CharOut(s: bytes, i: nat): (t: bytes)
    requires i < |s| && CString(s) && Utf8.ValidFrom(s, i)
    ensures |t| <= 6
  {
    var letter := EscapeLetter(s[i]);
    if letter.Some? then [BACKSLASH, letter.value]
    else if s[i] < 0x1F then [BACKSLASH, 0x75] + Utf16.WriteHex16(Utf8.ReadChar(s, i))
    else s[i..i + CharLength(s, i)]
  }

  function CharsOut(s: bytes, i: nat): bytes
    requires i <= |s| && CString(s) && Utf8.ValidFrom(s, i)
    decreases |s| - i
  {
    if i == |s| then [] else CharOut(s, i) + CharsOut(s, i + CharLength(s, i))
  }

  /** emit_string */
  function StringOut(s: bytes): bytes
    requires TextOk(s)
  {
    [QUOTE] + CharsOut(s, 0) + [QUOTE]
  }

  /** emit_number */
  function NumberOut(text: bytes): bytes {
    if JsonParser.NumberIsValid(text) then text else NULL_TEXT
  }

  function Indent(space: bytes, n: nat): bytes {
    if n == 0 then [] else Indent(space, n - 1) + space
  }

  /** What stands in front of a child, or of the closing bracket, at some depth. */
  function Lead(style: Style, depth: nat): bytes {
    if style.Compact? then [] else NEWLINE + Indent(style.space, depth)
  }

  function KeyOut(key: Option<bytes>, style: Style): bytes
    requires key.Some? ==> TextOk(key.value)
  {
    if key.None? then []
    else StringOut(key.value) + [COLON] + (if style.Compact? then [] else [0x20])
  }

  /** emit_value and emit_value_indented at depth `level`. */
  function Printed(v: Tree, style: Style, level: nat): bytes
    requires TreeOk(v)
    decreases v, 1
  {
    match v
    case Null => NULL_TEXT
    case Bool(b) => if b then TRUE_TEXT else FALSE_TEXT
    case String(s) => StringOut(s)
    case Number(text) => NumberOut(text)
    case Container(isObject, children) =>
      [Open(isObject)] +
      (if children == [] then [Close(isObject)] else ChildrenPrinted(children, isObject, style, level))
  }

  /** The children separated by commas, then the closing bracket on its own line. */
  function ChildrenPrinted(children: seq<Child>, isObject: bool, style: Style, level: nat): bytes
    requires children != [] && forall k | 0 <= k < |children| :: ChildOk(children[k], isObject)
    decreases children, 0
  {
    ChildPrinted(children[0], isObject, style, level) +
    (if |children| == 1 then Lead(style, level) + [Close(isObject)]
     else [COMMA] + ChildrenPrinted(children[1..], isObject, style, level))
  }

  function ChildPrinted(c: Child, isObject: bool, style: Style, level: nat): bytes
    requires ChildOk(c, isObject)
    decreases c, 2
  {
    Lead(style, level + 1) + KeyOut(c.key, style) + Printed(c.value, style, level + 1)
  }

  // ----- Printed text is a C string -----

  lemma {:induction false} CharsOutIsCString(s: bytes, i: nat)
    requires i <= |s| && CString(s) && Utf8.ValidFrom(s, i)
    ensures CString(CharsOut(s, i))
    decreases |s| - i
  {
    if i < |s| {
      forall k | 0 <= k < |CharOut(s, i)| ensures CharOut(s, i)[k] != 0 {
      }
      CharsOutIsCString(s, i + CharLength(s, i));
    }
  }

  lemma StringOutIsCString(s: bytes)
    requires TextOk(s)
    ensures CString(StringOut(s))
  {
    CharsOutIsCString(s, 0);
  }

  lemma NumTextIsCString(n: Num)
    requires NumOk(n)
    ensures CString(NumText(n))
  {
    assert CString(FracText(n.frac));
    assert CString(ExponentText(n.exp));
  }

  lemma NumberOutIsCString(text: bytes)
    ensures CString(NumberOut(text))
  {
    hide NumText, NumOk;
    if JsonParser.NumberIsValid(text) {
      var n := JsonLanguage.NumberSound(text, 0);
      assert text == text[0..|text|];
      NumTextIsCString(n);
    }
  }

  lemma {:induction false} IndentIsCString(space: bytes, n: nat)
    requires CString(space)
    ensures CString(Indent(space, n))
  {
    if n > 0 {
      IndentIsCString(space, n - 1);
    }
  }

  predicate StyleOk(style: Style) {
    style.Indented? ==> CString(style.space)
  }

  lemma LeadIsCString(style: Style, depth: nat)
    requires StyleOk(style)
    ensures CString(Lead(style, depth))
  {
    if style.Indented? {
      IndentIsCString(style.space, depth);
    }
  }

  /** The assertion of sb_finish: printed text contains no NUL. */
  lemma {:induction false} PrintedIsCString(v: Tree, style: Style, level: nat)
    requires TreeOk(v) && StyleOk(style)
    ensures CString(Printed(v, style, level))
    decreases v, 1
  {
    match v
    case String(s) => StringOutIsCString(s);
    case Number(text) => NumberOutIsCString(text);
    case Container(isObject, children) =>
      if children != [] {
        ChildrenAreCString(children, isObject, style, level);
      }
    case _ =>
  }

  lemma {:induction false} ChildrenAreCString(children: seq<Child>, isObject: bool, style: Style, level: nat)
    requires children != [] && (forall k | 0 <= k < |children| :: ChildOk(children[k], isObject)) && StyleOk(style)
    ensures CString(ChildrenPrinted(children, isObject, style, level))
    decreases children, 0
  {
    hide ChildPrinted, ChildOk, Lead;
    ChildIsCString(children[0], isObject, style, level);
    if |children| == 1 {
      LeadIsCString(style, level);
    } else {
      ChildrenAreCString(children[1..], isObject, style, level);
    }
  }

  lemma {:induction false} ChildIsCString(c: Child, isObject: bool, style: Style, level: nat)
    requires ChildOk(c, isObject) && StyleOk(style)
    ensures CString(ChildPrinted(c, isObject, style, level))
    decreases c, 2
  {
    hide Printed, StringOut, Lead;
    LeadIsCString(style, level + 1);
    PrintedIsCString(c.value, style, level + 1);
    if c.key.Some? {
      StringOutIsCString(c.key.value);
    }
  }

  // ----- The printer as it runs -----

  /** The body of the loop of emit_string. The fourteen bytes that sb_need reserves before every
      iteration are enough, and leave room for the closing quote. */
  method EmitChar(out: array<byte>, b: nat, str: bytes, s: nat) returns (end: nat, next: nat)
    requires s < |str| && CString(str) && Utf8.ValidFrom(str, s) && b + 6 <= out.Length
    modifies out
    ensures next == s + CharLength(str, s) && end == b + |CharOut(str, s)|
    ensures out[..end] == old(out[..b]) + CharOut(str, s)
  {
    var c := str[s];
    var letter := EscapeLetter(c);
    if letter.Some? {
      end := Write(out, b, [BACKSLASH, letter.value]);
      return end, s + 1;
    }
    var len := Utf8.ValidateChar(str, s);
    if c < 0x1F {
      var u := Utf8.ReadChar(str, s);
      end := Write(out, b, [BACKSLASH, 0x75]);
      end := Write(out, end, Utf16.WriteHex16(u));
    } else {
      end := Write(out, b, str[s..s + len]);
    }
    next := s + len;
  }

  /** The `*b++ = ...` steps that write a run of bytes. */
  method Write(out: array<byte>, b: nat, text: bytes) returns (end: nat)
    requires b + |text| <= out.Length
    modifies out
    ensures end == b + |text| && out[..end] == old(out[..b]) + text
  {
    var k := 0;
    while k < |text|
      invariant k <= |text| && out[..b + k] == old(out[..b]) + text[..k]
    {
      out[b + k] := text[k];
      k := k + 1;
    }
    end := b + |text|;
  }

  /** One iteration of the loop of emit_string, with the reservation for the next one. */
  method EmitNext(out: StringBuffer, b: nat, str: bytes, s: nat) returns (end: nat, next: nat)
    requires out.Valid() && b + 14 <= out.start.Length
    requires s < |str| && CString(str) && Utf8.ValidFrom(str, s)
    modifies out, out.start
    ensures out.Valid() && (out.start == old(out.start) || fresh(out.start)) && end + 14 <= out.start.Length
    ensures next == s + CharLength(str, s)
    ensures out.start[..end] == old(out.start[..b]) + CharOut(str, s)
  {
    hide CharOut, CharLength, Utf8.ValidFrom;
    CharsOutStep(str, s, []);
    end, next := EmitChar(out.start, b, str, s);
    out.cur := end;
    out.Need(14);
    end := out.cur;
  }

  /** emit_string */
  method EmitString(out: StringBuffer, str: bytes)
    requires out.Valid() && TextOk(str)
    modifies out, out.start
    ensures out.Valid() && (out.start == old(out.start) || fresh(out.start))
    ensures out.Contents() == old(out.Contents()) + StringOut(str)
  {
    hide CharsOut, CharOut, CharLength, Utf8.ValidFrom;
    ghost var before := out.Contents();
    out.Need(14);
    var b: nat := out.cur;
    out.start[b] := QUOTE;
    b := b + 1;
    var s := 0;
    ghost var done := before + [QUOTE];
    while At(str, s) != 0
      invariant out.Valid() && (out.start == old(out.start) || fresh(out.start))
      invariant s <= |str| && Utf8.ValidFrom(str, s) && b + 14 <= out.start.Length
      invariant out.start[..b] == done && before + [QUOTE] + CharsOut(str, 0) == done + CharsOut(str, s)
      decreases |str| - s
    {
      CharsOutStep(str, s, done);
      done := done + CharOut(str, s);
      b, s := EmitNext(out, b, str, s);
    }
    CharsOutEnds(str);
    Associative(before, [QUOTE], CharsOut(str, 0));
    Associative(before, [QUOTE] + CharsOut(str, 0), [QUOTE]);
    assert done + [] == done;
    out.start[b] := QUOTE;
    b := b + 1;
    out.cur := b;
    assert out.Contents() == done + [QUOTE];
  }

  lemma CharsOutStep(s: bytes, i: nat, done: bytes)
    requires i < |s| && CString(s) && Utf8.ValidFrom(s, i)
    ensures done + CharsOut(s, i) == done + CharOut(s, i) + CharsOut(s, i + CharLength(s, i))
    ensures 0 < CharLength(s, i) && i + CharLength(s, i) <= |s| && Utf8.ValidFrom(s, i + CharLength(s, i))
    ensures |CharOut(s, i)| <= 6
  {
    hide CharOut;
  }

  lemma CharsOutEnds(s: bytes)
    requires CString(s) && Utf8.ValidFrom(s, |s|)
    ensures CharsOut(s, |s|) == []
  {
  }

  /** emit_number. `sprintf` is what "%.16g" makes of a double. */
  method EmitNumber(out: StringBuffer, num: Double, sprintf: Double -> bytes)
    requires out.Valid() && CString(sprintf(num))
    modifies out, out.start
    ensures out.Valid() && (out.start == old(out.start) || fresh(out.start))
    ensures out.Contents() == old(out.Contents()) + NumberOut(sprintf(num))
  {
    var text := sprintf(num);
    var ok, end := JsonParser.ParseNumber(text, 0);
    if ok && At(text, end) == 0 {
      out.Put(text);
    } else {
      out.Put(NULL_TEXT);
    }
  }

  /** emit_value */
  method EmitValue(out: StringBuffer, node: JsonNode, sprintf: Double -> bytes, ghost t: NodeTree, ghost v: Tree)
    requires out.Valid() && node == t.node && Holds(t, v, WrittenAs(sprintf)) && TreeOk(v)
    modifies out, out.start
    ensures out.Valid() && (out.start == old(out.start) || fresh(out.start))
    ensures out.Contents() == old(out.Contents()) + Printed(v, Compact, 0)
    decreases v, 1
  {
    match node.tag
    case NullTag => out.Put(NULL_TEXT);
    case BoolTag => out.Put(if node.b then TRUE_TEXT else FALSE_TEXT);
    case StringTag => EmitString(out, node.str.value);
    case NumberTag => EmitNumber(out, node.number, sprintf);
    case ArrayTag => EmitArray(out, node, sprintf, t, v);
    case ObjectTag => EmitObject(out, node, sprintf, t, v);
  }

  /** The compact form does not depend on the depth. */
  lemma {:induction false} CompactIsFlat(v: Tree, level: nat, level': nat)
    requires TreeOk(v)
    ensures Printed(v, Compact, level) == Printed(v, Compact, level')
    decreases v, 1
  {
    if v.Container? && v.children != [] {
      CompactChildrenAreFlat(v.children, v.isObject, level, level');
    }
  }

  lemma {:induction false} CompactChildrenAreFlat(children: seq<Child>, isObject: bool, level: nat, level': nat)
    requires children != [] && forall k | 0 <= k < |children| :: ChildOk(children[k], isObject)
    ensures ChildrenPrinted(children, isObject, Compact, level) == ChildrenPrinted(children, isObject, Compact, level')
    decreases children, 0
  {
    hide ChildPrinted, ChildOk;
    CompactChildIsFlat(children[0], isObject, level, level');
    if |children| > 1 {
      CompactChildrenAreFlat(children[1..], isObject, level, level');
    }
  }

  lemma {:induction false} CompactChildIsFlat(c: Child, isObject: bool, level: nat, level': nat)
    requires ChildOk(c, isObject)
    ensures ChildPrinted(c, isObject, Compact, level) == ChildPrinted(c, isObject, Compact, level')
    decreases c, 2
  {
    hide Printed, KeyOut;
    CompactIsFlat(c.value, level + 1, level' + 1);
  }

  /** What is left to print behind the first `i` children. */
  ghost function Rest(v: Tree, i: nat, style: Style, level: nat): bytes
    requires v.Container? && TreeOk(v) && i <= |v.children|
  {
    if i == |v.children| then Lead(style, level) + [Close(v.isObject)]
    else ChildrenPrinted(v.children[i..], v.isObject, style, level)
  }

  lemma RestOfAll(v: Tree, style: Style, level: nat)
    requires v.Container? && TreeOk(v) && (style.Compact? || v.children != [])
    ensures Printed(v, style, level) == [Open(v.isObject)] + Rest(v, 0, style, level)
  {
    assert v.children[0..] == v.children;
  }

  /** The comma behind the first `i` children, if there are more. */
  function Separator(v: Tree, i: nat): bytes
    requires v.Container?
  {
    if i < |v.children| then [COMMA] else []
  }

  lemma RestStep(v: Tree, i: nat, style: Style, level: nat, stem: bytes)
    requires v.Container? && TreeOk(v) && i < |v.children|
    ensures ChildOk(v.children[i], v.isObject)
    ensures stem + Rest(v, i, style, level) ==
            stem + ChildPrinted(v.children[i], v.isObject, style, level) + Separator(v, i + 1)
            + Rest(v, i + 1, style, level)
  {
    hide ChildPrinted, Lead;
    assert v.children[i..][1..] == v.children[i + 1..];
  }

  lemma RestEnds(v: Tree, style: Style, level: nat)
    requires v.Container? && TreeOk(v)
    ensures Rest(v, |v.children|, style, level) == Lead(style, level) + [Close(v.isObject)]
  {
  }

  lemma HasKids(t: NodeTree, v: Tree, num: Naming)
    requires Holds(t, v, num) && v.Container?
    ensures |t.kids| == |v.children| == |Roots(t.kids)| && t.node.head == ChildAt(Roots(t.kids), 0)
  {
  }

  /** The child at position `i`, and where its next pointer leads. */
  lemma KidAt(t: NodeTree, v: Tree, i: nat, num: Naming)
    requires Holds(t, v, num) && v.Container? && i < |v.children|
    ensures i < |t.kids| && Roots(t.kids)[i] == t.kids[i].node && Holds(t.kids[i], v.children[i].value, num)
    ensures t.kids[i].node.key == v.children[i].key && t.kids[i].node.next == ChildAt(Roots(t.kids), i + 1)
  {
    assert LinkedAt(t.node, Roots(t.kids), i);
  }

  /** emit_array */
  method EmitArray(out: StringBuffer, node: JsonNode, sprintf: Double -> bytes, ghost t: NodeTree, ghost v: Tree)
    requires out.Valid() && node == t.node && Holds(t, v, WrittenAs(sprintf))
    requires v.Container? && !v.isObject && TreeOk(v)
    modifies out, out.start
    ensures out.Valid() && (out.start == old(out.start) || fresh(out.start))
    ensures out.Contents() == old(out.Contents()) + Printed(v, Compact, 0)
    decreases v, 0
  {
    hide Printed, Rest, Holds, Nodes, NodesOf, TreeOk;
    ghost var goal, i := out.Contents() + Printed(v, Compact, 0), 0;
    RestOfAll(v, Compact, 0);
    HasKids(t, v, WrittenAs(sprintf));
    NodesExist(t);
    RootIsInside(t);
    var child := node.head;
    out.PutChar(0x5B);
    while child != null
      invariant out.Valid() && (out.start == old(out.start) || fresh(out.start))
      invariant Holds(t, v, WrittenAs(sprintf)) && i <= |v.children| && child == ChildAt(Roots(t.kids), i)
      invariant goal == out.Contents() + Rest(v, i, Compact, 0)
      decreases |v.children| - i
    {
      child := EmitElementStep(out, child, sprintf, t, v, i);
      i := i + 1;
    }
    RestEnds(v, Compact, 0);
    out.PutChar(0x5D);
  }

  /** The body of its loop. */
  method EmitElementStep(out: StringBuffer, child: JsonNode, sprintf: Double -> bytes,
                         ghost t: NodeTree, ghost v: Tree, ghost i: nat)
    returns (next: JsonNode?)
    requires out.Valid() && Holds(t, v, WrittenAs(sprintf))
    requires v.Container? && !v.isObject && TreeOk(v)
    requires i < |v.children| && child == ChildAt(Roots(t.kids), i)
    modifies out, out.start
    ensures out.Valid() && (out.start == old(out.start) || fresh(out.start))
    ensures next == ChildAt(Roots(t.kids), i + 1) && Holds(t, v, WrittenAs(sprintf))
    ensures out.Contents() + Rest(v, i + 1, Compact, 0) == old(out.Contents()) + Rest(v, i, Compact, 0)
    decreases v.children, 3
  {
    hide Printed, Rest, ChildPrinted, TreeOk, ChildOk, Holds, Nodes, NodesOf;
    NodesExist(t);
    RootIsInside(t);
    HasKids(t, v, WrittenAs(sprintf));
    KidAt(t, v, i, WrittenAs(sprintf));
    RestStep(v, i, Compact, 0, out.Contents());
    EmitElement(out, child, sprintf, t.kids[i], v.children[i]);
    next := child.next;
    if next != null {
      out.PutChar(COMMA);
    }
  }

  /** The value of an array element. */
  method EmitElement(out: StringBuffer, element: JsonNode, sprintf: Double -> bytes,
                     ghost t: NodeTree, ghost c: Child)
    requires out.Valid() && element == t.node && Holds(t, c.value, WrittenAs(sprintf)) && ChildOk(c, false)
    modifies out, out.start
    ensures out.Valid() && (out.start == old(out.start) || fresh(out.start))
    ensures out.Contents() == old(out.Contents()) + ChildPrinted(c, false, Compact, 0)
    decreases c, 2
  {
    hide Printed, Holds;
    CompactIsFlat(c.value, 0, 1);
    EmitValue(out, element, sprintf, t, c.value);
  }

  /** emit_object */
  method EmitObject(out: StringBuffer, node: JsonNode, sprintf: Double -> bytes, ghost t: NodeTree, ghost v: Tree)
    requires out.Valid() && node == t.node && Holds(t, v, WrittenAs(sprintf))
    requires v.Container? && v.isObject && TreeOk(v)
    modifies out, out.start
    ensures out.Valid() && (out.start == old(out.start) || fresh(out.start))
    ensures out.Contents() == old(out.Contents()) + Printed(v, Compact, 0)
    decreases v, 0
  {
    hide Printed, Rest, Holds, Nodes, NodesOf, TreeOk;
    ghost var goal, i := out.Contents() + Printed(v, Compact, 0), 0;
    RestOfAll(v, Compact, 0);
    HasKids(t, v, WrittenAs(sprintf));
    NodesExist(t);
    RootIsInside(t);
    var child := node.head;
    out.PutChar(0x7B);
    while child != null
      invariant out.Valid() && (out.start == old(out.start) || fresh(out.start))
      invariant Holds(t, v, WrittenAs(sprintf)) && i <= |v.children| && child == ChildAt(Roots(t.kids), i)
      invariant goal == out.Contents() + Rest(v, i, Compact, 0)
      decreases |v.children| - i
    {
      child := EmitMemberStep(out, child, sprintf, t, v, i);
      i := i + 1;
    }
    RestEnds(v, Compact, 0);
    out.PutChar(0x7D);
  }

  /** The body of its loop. */
  method EmitMemberStep(out: StringBuffer, child: JsonNode, sprintf: Double -> bytes,
                        ghost t: NodeTree, ghost v: Tree, ghost i: nat)
    returns (next: JsonNode?)
    requires out.Valid() && Holds(t, v, WrittenAs(sprintf))
    requires v.Container? && v.isObject && TreeOk(v)
    requires i < |v.children| && child == ChildAt(Roots(t.kids), i)
    modifies out, out.start
    ensures out.Valid() && (out.start == old(out.start) || fresh(out.start))
    ensures next == ChildAt(Roots(t.kids), i + 1) && Holds(t, v, WrittenAs(sprintf))
    ensures out.Contents() + Rest(v, i + 1, Compact, 0) == old(out.Contents()) + Rest(v, i, Compact, 0)
    decreases v.children, 3
  {
    hide Printed, Rest, ChildPrinted, TreeOk, ChildOk, Holds, Nodes, NodesOf;
    NodesExist(t);
    RootIsInside(t);
    HasKids(t, v, WrittenAs(sprintf));
    KidAt(t, v, i, WrittenAs(sprintf));
    RestStep(v, i, Compact, 0, out.Contents());
    EmitMember(out, child, sprintf, t.kids[i], v.children[i]);
    next := child.next;
    if next != null {
      out.PutChar(COMMA);
    }
  }

  /** The key, colon and value of an object member. */
  method EmitMember(out: StringBuffer, member: JsonNode, sprintf: Double -> bytes, ghost t: NodeTree, ghost c: Child)
    requires out.Valid() && member == t.node && member.key == c.key
    requires Holds(t, c.value, WrittenAs(sprintf)) && ChildOk(c, true)
    modifies out, out.start
    ensures out.Valid() && (out.start == old(out.start) || fresh(out.start))
    ensures out.Contents() == old(out.Contents()) + ChildPrinted(c, true, Compact, 0)
    decreases c, 2
  {
    hide Printed, StringOut, Holds, Nodes, NodesOf;
    CompactIsFlat(c.value, 0, 1);
    NodesExist(t);
    RootIsInside(t);
    EmitString(out, member.key.value);
    out.PutChar(COLON);
    EmitValue(out, member, sprintf, t, c.value);
  }

  /** The loops that repeat the indentation string. */
  method EmitIndent(out: StringBuffer, space: bytes, n: nat)
    requires out.Valid()
    modifies out, out.start
    ensures out.Valid() && (out.start == old(out.start) || fresh(out.start))
    ensures out.Contents() == old(out.Contents()) + Indent(space, n)
  {
    var i := 0;
    while i < n
      invariant out.Valid() && (out.start == old(out.start) || fresh(out.start))
      invariant i <= n && out.Contents() == old(out.Contents()) + Indent(space, i)
    {
      out.Put(space);
      i := i + 1;
    }
  }

  /** emit_value_indented */
  method EmitValueIndented(out: StringBuffer, node: JsonNode, sprintf: Double -> bytes,
                           ghost t: NodeTree, ghost v: Tree, space: bytes, level: nat)
    requires out.Valid() && node == t.node && Holds(t, v, WrittenAs(sprintf)) && TreeOk(v)
    modifies out, out.start
    ensures out.Valid() && (out.start == old(out.start) || fresh(out.start))
    ensures out.Contents() == old(out.Contents()) + Printed(v, Indented(space), level)
    decreases v, 1
  {
    match node.tag
    case NullTag => out.Put(NULL_TEXT);
    case BoolTag => out.Put(if node.b then TRUE_TEXT else FALSE_TEXT);
    case StringTag => EmitString(out, node.str.value);
    case NumberTag => EmitNumber(out, node.number, sprintf);
    case ArrayTag => EmitArrayIndented(out, node, sprintf, t, v, space, level);
    case ObjectTag => EmitObjectIndented(out, node, sprintf, t, v, space, level);
  }

  lemma LeadAfter(stem: bytes, space: bytes, depth: nat)
    ensures stem + Lead(Indented(space), depth) == stem + NEWLINE + Indent(space, depth)
  {
  }

  /** emit_array_indented. The source writes the newline in front of a child together with what
      precedes it, so `stem` is the output without that newline. */
  method EmitArrayIndented(out: StringBuffer, node: JsonNode, sprintf: Double -> bytes,
                           ghost t: NodeTree, ghost v: Tree, space: bytes, level: nat)
    requires out.Valid() && node == t.node && Holds(t, v, WrittenAs(sprintf))
    requires v.Container? && !v.isObject && TreeOk(v)
    modifies out, out.start
    ensures out.Valid() && (out.start == old(out.start) || fresh(out.start))
    ensures out.Contents() == old(out.Contents()) + Printed(v, Indented(space), level)
    decreases v, 0
  {
    HasKids(t, v, WrittenAs(sprintf));
    var child := node.head;
    if child == null {
      out.Put([0x5B, 0x5D]);
      return;
    }
    hide Printed, Rest, ChildPrinted, ChildOk, Indent, TreeOk, Lead, Holds, Nodes, NodesOf;
    NodesExist(t);
    RootIsInside(t);
    ghost var style, i := Indented(space), 0;
    ghost var goal := out.Contents() + Printed(v, style, level);
    ghost var stem := out.Contents() + [0x5B];
    RestOfAll(v, style, level);
    Associative(out.Contents(), [0x5B], NEWLINE);
    Associative(out.Contents(), [0x5B], Rest(v, 0, style, level));
    out.Put([0x5B] + NEWLINE);
    while child != null
      invariant out.Valid() && (out.start == old(out.start) || fresh(out.start))
      invariant Holds(t, v, WrittenAs(sprintf)) && i <= |v.children| && child == ChildAt(Roots(t.kids), i)
      invariant out.Contents() == stem + NEWLINE && goal == stem + Rest(v, i, style, level)
      decreases |v.children| - i
    {
      child, stem := EmitElementLine(out, child, sprintf, t, v, i, space, level, stem);
      i := i + 1;
    }
    RestEnds(v, style, level);
    Associative(stem, Lead(style, level), [0x5D]);
    LeadAfter(stem, space, level);
    EmitIndent(out, space, level);
    out.PutChar(0x5D);
  }

  /** The body of the loop of emit_array_indented. */
  method EmitElementLine(out: StringBuffer, child: JsonNode, sprintf: Double -> bytes,
                         ghost t: NodeTree, ghost v: Tree, ghost i: nat, space: bytes, level: nat, ghost stem: bytes)
    returns (next: JsonNode?, ghost grown: bytes)
    requires out.Valid() && Holds(t, v, WrittenAs(sprintf))
    requires v.Container? && !v.isObject && TreeOk(v)
    requires i < |v.children| && child == ChildAt(Roots(t.kids), i) && out.Contents() == stem + NEWLINE
    modifies out, out.start
    ensures out.Valid() && (out.start == old(out.start) || fresh(out.start))
    ensures next == ChildAt(Roots(t.kids), i + 1) && Holds(t, v, WrittenAs(sprintf))
    ensures out.Contents() == grown + NEWLINE
    ensures stem + Rest(v, i, Indented(space), level) == grown + Rest(v, i + 1, Indented(space), level)
    decreases v.children, 3
  {
    hide Printed, Rest, ChildPrinted, TreeOk, ChildOk, Holds, Nodes, NodesOf;
    NodesExist(t);
    RootIsInside(t);
    HasKids(t, v, WrittenAs(sprintf));
    KidAt(t, v, i, WrittenAs(sprintf));
    RestStep(v, i, Indented(space), level, stem);
    EmitElementIndented(out, child, sprintf, t.kids[i], v.children[i], space, level, stem);
    next := child.next;
    Associative(out.Contents(), Separator(v, i + 1), NEWLINE);
    grown := out.Contents() + Separator(v, i + 1);
    out.Put((if next != null then [COMMA] else []) + NEWLINE);
  }

  /** The indentation and value of an array element, behind a newline. */
  method EmitElementIndented(out: StringBuffer, element: JsonNode, sprintf: Double -> bytes,
                             ghost t: NodeTree, ghost c: Child, space: bytes, level: nat, ghost stem: bytes)
    requires out.Valid() && element == t.node && Holds(t, c.value, WrittenAs(sprintf)) && ChildOk(c, false)
    requires out.Contents() == stem + NEWLINE
    modifies out, out.start
    ensures out.Valid() && (out.start == old(out.start) || fresh(out.start))
    ensures out.Contents() == stem + ChildPrinted(c, false, Indented(space), level)
    decreases c, 2
  {
    hide Printed, StringOut, Indent, Holds, Nodes, NodesOf;
    ghost var lead, value := Lead(Indented(space), level + 1), Printed(c.value, Indented(space), level + 1);
    Associative(stem, NEWLINE, Indent(space, level + 1));
    Associative(stem, lead, value);
    NodesExist(t);
    RootIsInside(t);
    EmitIndent(out, space, level + 1);
    EmitValueIndented(out, element, sprintf, t, c.value, space, level + 1);
  }

  /** emit_object_indented. The source writes the newline in front of a child together with what
      precedes it, so `stem` is the output without that newline. */
  method EmitObjectIndented(out: StringBuffer, node: JsonNode, sprintf: Double -> bytes,
                            ghost t: NodeTree, ghost v: Tree, space: bytes, level: nat)
    requires out.Valid() && node == t.node && Holds(t, v, WrittenAs(sprintf))
    requires v.Container? && v.isObject && TreeOk(v)
    modifies out, out.start
    ensures out.Valid() && (out.start == old(out.start) || fresh(out.start))
    ensures out.Contents() == old(out.Contents()) + Printed(v, Indented(space), level)
    decreases v, 0
  {
    HasKids(t, v, WrittenAs(sprintf));
    var child := node.head;
    if child == null {
      out.Put([0x7B, 0x7D]);
      return;
    }
    hide Printed, Rest, ChildPrinted, ChildOk, Indent, TreeOk, Lead, Holds, Nodes, NodesOf;
    NodesExist(t);
    RootIsInside(t);
    ghost var style, i := Indented(space), 0;
    ghost var goal := out.Contents() + Printed(v, style, level);
    ghost var stem := out.Contents() + [0x7B];
    RestOfAll(v, style, level);
    Associative(out.Contents(), [0x7B], NEWLINE);
    Associative(out.Contents(), [0x7B], Rest(v, 0, style, level));
    out.Put([0x7B] + NEWLINE);
    while child != null
      invariant out.Valid() && (out.start == old(out.start) || fresh(out.start))
      invariant Holds(t, v, WrittenAs(sprintf)) && i <= |v.children| && child == ChildAt(Roots(t.kids), i)
      invariant out.Contents() == stem + NEWLINE && goal == stem + Rest(v, i, style, level)
      decreases |v.children| - i
    {
      child, stem := EmitMemberLine(out, child, sprintf, t, v, i, space, level, stem);
      i := i + 1;
    }
    RestEnds(v, style, level);
    Associative(stem, Lead(style, level), [0x7D]);
    LeadAfter(stem, space, level);
    EmitIndent(out, space, level);
    out.PutChar(0x7D);
  }

  /** The body of the loop of emit_object_indented. */
  method EmitMemberLine(out: StringBuffer, child: JsonNode, sprintf: Double -> bytes,
                        ghost t: NodeTree, ghost v: Tree, ghost i: nat, space: bytes, level: nat, ghost stem: bytes)
    returns (next: JsonNode?, ghost grown: bytes)
    requires out.Valid() && Holds(t, v, WrittenAs(sprintf))
    requires v.Container? && v.isObject && TreeOk(v)
    requires i < |v.children| && child == ChildAt(Roots(t.kids), i) && out.Contents() == stem + NEWLINE
    modifies out, out.start
    ensures out.Valid() && (out.start == old(out.start) || fresh(out.start))
    ensures next == ChildAt(Roots(t.kids), i + 1) && Holds(t, v, WrittenAs(sprintf))
    ensures out.Contents() == grown + NEWLINE
    ensures stem + Rest(v, i, Indented(space), level) == grown + Rest(v, i + 1, Indented(space), level)
    decreases v.children, 3
  {
    hide Printed, Rest, ChildPrinted, TreeOk, ChildOk, Holds, Nodes, NodesOf;
    NodesExist(t);
    RootIsInside(t);
    HasKids(t, v, WrittenAs(sprintf));
    KidAt(t, v, i, WrittenAs(sprintf));
    RestStep(v, i, Indented(space), level, stem);
    EmitMemberIndented(out, child, sprintf, t.kids[i], v.children[i], space, level, stem);
    next := child.next;
    Associative(out.Contents(), Separator(v, i + 1), NEWLINE);
    grown := out.Contents() + Separator(v, i + 1);
    out.Put((if next != null then [COMMA] else []) + NEWLINE);
  }

  /** The indentation, key, colon and value of an object member, behind a newline. */
  method EmitMemberIndented(out: StringBuffer, member: JsonNode, sprintf: Double -> bytes,
                            ghost t: NodeTree, ghost c: Child, space: bytes, level: nat, ghost stem: bytes)
    requires out.Valid() && member == t.node && member.key == c.key
    requires Holds(t, c.value, WrittenAs(sprintf)) && ChildOk(c, true)
    requires out.Contents() == stem + NEWLINE
    modifies out, out.start
    ensures out.Valid() && (out.start == old(out.start) || fresh(out.start))
    ensures out.Contents() == stem + ChildPrinted(c, true, Indented(space), level)
    decreases c, 2
  {
    hide Printed, StringOut, Indent, Holds, Nodes, NodesOf, TreeOk, TextOk;
    ghost var lead, key, value :=
      Lead(Indented(space), level + 1), KeyOut(c.key, Indented(space)), Printed(c.value, Indented(space), level + 1);
    Associative(stem, NEWLINE, Indent(space, level + 1));
    Associative(stem + lead, StringOut(c.key.value) + [COLON], [0x20]);
    Associative(stem + lead, StringOut(c.key.value), [COLON]);
    Associative(stem + lead + StringOut(c.key.value), [COLON], [0x20]);
    Associative(stem, lead, key);
    Associative(stem, lead + key, value);
    NodesExist(t);
    RootIsInside(t);
    EmitIndent(out, space, level + 1);
    EmitString(out, member.key.value);
    out.Put([COLON, 0x20]);
    EmitValueIndented(out, member, sprintf, t, c.value, space, level + 1);
  }

  /** json_stringify, and json_encode with `space` absent. */
  method JsonStringify(node: JsonNode, space: Option<bytes>, sprintf: Double -> bytes, ghost t: NodeTree, ghost v: Tree)
    returns (text: bytes)
    requires node == t.node && Holds(t, v, WrittenAs(sprintf)) && TreeOk(v) && (space.Some? ==> CString(space.value))
    ensures text == Printed(v, if space.None? then Compact else Indented(space.value), 0)
    ensures CString(text)
  {
    hide Holds, Nodes, NodesOf, TreeOk, Printed;
    NodesExist(t);
    RootIsInside(t);
    var sb := new StringBuffer();
    if space.Some? {
      EmitValueIndented(sb, node, sprintf, t, v, space.value, 0);
      PrintedIsCString(v, Indented(space.value), 0);
    } else {
      EmitValue(sb, node, sprintf, t, v);
      PrintedIsCString(v, Compact, 0);
    }
    text := sb.Finish();
  }
}
