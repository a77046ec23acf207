/** The parser accepts exactly the language of the grammar and returns what the grammar means:
    soundness builds a syntax tree from a successful parse, completeness parses the text of any
    syntax tree. */
module JsonLanguage {
  import opened Bytes
  import opened Json
  import opened JsonParser
  import Utf8
  import Utf16

  // ----- White space and digits -----

  lemma {:induction false} SkipSpaceSound(s: bytes, i: nat)
    requires i <= |s|
    ensures Spaces(s[i..SkipSpace(s, i)]) && !IsSpace(At(s, SkipSpace(s, i)))
    decreases |s| - i
  {
    if IsSpace(At(s, i)) {
      SkipSpaceSound(s, i + 1);
      assert s[i..SkipSpace(s, i)] == [s[i]] + s[i + 1..SkipSpace(s, i)];
    }
  }

  lemma {:induction false} SkipSpaceComplete(p: bytes, s: bytes, i: nat)
    requires Spaces(p) && Occurs(p, s, i) && !IsSpace(At(s, i + |p|))
    ensures SkipSpace(s, i) == i + |p|
    decreases |p|
  {
    if p != [] {
      OccursAt(p, s, i);
      OccursSplit([p[0]], p[1..], s, i);
      assert [p[0]] + p[1..] == p;
      SkipSpaceComplete(p[1..], s, i + 1);
    }
  }

  lemma {:induction false} SkipDigitsSound(s: bytes, i: nat)
    requires i <= |s|
    ensures Digits(s[i..SkipDigits(s, i)])
    decreases |s| - i
  {
    if IsDigit(At(s, i)) {
      SkipDigitsSound(s, i + 1);
      assert s[i..SkipDigits(s, i)] == [s[i]] + s[i + 1..SkipDigits(s, i)];
    }
  }

  lemma {:induction false} SkipDigitsComplete(p: bytes, s: bytes, i: nat)
    requires Digits(p) && Occurs(p, s, i) && !IsDigit(At(s, i + |p|))
    ensures SkipDigits(s, i) == i + |p|
    decreases |p|
  {
    if p != [] {
      OccursAt(p, s, i);
      OccursSplit([p[0]], p[1..], s, i);
      assert [p[0]] + p[1..] == p;
      SkipDigitsComplete(p[1..], s, i + 1);
    }
  }

  lemma DigitsAtSound(s: bytes, i: nat)
    requires i <= |s| && DigitsAt(s, i).Some?
    ensures Digits(s[i..DigitsAt(s, i).value]) && s[i..DigitsAt(s, i).value] != []
  {
    SkipDigitsSound(s, i);
  }

  lemma DigitsAtComplete(p: bytes, s: bytes, i: nat)
    requires Digits(p) && p != [] && Occurs(p, s, i) && !IsDigit(At(s, i + |p|))
    ensures DigitsAt(s, i) == Some(i + |p|)
  {
    OccursAt(p, s, i);
    assert s[i + 0] == p[0];
    SkipDigitsComplete(p, s, i);
  }

  // ----- Numbers -----

  lemma FracSound(s: bytes, i: nat) returns (frac: Option<bytes>)
    requires i <= |s| && FracAt(s, i).Some?
    ensures frac.Some? ==> Digits(frac.value) && frac.value != []
    ensures s[i..FracAt(s, i).value] == FracText(frac)
  {
    frac := None;
    if At(s, i) == 0x2E {
      DigitsAtSound(s, i + 1);
      frac := Some(s[i + 1..FracAt(s, i).value]);
    }
  }

  lemma ExponentSound(s: bytes, i: nat) returns (exp: Option<Exponent>)
    requires i <= |s| && ExponentAt(s, i).Some?
    ensures exp.Some? ==> ExponentOk(exp.value)
    ensures s[i..ExponentAt(s, i).value] == ExponentText(exp)
  {
    exp := None;
    if At(s, i) == 0x45 || At(s, i) == 0x65 {
      var j, k := SignAt(s, i + 1), ExponentAt(s, i).value;
      DigitsAtSound(s, j);
      exp := Some(Exponent(s[i], s[i + 1..j], s[j..k]));
      assert s[i..k] == [s[i]] + s[i + 1..j] + s[j..k];
    }
  }

  lemma MagnitudeSound(s: bytes, i: nat, minus: bool) returns (n: Num)
    requires i <= |s| && MagnitudeAt(s, i).Some?
    ensures NumOk(n) && n.minus == minus && s[i..MagnitudeAt(s, i).value] == MagnitudeText(n)
  {
    var f := WholeAt(s, i).value;
    if At(s, i) != 0x30 {
      DigitsAtSound(s, i);
    }
    var frac := FracSound(s, f);
    var e := FracAt(s, f).value;
    var exp := ExponentSound(s, e);
    n := Num(minus, s[i..f], frac, exp);
    assert s[i..MagnitudeAt(s, i).value] == s[i..f] + s[f..e] + s[e..MagnitudeAt(s, i).value];
  }

  lemma NumberSound(s: bytes, i: nat) returns (n: Num)
    requires i <= |s| && NumberAt(s, i).Some?
    ensures NumOk(n) && s[i..NumberAt(s, i).value] == NumText(n)
  {
    if At(s, i) == 0x2D {
      n := MagnitudeSound(s, i + 1, true);
      assert s[i..NumberAt(s, i).value] == [s[i]] + s[i + 1..NumberAt(s, i).value];
    } else {
      n := MagnitudeSound(s, i, false);
    }
  }

  /** Whether a character can continue a number that is complete without it. */
  predicate ContinuesNumber(c: byte) {
    IsDigit(c) || c == 0x2E || c == 0x45 || c == 0x65
  }

  lemma FracComplete(frac: Option<bytes>, s: bytes, i: nat)
    requires frac.Some? ==> Digits(frac.value) && frac.value != []
    requires Occurs(FracText(frac), s, i)
    requires !IsDigit(At(s, i + |FracText(frac)|)) && (frac.None? ==> At(s, i) != 0x2E)
    ensures FracAt(s, i) == Some(i + |FracText(frac)|)
  {
    if frac.Some? {
      OccursSplit([0x2E], frac.value, s, i);
      OneOccurs(0x2E, s, i);
      DigitsAtComplete(frac.value, s, i + 1);
    }
  }

  lemma ExponentComplete(exp: Option<Exponent>, s: bytes, i: nat)
    requires exp.Some? ==> ExponentOk(exp.value)
    requires Occurs(ExponentText(exp), s, i)
    requires !ContinuesNumber(At(s, i + |ExponentText(exp)|))
    ensures ExponentAt(s, i) == Some(i + |ExponentText(exp)|)
    ensures exp.Some? ==> At(s, i) == exp.value.e
  {
    if exp.Some? {
      var x := exp.value;
      OccursSplit([x.e] + x.sign, x.digits, s, i);
      OccursSplit([x.e], x.sign, s, i);
      OneOccurs(x.e, s, i);
      OccursAt(x.digits, s, i + 1 + |x.sign|);
      assert s[i + 1 + |x.sign| + 0] == x.digits[0];
      if x.sign != [] {
        OccursAt(x.sign, s, i + 1);
        assert s[i + 1 + 0] == x.sign[0];
      }
      DigitsAtComplete(x.digits, s, i + 1 + |x.sign|);
    }
  }

  lemma WholeComplete(w: bytes, s: bytes, i: nat)
    requires Digits(w) && w != [] && (w[0] == 0x30 ==> |w| == 1)
    requires Occurs(w, s, i) && !IsDigit(At(s, i + |w|))
    ensures WholeAt(s, i) == Some(i + |w|) && IsDigit(At(s, i))
  {
    OccursAt(w, s, i);
    assert s[i + 0] == w[0];
    if w[0] != 0x30 {
      DigitsAtComplete(w, s, i);
    }
  }

  lemma MagnitudeComplete(n: Num, s: bytes, i: nat)
    requires NumOk(n) && Occurs(MagnitudeText(n), s, i) && !ContinuesNumber(At(s, i + |MagnitudeText(n)|))
    ensures MagnitudeAt(s, i) == Some(i + |MagnitudeText(n)|) && IsDigit(At(s, i))
  {
    var frac, exp := FracText(n.frac), ExponentText(n.exp);
    var f := i + |n.whole|;
    hide Occurs, WholeAt, FracAt, ExponentAt;
    OccursThree(n.whole, frac, exp, s, i);
    ExponentComplete(n.exp, s, f + |frac|);
    if n.frac.Some? {
      OccursAt(frac, s, f);
      assert s[f + 0] == 0x2E;
    }
    WholeComplete(n.whole, s, i);
    FracComplete(n.frac, s, f);
  }

  /** The text of a number parses in full, provided that the next character does not continue it. */
  lemma NumberComplete(n: Num, s: bytes, i: nat)
    requires NumOk(n) && Occurs(NumText(n), s, i) && !ContinuesNumber(At(s, i + |NumText(n)|))
    ensures NumberAt(s, i) == Some(i + |NumText(n)|)
    ensures IsDigit(At(s, i)) || At(s, i) == 0x2D
  {
    if n.minus {
      OccursSplit([0x2D], MagnitudeText(n), s, i);
      OneOccurs(0x2D, s, i);
      MagnitudeComplete(n, s, i + 1);
    } else {
      assert NumText(n) == MagnitudeText(n);
      MagnitudeComplete(n, s, i);
    }
  }

  // ----- Strings -----

  lemma UnicodeSound(s: bytes, i: nat) returns (c: Char)
    requires i + 2 <= |s| && s[i] == BACKSLASH && s[i + 1] == 0x75 && UnicodeAt(s, i + 2).Done?
    ensures CharOk(c) && s[i..UnicodeAt(s, i + 2).next] == CharText(c)
    ensures CharMeaning(c) == UnicodeAt(s, i + 2).value
  {
    var hex := s[i + 2..i + 6];
    if 0xD800 <= Utf16.HexValue(hex) <= 0xDFFF {
      c := PairSound(s, i);
    } else {
      c := Unicode(hex);
      assert s[i..i + 6] == [s[i], s[i + 1]] + hex;
    }
  }

  lemma PairSound(s: bytes, i: nat) returns (c: Char)
    requires i + 2 <= |s| && s[i] == BACKSLASH && s[i + 1] == 0x75 && UnicodeAt(s, i + 2).Done?
    requires 0xD800 <= Utf16.Hex16At(s, i + 2).value <= 0xDFFF
    ensures CharOk(c) && s[i..UnicodeAt(s, i + 2).next] == CharText(c)
    ensures CharMeaning(c) == UnicodeAt(s, i + 2).value
  {
    var high, low := s[i + 2..i + 6], s[i + 8..i + 12];
    PairMeaning(Utf16.Hex16At(s, i + 2).value, Utf16.Hex16At(s, i + 8).value);
    c := Pair(high, low);
    assert s[i..i + 12] == [s[i], s[i + 1]] + high + [s[i + 6], s[i + 7]] + low;
  }

  /** Section 2.2 of RFC 2781 in the arithmetic of the grammar. */
  lemma PairMeaning(h: Utf16.uint16, l: Utf16.uint16)
    ensures Utf16.FromSurrogates(h, l).Some? <==> Utf16.IsHigh(h) && Utf16.IsLow(l)
    ensures Utf16.FromSurrogates(h, l).Some? ==>
              && Utf16.FromSurrogates(h, l).value == 0x10000 + (h - 0xD800) * 0x400 + (l - 0xDC00)
              && Utf8.IsScalar(Utf16.FromSurrogates(h, l).value)
  {
    if Utf16.IsHigh(h) && Utf16.IsLow(l) {
      assert h as int % 0x400 == h - 0xD800 && l as int % 0x400 == l - 0xDC00;
    }
  }

  lemma CharSound(s: bytes, i: nat) returns (c: Char)
    requires i <= |s| && CharAt(s, i).Done? && At(s, i) != QUOTE
    ensures CharOk(c) && s[i..CharAt(s, i).next] == CharText(c) && CharMeaning(c) == CharAt(s, i).value
  {
    if s[i] == BACKSLASH {
      if At(s, i + 1) == 0x75 {
        c := UnicodeSound(s, i);
      } else {
        c := Escape(s[i + 1]);
      }
    } else {
      Utf8.ValidatedIsWritten(s, i);
      c := Plain(Utf8.ReadChar(s, i));
      assert Utf8.ReadChar(s, i) >= 0x20 by {
        PlainLead(Utf8.ReadChar(s, i));
      }
    }
  }

  /** Only the ASCII characters are encoded with an ASCII lead byte, their own code. */
  lemma PlainLead(u: int)
    requires Utf8.IsScalar(u)
    ensures if u <= 0x7F then Utf8.WriteChar(u) == [u] else Utf8.WriteChar(u)[0] > 0x7F
  {
  }

  /** A character followed by characters that parse. */
  lemma CharsStep(s: bytes, i: nat, c: Parsed<bytes>, rest: Parsed<bytes>)
    requires i <= |s| && At(s, i) != QUOTE && CharAt(s, i) == c && c.Done?
    requires CharsAt(s, c.next) == rest
    ensures CharsAt(s, i) == Prefixed(c.value, rest)
  {
  }

  lemma {:induction false} CharsSound(s: bytes, i: nat) returns (cs: seq<Char>)
    requires i <= |s| && CharsAt(s, i).Done?
    ensures CharsOk(cs) && s[i..CharsAt(s, i).next] == CharsText(cs) + [QUOTE]
    ensures CharsMeaning(cs) == CharsAt(s, i).value
    decreases |s| - i
  {
    hide CharAt, CharOk, CharText, CharMeaning;
    var end := CharsAt(s, i).next;
    if At(s, i) == QUOTE {
      cs := [];
    } else {
      var c := CharSound(s, i);
      var j := CharAt(s, i).next;
      var rest := CharsSound(s, j);
      CharsStep(s, i, CharAt(s, i), CharsAt(s, j));
      cs := [c] + rest;
      assert cs[1..] == rest;
      assert s[i..end] == s[i..j] + s[j..end];
    }
  }

  lemma StringSound(s: bytes, i: nat) returns (cs: seq<Char>)
    requires i <= |s| && StringAt(s, i).Done?
    ensures CharsOk(cs) && s[i..StringAt(s, i).next] == StringText(cs)
    ensures CharsMeaning(cs) == StringAt(s, i).value
  {
    cs := CharsSound(s, i + 1);
    var end := StringAt(s, i).next;
    assert s[i..end] == [s[i]] + s[i + 1..end];
  }

  lemma HexComplete(d: bytes, s: bytes, i: nat)
    requires IsHex4(d) && Occurs(d, s, i)
    ensures Utf16.Hex16At(s, i) == Some(Utf16.HexValue(d))
  {
    Utf16.FourDigits(d);
  }

  lemma EscapeOccurs(s: bytes, i: nat, letter: byte, t: bytes)
    requires Occurs([BACKSLASH, letter] + t, s, i)
    ensures At(s, i) == BACKSLASH && At(s, i + 1) == letter && Occurs(t, s, i + 2)
  {
    OccursSplit([BACKSLASH, letter], t, s, i);
    OccursAt([BACKSLASH, letter], s, i);
    assert s[i + 0] == BACKSLASH && s[i + 1] == letter;
  }

  lemma PairComplete(high: bytes, low: bytes, s: bytes, i: nat)
    requires CharOk(Pair(high, low)) && Occurs(CharText(Pair(high, low)), s, i)
    ensures CharAt(s, i) == Done(CharMeaning(Pair(high, low)), i + 12) && At(s, i) == BACKSLASH
  {
    hide Utf8.WriteChar, Utf16.FromSurrogates, Occurs;
    var h, l := Utf16.HexValue(high), Utf16.HexValue(low);
    Utf16.FourDigits(high);
    Utf16.FourDigits(low);
    assert CharText(Pair(high, low)) == [BACKSLASH, 0x75] + (high + ([BACKSLASH, 0x75] + low));
    EscapeOccurs(s, i, 0x75, high + ([BACKSLASH, 0x75] + low));
    OccursSplit(high, [BACKSLASH, 0x75] + low, s, i + 2);
    EscapeOccurs(s, i + 6, 0x75, low);
    HexComplete(high, s, i + 2);
    HexComplete(low, s, i + 8);
    PairMeaning(h, l);
  }

  lemma CharComplete(c: Char, s: bytes, i: nat)
    requires CharOk(c) && Occurs(CharText(c), s, i)
    ensures CharAt(s, i) == Done(CharMeaning(c), i + |CharText(c)|) && At(s, i) != QUOTE
  {
    match c
    case Plain(u) =>
      OccursAt(CharText(c), s, i);
      assert s[i + 0] == CharText(c)[0];
      PlainLead(u);
      Utf8.WrittenIsValidated(u, s, i);
    case Escape(letter) =>
      EscapeOccurs(s, i, letter, []);
    case Unicode(hex) =>
      EscapeOccurs(s, i, 0x75, hex);
      HexComplete(hex, s, i + 2);
    case Pair(high, low) =>
      PairComplete(high, low, s, i);
  }

  lemma {:induction false} CharsComplete(cs: seq<Char>, s: bytes, i: nat)
    requires CharsOk(cs) && Occurs(CharsText(cs) + [QUOTE], s, i)
    ensures CharsAt(s, i) == Done(CharsMeaning(cs), i + |CharsText(cs)| + 1)
    decreases |cs|
  {
    hide CharAt, CharMeaning, CharText, CharOk;
    if cs == [] {
      OccursAt([QUOTE], s, i);
      assert CharsText(cs) + [QUOTE] == [QUOTE];
      assert s[i + 0] == QUOTE;
    } else {
      var first, rest := CharText(cs[0]), cs[1..];
      assert CharsText(cs) + [QUOTE] == first + (CharsText(rest) + [QUOTE]);
      OccursSplit(first, CharsText(rest) + [QUOTE], s, i);
      CharComplete(cs[0], s, i);
      CharsComplete(rest, s, i + |first|);
      CharsStep(s, i, CharAt(s, i), CharsAt(s, i + |first|));
    }
  }

  /** The text of a string literal parses in full, whatever follows. */
  lemma StringComplete(cs: seq<Char>, s: bytes, i: nat)
    requires CharsOk(cs) && Occurs(StringText(cs), s, i)
    ensures StringAt(s, i) == Done(CharsMeaning(cs), i + |StringText(cs)|) && At(s, i) == QUOTE
  {
    assert StringText(cs) == [QUOTE] + (CharsText(cs) + [QUOTE]);
    OccursSplit([QUOTE], CharsText(cs) + [QUOTE], s, i);
    OneOccurs(QUOTE, s, i);
    CharsComplete(cs, s, i + 1);
  }

  // ----- Values: soundness -----

  lemma {:induction false} ValueSound(s: bytes, i: nat) returns (t: Syntax)
    requires i <= |s| && ValueAt(s, i).Done?
    ensures SyntaxOk(t) && s[i..ValueAt(s, i).next] == SyntaxText(t) && Meaning(t) == ValueAt(s, i).value
    decreases |s| - i, 0
  {
    hide StringAt, NumberAt, ContainerAt, StringText, NumText;
    var c := At(s, i);
    if c == 0x6E {
      t := SNull;
    } else if c == 0x66 {
      t := SFalse;
    } else if c == 0x74 {
      t := STrue;
    } else if c == QUOTE {
      var cs := StringSound(s, i);
      t := SString(cs);
    } else if c == Open(false) || c == Open(true) {
      t := ContainerSound(s, i + 1, c == Open(true));
      assert s[i..ValueAt(s, i).next] == [s[i]] + s[i + 1..ValueAt(s, i).next];
    } else {
      var n := NumberSound(s, i);
      t := SNumber(n);
    }
  }

  lemma {:induction false} ContainerSound(s: bytes, i: nat, isObject: bool) returns (t: Syntax)
    requires i <= |s| && ContainerAt(s, i, isObject).Done?
    ensures SyntaxOk(t) && [Open(isObject)] + s[i..ContainerAt(s, i, isObject).next] == SyntaxText(t)
    ensures Meaning(t) == ContainerAt(s, i, isObject).value
    decreases |s| - i, 3
  {
    hide ItemsAt;
    var j, end := SkipSpace(s, i), ContainerAt(s, i, isObject).next;
    SkipSpaceSound(s, i);
    assert s[i..end] == s[i..j] + s[j..end];
    if At(s, j) == Close(isObject) {
      t := SContainer(isObject, s[i..j], []);
      assert s[j..end] == [Close(isObject)];
    } else {
      var items := ItemsSound(s, i, isObject);
      t := SContainer(isObject, [], items);
    }
  }

  lemma OneItem(x: Item, isObject: bool)
    requires ItemOk(x, isObject)
    ensures ItemsOk([x], isObject) && ItemsText([x], isObject) == ItemText(x, isObject) + [Close(isObject)]
    ensures ItemsMeaning([x], isObject) == [ItemMeaning(x, isObject)]
  {
    hide ItemOk, ItemText, ItemMeaning;
    assert [x][1..] == [];
  }

  lemma MoreItems(x: Item, rest: seq<Item>, isObject: bool)
    requires ItemOk(x, isObject) && ItemsOk(rest, isObject) && rest != []
    ensures ItemsOk([x] + rest, isObject)
    ensures ItemsText([x] + rest, isObject) == ItemText(x, isObject) + [COMMA] + ItemsText(rest, isObject)
    ensures ItemsMeaning([x] + rest, isObject) == [ItemMeaning(x, isObject)] + ItemsMeaning(rest, isObject)
  {
    hide ItemOk, ItemText, ItemMeaning;
    assert ([x] + rest)[1..] == rest;
  }

  /** The items from position `i`, the white space in front of the first one included. */
  lemma {:induction false} ItemsSound(s: bytes, i: nat, isObject: bool) returns (items: seq<Item>)
    requires i <= |s| && ItemsAt(s, SkipSpace(s, i), isObject).Done?
    ensures items != [] && ItemsOk(items, isObject)
    ensures s[i..ItemsAt(s, SkipSpace(s, i), isObject).next] == ItemsText(items, isObject)
    ensures ItemsMeaning(items, isObject) == ItemsAt(s, SkipSpace(s, i), isObject).value
    decreases |s| - i, 2
  {
    hide ItemAt, ItemText, ItemOk, ItemMeaning, ItemsOk, ItemsText, ItemsMeaning, SkipSpace;
    var j := SkipSpace(s, i);
    var x := ItemSound(s, i, isObject);
    var k, end := ItemAt(s, j, isObject).next, ItemsAt(s, j, isObject).next;
    assert s[i..end] == s[i..k] + [s[k]] + s[k + 1..end];
    if At(s, k) == Close(isObject) {
      items := [x];
      OneItem(x, isObject);
    } else {
      var rest := ItemsSound(s, k + 1, isObject);
      items := [x] + rest;
      MoreItems(x, rest, isObject);
    }
  }

  lemma {:induction false} ItemSound(s: bytes, i: nat, isObject: bool) returns (x: Item)
    requires i <= |s| && ItemAt(s, SkipSpace(s, i), isObject).Done?
    ensures ItemOk(x, isObject)
    ensures s[i..ItemAt(s, SkipSpace(s, i), isObject).next] == ItemText(x, isObject)
    ensures ItemMeaning(x, isObject) == ItemAt(s, SkipSpace(s, i), isObject).value
    decreases |s| - i, 1
  {
    hide ValueAt, SkipSpace, SyntaxText, SyntaxOk, Meaning, StringAt, KeyAt, KeyText, Spaces;
    var j := SkipSpace(s, i);
    SkipSpaceSound(s, i);
    var k := j;
    var key: Option<Key> := None;
    if isObject {
      var y := KeySound(s, j);
      key, k := Some(y), KeyAt(s, j).next;
    }
    var value := ValueSound(s, k);
    var e := ValueAt(s, k).next;
    SkipSpaceSound(s, e);
    var end := SkipSpace(s, e);
    x := Item(s[i..j], key, value, s[e..end]);
    assert s[i..end] == s[i..j] + s[j..k] + s[k..e] + s[e..end];
    if !isObject {
      NoKey();
      assert s[j..k] == [];
    }
  }

  lemma KeySound(s: bytes, i: nat) returns (y: Key)
    requires i <= |s| && KeyAt(s, i).Done?
    ensures CharsOk(y.chars) && Spaces(y.before) && Spaces(y.after)
    ensures s[i..KeyAt(s, i).next] == KeyText(Some(y)) && CharsMeaning(y.chars) == KeyAt(s, i).value
  {
    hide StringAt, SkipSpace;
    var cs := StringSound(s, i);
    var j := StringAt(s, i).next;
    var k := SkipSpace(s, j);
    var end := SkipSpace(s, k + 1);
    SkipSpaceSound(s, j);
    SkipSpaceSound(s, k + 1);
    y := Key(cs, s[j..k], s[k + 1..end]);
    assert s[i..end] == s[i..j] + s[j..k] + [s[k]] + s[k + 1..end];
  }

  // ----- Values: completeness -----

  /** The characters that a value can start with. */
  predicate StartsValue(c: byte) {
    c == 0x6E || c == 0x66 || c == 0x74 || c == QUOTE || c == Open(false) || c == Open(true) || IsDigit(c) || c == 0x2D
  }

  lemma FirstOccurs(c: byte, t: bytes, s: bytes, i: nat)
    requires Occurs([c] + t, s, i)
    ensures At(s, i) == c && Occurs(t, s, i + 1)
  {
    OccursSplit([c], t, s, i);
    OneOccurs(c, s, i);
  }

  lemma OneOccurs(c: byte, s: bytes, i: nat)
    requires Occurs([c], s, i)
    ensures At(s, i) == c
  {
    OccursAt([c], s, i);
    assert s[i + 0] == c;
  }

  /** The text of a value parses in full to what it means; a number needs a character behind it that
      does not continue it. */
  lemma {:induction false} ValueComplete(t: Syntax, s: bytes, i: nat)
    requires SyntaxOk(t) && Occurs(SyntaxText(t), s, i)
    requires t.SNumber? ==> !ContinuesNumber(At(s, i + |SyntaxText(t)|))
    ensures ValueAt(s, i) == Done(Meaning(t), i + |SyntaxText(t)|) && StartsValue(At(s, i))
    decreases t, 1
  {
    match t
    case SNull =>
      OccursAt(NULL_TEXT, s, i);
      assert s[i + 0] == 0x6E;
    case STrue =>
      OccursAt(TRUE_TEXT, s, i);
      assert s[i + 0] == 0x74;
    case SFalse =>
      OccursAt(FALSE_TEXT, s, i);
      assert s[i + 0] == 0x66;
    case SString(chars) =>
      StringComplete(chars, s, i);
    case SNumber(num) =>
      NumberComplete(num, s, i);
    case SContainer(isObject, pad, items) =>
      ContainerComplete(isObject, pad, items, s, i);
  }

  lemma {:induction false} ContainerComplete(isObject: bool, pad: bytes, items: seq<Item>, s: bytes, i: nat)
    requires Spaces(pad) && ItemsOk(items, isObject)
    requires Occurs(SyntaxText(SContainer(isObject, pad, items)), s, i)
    ensures At(s, i) == Open(isObject)
    ensures ContainerAt(s, i + 1, isObject)
         == Done(Container(isObject, ItemsMeaning(items, isObject)), i + |SyntaxText(SContainer(isObject, pad, items))|)
    decreases items, 1
  {
    hide ItemsAt, ItemsText, SkipSpace;
    var body := if items == [] then pad + [Close(isObject)] else ItemsText(items, isObject);
    FirstOccurs(Open(isObject), body, s, i);
    if items == [] {
      OccursSplit(pad, [Close(isObject)], s, i + 1);
      OneOccurs(Close(isObject), s, i + 1 + |pad|);
      SkipSpaceComplete(pad, s, i + 1);
    } else {
      ItemsComplete(items, isObject, s, i + 1);
    }
  }

  lemma {:induction false} ItemsComplete(items: seq<Item>, isObject: bool, s: bytes, i: nat)
    requires items != [] && ItemsOk(items, isObject) && Occurs(ItemsText(items, isObject), s, i)
    ensures StartsValue(At(s, SkipSpace(s, i)))
    ensures ItemsAt(s, SkipSpace(s, i), isObject)
         == Done(ItemsMeaning(items, isObject), i + |ItemsText(items, isObject)|)
    decreases items, 0
  {
    hide ItemAt, ItemText, ItemOk, ItemMeaning, ItemsText, ItemsMeaning, SkipSpace, Occurs;
    var x, rest := items[0], items[1..];
    var t := ItemText(x, isObject);
    assert items == [x] + rest;
    if rest == [] {
      assert items == [x];
      OneItem(x, isObject);
      OccursSplit(t, [Close(isObject)], s, i);
      OneOccurs(Close(isObject), s, i + |t|);
      ItemComplete(x, isObject, s, i);
    } else {
      MoreItems(x, rest, isObject);
      assert ItemsText(items, isObject) == t + ([COMMA] + ItemsText(rest, isObject));
      OccursSplit(t, [COMMA] + ItemsText(rest, isObject), s, i);
      FirstOccurs(COMMA, ItemsText(rest, isObject), s, i + |t|);
      ItemComplete(x, isObject, s, i);
      ItemsComplete(rest, isObject, s, i + |t| + 1);
    }
  }

  lemma {:induction false} ItemComplete(x: Item, isObject: bool, s: bytes, i: nat)
    requires ItemOk(x, isObject) && Occurs(ItemText(x, isObject), s, i)
    requires At(s, i + |ItemText(x, isObject)|) in {Close(isObject), COMMA}
    ensures StartsValue(At(s, SkipSpace(s, i)))
    ensures ItemAt(s, SkipSpace(s, i), isObject) == Done(ItemMeaning(x, isObject), i + |ItemText(x, isObject)|)
    decreases x, 2
  {
    hide ValueAt, SkipSpace, SyntaxText, SyntaxOk, Meaning, KeyText, KeyAt, Occurs, Spaces;
    var k := KeyText(x.key);
    var j := i + |x.pre|;
    OccursFour(x.pre, k, SyntaxText(x.value), x.post, s, i);
    PaddedComplete(x, isObject, s, j + |k|);
    if isObject {
      KeyComplete(x.key.value, s, j);
    } else {
      NoKey();
    }
    SkipSpaceComplete(x.pre, s, i);
  }

  lemma NoKey()
    ensures KeyText(None) == []
  {
  }

  lemma {:induction false} PaddedComplete(x: Item, isObject: bool, s: bytes, i: nat)
    requires ItemOk(x, isObject)
    requires Occurs(SyntaxText(x.value), s, i) && Occurs(x.post, s, i + |SyntaxText(x.value)|)
    requires At(s, i + |SyntaxText(x.value)| + |x.post|) in {Close(isObject), COMMA}
    ensures StartsValue(At(s, i))
    ensures ValueAt(s, i) == Done(Meaning(x.value), i + |SyntaxText(x.value)|)
    ensures SkipSpace(s, i + |SyntaxText(x.value)|) == i + |SyntaxText(x.value)| + |x.post|
    decreases x, 1
  {
    hide ValueAt, SkipSpace, SyntaxText, SyntaxOk, Meaning;
    var e := i + |SyntaxText(x.value)|;
    if x.post != [] {
      OccursAt(x.post, s, e);
      assert s[e + 0] == x.post[0];
    }
    ValueComplete(x.value, s, i);
    SkipSpaceComplete(x.post, s, e);
  }

  lemma NoSpaces()
    ensures !IsSpace(COLON) && !IsSpace(COMMA) && !IsSpace(Close(false)) && !IsSpace(Close(true)) && !IsSpace(0)
  {
  }

  lemma KeyComplete(y: Key, s: bytes, i: nat)
    requires CharsOk(y.chars) && Spaces(y.before) && Spaces(y.after)
    requires Occurs(KeyText(Some(y)), s, i)
    requires !IsSpace(At(s, i + |KeyText(Some(y))|))
    ensures KeyAt(s, i) == Done(CharsMeaning(y.chars), i + |KeyText(Some(y))|) && At(s, i) == QUOTE
  {
    hide StringAt, SkipSpace, StringText, Occurs, IsSpace, Spaces;
    var t := StringText(y.chars);
    var j := i + |t|;
    var k := j + |y.before|;
    OccursFour(t, y.before, [COLON], y.after, s, i);
    assert !IsSpace(COLON) by { NoSpaces(); }
    OneOccurs(COLON, s, k);
    StringComplete(y.chars, s, i);
    SkipSpaceComplete(y.before, s, j);
    SkipSpaceComplete(y.after, s, k + 1);
  }

  // ----- The language -----

  /** json_decode accepts exactly the JSON texts of the grammar, and returns the tree they denote. */
  lemma DecodeIsExact(s: bytes, v: Tree)
    requires CString(s)
    ensures Decoded(s) == Some(v) <==> Denotes(s, v)
  {
    if Decoded(s) == Some(v) {
      DecodeSound(s);
    }
    if Denotes(s, v) {
      var d: Document :| DocumentOk(d) && DocumentText(d) == s && Meaning(d.value) == v;
      DecodeComplete(d);
    }
  }

  lemma DecodeSound(s: bytes)
    requires CString(s) && Decoded(s).Some?
    ensures Denotes(s, Decoded(s).value)
  {
    hide ValueAt, SkipSpace, SyntaxOk, SyntaxText, Meaning, Spaces;
    var i := SkipSpace(s, 0);
    SkipSpaceSound(s, 0);
    var t := ValueSound(s, i);
    var j := ValueAt(s, i).next;
    SkipSpaceSound(s, j);
    assert SkipSpace(s, j) == |s|;
    var d := Document(s[0..i], t, s[j..|s|]);
    assert DocumentText(d) == s[0..i] + s[i..j] + s[j..|s|] == s;
    assert DocumentOk(d);
  }

  lemma DecodeComplete(d: Document)
    requires DocumentOk(d) && CString(DocumentText(d))
    ensures Decoded(DocumentText(d)) == Some(Meaning(d.value))
  {
    hide ValueAt, SkipSpace, SyntaxText;
    var s := DocumentText(d);
    var i := |d.pre|;
    var j := i + |SyntaxText(d.value)|;
    OccursSplit(d.pre + SyntaxText(d.value), d.post, s, 0);
    OccursSplit(d.pre, SyntaxText(d.value), s, 0);
    if d.post != [] {
      OccursAt(d.post, s, j);
      assert s[j + 0] == d.post[0];
    }
    ValueComplete(d.value, s, i);
    SkipSpaceComplete(d.pre, s, 0);
    SkipSpaceComplete(d.post, s, j);
  }

  /** The grammar is unambiguous: a text denotes at most one tree. */
  lemma GrammarIsUnambiguous(s: bytes, v: Tree, w: Tree)
    requires CString(s) && Denotes(s, v) && Denotes(s, w)
    ensures v == w
  {
    DecodeIsExact(s, v);
    DecodeIsExact(s, w);
  }
}
