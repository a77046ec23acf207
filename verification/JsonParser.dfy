/** The parser of the JSON library. Each parse_* function appears twice: as a function on the text and
    a position, which says what is accepted, and as the method that advances a position step by step,
    proved to compute that function. `JsonLanguage` relates the functions to the grammar. */
module JsonParser {
  import opened Bytes
  import opened Json
  import opened JsonNodes
  import opened JsonTrees
  import JsonDelete
  import opened StringBuffers
  import Utf8
  import Utf16

  /** Result of parsing from a position: a value and the position behind it, or failure. */
  datatype Parsed<+T> = Fail | Done(value: T, next: nat)

  // ----- White space, literals, numbers -----

  /** skip_space */
  function SkipSpace(s: bytes, i: nat): (j: nat)
    requires i <= |s|
    ensures i <= j <= |s|
    decreases |s| - i
  {
    if IsSpace(At(s, i)) then SkipSpace(s, i + 1) else i
  }

  /** The end of the run of digits at `i`. */
  function SkipDigits(s: bytes, i: nat): (j: nat)
    requires i <= |s|
    ensures i <= j <= |s|
    decreases |s| - i
  {
    if IsDigit(At(s, i)) then SkipDigits(s, i + 1) else i
  }

  /** One or more digits at `i`. */
  function DigitsAt(s: bytes, i: nat): (r: Option<nat>)
    requires i <= |s|
    ensures r.Some? ==> i < r.value <= |s|
  {
    if IsDigit(At(s, i)) then Some(SkipDigits(s, i)) else None
  }

  function WholeAt(s: bytes, i: nat): (r: Option<nat>)
    requires i <= |s|
    ensures r.Some? ==> i < r.value <= |s|
  {
    if At(s, i) == 0x30 then Some(i + 1) else DigitsAt(s, i)
  }

  function FracAt(s: bytes, i: nat): (r: Option<nat>)
    requires i <= |s|
    ensures r.Some? ==> i <= r.value <= |s|
  {
    if At(s, i) == 0x2E then DigitsAt(s, i + 1) else Some(i)
  }

  function SignAt(s: bytes, i: nat): (j: nat)
    requires i <= |s|
    ensures i <= j <= |s|
  {
    if At(s, i) == 0x2B || At(s, i) == 0x2D then i + 1 else i
  }

  function ExponentAt(s: bytes, i: nat): (r: Option<nat>)
    requires i <= |s|
    ensures r.Some? ==> i <= r.value <= |s|
  {
    if At(s, i) == 0x45 || At(s, i) == 0x65 then DigitsAt(s, SignAt(s, i + 1)) else Some(i)
  }

  /** A number without its sign. */
  function MagnitudeAt(s: bytes, i: nat): (r: Option<nat>)
    requires i <= |s|
    ensures r.Some? ==> i < r.value <= |s|
  {
    var w := WholeAt(s, i);
    if w.None? then None else
    var f := FracAt(s, w.value);
    if f.None? then None else ExponentAt(s, f.value)
  }

  /** parse_number: the end of the number at `i`. */
  function NumberAt(s: bytes, i: nat): (r: Option<nat>)
    requires i <= |s|
    ensures r.Some? ==> i < r.value <= |s|
  {
    MagnitudeAt(s, if At(s, i) == 0x2D then i + 1 else i)
  }

  /** number_is_valid */
  predicate NumberIsValid(text: bytes) {
    NumberAt(text, 0) == Some(|text|)
  }

  // ----- Strings -----

  /** One iteration of the loop of parse_string, at a character other than the closing quote. */
  function CharAt(s: bytes, i: nat): (r: Parsed<bytes>)
    requires i <= |s|
    ensures r.Done? ==> i < r.next <= |s| && |r.value| <= 4
  {
    var c := At(s, i);
    if c == BACKSLASH then
      if At(s, i + 1) == 0x75 then UnicodeAt(s, i + 2)
      else
        var m := EscapeMeaning(At(s, i + 1));
        if m.Some? then Done([m.value], i + 2) else Fail
    else if c <= 0x1F then Fail
    else
      var len := Utf8.ValidateChar(s, i);
      if len == 0 then Fail else Done(s[i..i + len], i + len)
  }

  /** The case of `\u`, behind the `u`. */
  function UnicodeAt(s: bytes, i: nat): (r: Parsed<bytes>)
    requires i <= |s|
    ensures r.Done? ==> i < r.next <= |s| && |r.value| <= 4
  {
    var uc := Utf16.Hex16At(s, i);
    if uc.None? then Fail
    else if 0xD800 <= uc.value <= 0xDFFF then
      if At(s, i + 4) != BACKSLASH then Fail
      else if At(s, i + 5) != 0x75 then Fail
      else
        var lc := Utf16.Hex16At(s, i + 6);
        if lc.None? then Fail else
        var u := Utf16.FromSurrogates(uc.value, lc.value);
        if u.None? then Fail
        else (Utf16.CodePointOfSurrogates(uc.value, lc.value); Done(Utf8.WriteChar(u.value), i + 10))
    else if uc.value == 0 then Fail
    else Done(Utf8.WriteChar(uc.value), i + 4)
  }

  /** The characters up to and including the closing quote. */
  function CharsAt(s: bytes, i: nat): (r: Parsed<bytes>)
    requires i <= |s|
    ensures r.Done? ==> i < r.next <= |s|
    decreases |s| - i
  {
    if At(s, i) == QUOTE then Done([], i + 1)
    else
      var c := CharAt(s, i);
      if c.Fail? then Fail else
      var rest := CharsAt(s, c.next);
      if rest.Fail? then Fail else Done(c.value + rest.value, rest.next)
  }

  /** parse_string */
  function StringAt(s: bytes, i: nat): (r: Parsed<bytes>)
    requires i <= |s|
    ensures r.Done? ==> i < r.next <= |s|
  {
    if At(s, i) != QUOTE then Fail else CharsAt(s, i + 1)
  }

  // ----- Values -----

  /** parse_value */
  function ValueAt(s: bytes, i: nat): (r: Parsed<Tree>)
    requires i <= |s|
    ensures r.Done? ==> i < r.next <= |s|
    decreases |s| - i, 0
  {
    var c := At(s, i);
    if c == 0x6E then if Occurs(NULL_TEXT, s, i) then Done(Null, i + 4) else Fail
    else if c == 0x66 then if Occurs(FALSE_TEXT, s, i) then Done(Bool(false), i + 5) else Fail
    else if c == 0x74 then if Occurs(TRUE_TEXT, s, i) then Done(Bool(true), i + 4) else Fail
    else if c == QUOTE then
      var r := StringAt(s, i);
      if r.Fail? then Fail else Done(String(r.value), r.next)
    else if c == Open(false) then ContainerAt(s, i + 1, false)
    else if c == Open(true) then ContainerAt(s, i + 1, true)
    else
      var r := NumberAt(s, i);
      if r.None? then Fail else Done(Number(s[i..r.value]), r.value)
  }

  /** parse_array and parse_object, behind the opening bracket. */
  function ContainerAt(s: bytes, i: nat, isObject: bool): (r: Parsed<Tree>)
    requires i <= |s|
    ensures r.Done? ==> i < r.next <= |s|
    decreases |s| - i, 3
  {
    var j := SkipSpace(s, i);
    if At(s, j) == Close(isObject) then Done(Container(isObject, []), j + 1)
    else
      var r := ItemsAt(s, j, isObject);
      if r.Fail? then Fail else Done(Container(isObject, r.value), r.next)
  }

  /** The loop of parse_array and parse_object: items separated by commas, then the closing bracket. */
  function ItemsAt(s: bytes, i: nat, isObject: bool): (r: Parsed<seq<Child>>)
    requires i <= |s|
    ensures r.Done? ==> i < r.next <= |s|
    decreases |s| - i, 2
  {
    var x := ItemAt(s, i, isObject);
    if x.Fail? then Fail
    else if At(s, x.next) == Close(isObject) then Done([x.value], x.next + 1)
    else if At(s, x.next) != COMMA then Fail
    else
      var rest := ItemsAt(s, SkipSpace(s, x.next + 1), isObject);
      if rest.Fail? then Fail else Done([x.value] + rest.value, rest.next)
  }

  /** One element, or one member, with the white space behind it. */
  function ItemAt(s: bytes, i: nat, isObject: bool): (r: Parsed<Child>)
    requires i <= |s|
    ensures r.Done? ==> i < r.next <= |s|
    decreases |s| - i, 1
  {
    if isObject then
      var k := KeyAt(s, i);
      if k.Fail? then Fail else
      var v := ValueAt(s, k.next);
      if v.Fail? then Fail else Done(Child(Some(k.value), v.value), SkipSpace(s, v.next))
    else
      var v := ValueAt(s, i);
      if v.Fail? then Fail else Done(Child(None, v.value), SkipSpace(s, v.next))
  }

  /** A member name with its colon and the white space behind the colon. */
  function KeyAt(s: bytes, i: nat): (r: Parsed<bytes>)
    requires i <= |s|
    ensures r.Done? ==> i < r.next <= |s|
  {
    var k := StringAt(s, i);
    if k.Fail? then Fail else
    var j := SkipSpace(s, k.next);
    if At(s, j) != COLON then Fail else Done(k.value, SkipSpace(s, j + 1))
  }

  /** json_decode */
  function Decoded(s: bytes): (r: Option<Tree>)
    requires CString(s)
  {
    var v := ValueAt(s, SkipSpace(s, 0));
    if v.Done? && At(s, SkipSpace(s, v.next)) == 0 then Some(v.value) else None
  }

  // ----- The parser as it runs: a position that advances over the text -----

  method SkipSpaces(s: bytes, sp: nat) returns (p: nat)
    requires sp <= |s|
    ensures p == SkipSpace(s, sp)
  {
    p := sp;
    while IsSpace(At(s, p))
      invariant sp <= p <= |s| && SkipSpace(s, p) == SkipSpace(s, sp)
      decreases |s| - p
    {
      p := p + 1;
    }
  }

  /** expect_literal */
  method ExpectLiteral(s: bytes, sp: nat, str: bytes) returns (ok: bool, next: nat)
    requires sp <= |s| && CString(str)
    ensures ok == Occurs(str, s, sp)
    ensures next == if ok then sp + |str| else sp
  {
    var p, q := sp, 0;
    while At(str, q) != 0
      invariant q <= |str| && p == sp + q <= |s| && s[sp..p] == str[..q]
      decreases |str| - q
    {
      if At(s, p) != At(str, q) {
        DiffersAt(str, s, sp, q);
        return false, sp;
      }
      assert s[sp..p + 1] == s[sp..p] + [s[p]] && str[..q + 1] == str[..q] + [str[q]];
      p, q := p + 1, q + 1;
    }
    return true, p;
  }

  method SkipOverDigits(s: bytes, sp: nat) returns (ok: bool, p: nat)
    requires sp <= |s|
    ensures ok == DigitsAt(s, sp).Some?
    ensures ok ==> DigitsAt(s, sp) == Some(p)
  {
    p := sp;
    if !IsDigit(At(s, p)) {
      return false, p;
    }
    p := p + 1;
    while IsDigit(At(s, p))
      invariant sp < p <= |s| && SkipDigits(s, p) == SkipDigits(s, sp)
      decreases |s| - p
    {
      p := p + 1;
    }
    return true, p;
  }

  /** parse_number */
  method ParseNumber(s: bytes, sp: nat) returns (ok: bool, next: nat)
    requires sp <= |s|
    ensures ok == NumberAt(s, sp).Some?
    ensures next == if ok then NumberAt(s, sp).value else sp
  {
    hide DigitsAt;
    var p := sp;
    if At(s, p) == 0x2D {
      p := p + 1;
    }
    if At(s, p) == 0x30 {
      p := p + 1;
    } else {
      ok, p := SkipOverDigits(s, p);
      if !ok {
        return false, sp;
      }
    }
    if At(s, p) == 0x2E {
      ok, p := SkipOverDigits(s, p + 1);
      if !ok {
        return false, sp;
      }
    }
    if At(s, p) == 0x45 || At(s, p) == 0x65 {
      p := p + 1;
      if At(s, p) == 0x2B || At(s, p) == 0x2D {
        p := p + 1;
      }
      ok, p := SkipOverDigits(s, p);
      if !ok {
        return false, sp;
      }
    }
    return true, p;
  }

  /** utf8_write_char into a buffer. */
  method PutUtf8(u: int, out: array<byte>, b: nat) returns (end: nat)
    requires Utf8.IsScalar(u) && b + 4 <= out.Length
    modifies out
    ensures end == b + |Utf8.WriteChar(u)| && out[..end] == old(out[..b]) + Utf8.WriteChar(u)
  {
    var t := Utf8.WriteChar(u);
    forall k | 0 <= k < |t| {
      out[b + k] := t[k];
    }
    end := b + |t|;
  }

  /** The body of the loop of parse_string. The four bytes that sb_need reserves before every
      iteration are enough: no branch writes beyond `out[b + 3]`. */
  method ParseChar(s: bytes, sp: nat, out: array<byte>, b: nat) returns (ok: bool, next: nat, end: nat)
    requires sp <= |s| && b + 4 <= out.Length
    modifies out
    ensures ok == CharAt(s, sp).Done?
    ensures ok ==> next == CharAt(s, sp).next && end == b + |CharAt(s, sp).value| <= b + 4
    ensures ok ==> out[..end] == old(out[..b]) + CharAt(s, sp).value
  {
    var c := At(s, sp);
    end := b;
    if c == BACKSLASH {
      var e := At(s, sp + 1);
      if e == 0x75 {
        ok, next, end := ParseUnicode(s, sp + 2, out, b);
      } else {
        var m := EscapeMeaning(e);
        if m.None? {
          return false, sp, b;
        }
        out[b] := m.value;
        return true, sp + 2, b + 1;
      }
    } else if c <= 0x1F {
      return false, sp, b;
    } else {
      var len := Utf8.ValidateChar(s, sp);
      if len == 0 {
        return false, sp, b;
      }
      var k := 0;
      while k < len
        invariant k <= len && out[..b + k] == old(out[..b]) + s[sp..sp + k]
      {
        out[b + k] := s[sp + k];
        k := k + 1;
      }
      return true, sp + len, b + len;
    }
  }

  /** The `\u` case of parse_string. */
  method ParseUnicode(s: bytes, sp: nat, out: array<byte>, b: nat) returns (ok: bool, next: nat, end: nat)
    requires sp <= |s| && b + 4 <= out.Length
    modifies out
    ensures ok == UnicodeAt(s, sp).Done?
    ensures ok ==> next == UnicodeAt(s, sp).next && end == b + |UnicodeAt(s, sp).value| <= b + 4
    ensures ok ==> out[..end] == old(out[..b]) + UnicodeAt(s, sp).value
  {
    var uc, p := Utf16.ParseHex16(s, sp);
    if uc.None? {
      return false, sp, b;
    }
    var u: int := uc.value;
    if 0xD800 <= u <= 0xDFFF {
      if At(s, p) != BACKSLASH {
        return false, sp, b;
      }
      p := p + 1;
      if At(s, p) != 0x75 {
        return false, sp, b;
      }
      var lc, q := Utf16.ParseHex16(s, p + 1);
      if lc.None? {
        return false, sp, b;
      }
      var full := Utf16.FromSurrogates(uc.value, lc.value);
      if full.None? {
        return false, sp, b;
      }
      Utf16.CodePointOfSurrogates(uc.value, lc.value);
      u, p := full.value, q;
    } else if u == 0 {
      return false, sp, b;
    }
    end := PutUtf8(u, out, b);
    return true, p, end;
  }

  /** Parsed characters contain no NUL, so the result is a C string. */
  lemma CharIsCString(s: bytes, i: nat)
    requires i <= |s| && CharAt(s, i).Done?
    ensures CString(CharAt(s, i).value)
  {
  }

  lemma {:induction false} CharsAreCString(s: bytes, i: nat)
    requires i <= |s| && CharsAt(s, i).Done?
    ensures CString(CharsAt(s, i).value)
    decreases |s| - i
  {
    if At(s, i) != QUOTE {
      CharIsCString(s, i);
      CharsAreCString(s, CharAt(s, i).next);
    }
  }

  /** parse_string. With no output wanted, characters go to a four-byte scratch buffer. */
  method ParseString(s: bytes, sp: nat, wanted: bool) returns (ok: bool, next: nat, str: bytes)
    requires sp <= |s|
    ensures ok == StringAt(s, sp).Done?
    ensures ok ==> next == StringAt(s, sp).next && (wanted ==> str == StringAt(s, sp).value)
  {
    next, str := sp, [];
    if At(s, sp) != QUOTE {
      return false, sp, [];
    }
    var p, b := sp + 1, 0;
    var sb := new StringBuffer();
    var out := new byte[4];
    if wanted {
      sb.Need(4);
      out, b := sb.start, sb.cur;
    }
    ghost var done: bytes := [];
    PrefixedByNothing(CharsAt(s, p));
    while At(s, p) != QUOTE
      invariant sp < p <= |s| && b + 4 <= out.Length && fresh(out)
      invariant sb.Valid() && fresh(sb) && (wanted ==> sb.start == out && sb.cur == b && sb.Room() >= 4)
      invariant wanted ==> sb.Contents() == done
      invariant !wanted ==> b == 0
      invariant CharsAt(s, sp + 1) == Prefixed(done, CharsAt(s, p))
      decreases |s| - p
    {
      ghost var c := CharAt(s, p);
      var q, end;
      ok, q, end := ParseChar(s, p, out, b);
      if !ok {
        return false, sp, [];
      }
      PrefixedTwice(done, c.value, CharsAt(s, c.next));
      p := q;
      done := done + c.value;
      if wanted {
        sb.cur := end;
        sb.Need(4);
        out, b := sb.start, sb.cur;
      }
    }
    if wanted {
      CharsAreCString(s, sp + 1);
      str := sb.Finish();
    }
    return true, p + 1, str;
  }

  /** What is parsed when `rest` follows the bytes parsed so far. */
  ghost function Prefixed<T>(done: seq<T>, rest: Parsed<seq<T>>): Parsed<seq<T>> {
    if rest.Fail? then Fail else Done(done + rest.value, rest.next)
  }

  lemma PrefixedByNothing<T>(rest: Parsed<seq<T>>)
    ensures Prefixed([], rest) == rest
  {
    if rest.Done? {
      assert [] + rest.value == rest.value;
    }
  }

  lemma PrefixedTwice<T>(a: seq<T>, b: seq<T>, rest: Parsed<seq<T>>)
    ensures Prefixed(a, Prefixed(b, rest)) == Prefixed(a + b, rest)
  {
    if rest.Done? {
      assert a + (b + rest.value) == (a + b) + rest.value;
    }
  }

  /** One iteration of the loop of parse_array and parse_object: it ends at a comma, at the closing bracket, or
      in failure. */
  lemma ItemsStep(s: bytes, i: nat, isObject: bool, done: seq<Child>)
    requires i <= |s|
    ensures var x, all := ItemAt(s, i, isObject), Prefixed(done, ItemsAt(s, i, isObject));
            if x.Fail? then all.Fail?
            else if At(s, x.next) == Close(isObject) then all == Done(done + [x.value], x.next + 1)
            else if At(s, x.next) != COMMA then all.Fail?
            else all == Prefixed(done + [x.value], ItemsAt(s, SkipSpace(s, x.next + 1), isObject))
  {
    var x := ItemAt(s, i, isObject);
    if x.Done? && At(s, x.next) == COMMA {
      var rest := ItemsAt(s, SkipSpace(s, x.next + 1), isObject);
      assert ItemsAt(s, i, isObject) == Prefixed([x.value], rest);
      PrefixedTwice(done, [x.value], rest);
    }
  }

  /** What a parser leaves in its output: nothing when none is wanted, otherwise the root of a new tree
      that holds `v`. */
  twostate predicate Built(wanted: bool, new out: JsonNode?, new t: Option<NodeTree>, v: Tree, num: Naming)
    reads if out == null then {} else {out}, if t.None? then {} else Nodes(t.value)
  {
    wanted ==> out != null && t.Some? && IsRoot(out, t.value, v, num) && fresh(Nodes(t.value))
  }

  /** What is allocated and freed in between: the nodes of the output, and none at a failure; nothing is freed
      without a failure. */
  twostate predicate Accounted(heap: Heap, ok: bool, wanted: bool, new t: Option<NodeTree>)
    reads heap
  {
    && heap.live == old(heap.live) + (if ok && wanted && t.Some? then Nodes(t.value) else {})
    && (ok || !wanted ==> heap.freed == old(heap.freed))
  }

  /** parse_value */
  method ParseValue(s: bytes, sp: nat, wanted: bool, strtod: bytes -> Double, heap: Heap)
    returns (ok: bool, next: nat, out: JsonNode?, ghost t: Option<NodeTree>)
    requires sp <= |s|
    modifies heap
    ensures ok == ValueAt(s, sp).Done? && Accounted(heap, ok, wanted, t)
    ensures ok ==> next == ValueAt(s, sp).next && Built(wanted, out, t, ValueAt(s, sp).value, ReadAs(strtod))
    decreases |s| - sp, 1
  {
    hide Holds, Nodes, StringAt, ContainerAt;
    var c := At(s, sp);
    out, t := null, None;
    ghost var tree;
    if c == 0x6E {
      ok, next := ExpectLiteral(s, sp, NULL_TEXT);
      if ok && wanted {
        out, tree := JsonMkNull(heap, ReadAs(strtod));
        t := Some(tree);
      }
    } else if c == 0x66 {
      ok, next := ExpectLiteral(s, sp, FALSE_TEXT);
      if ok && wanted {
        out, tree := JsonMkBool(false, heap, ReadAs(strtod));
        t := Some(tree);
      }
    } else if c == 0x74 {
      ok, next := ExpectLiteral(s, sp, TRUE_TEXT);
      if ok && wanted {
        out, tree := JsonMkBool(true, heap, ReadAs(strtod));
        t := Some(tree);
      }
    } else if c == QUOTE {
      var str;
      ok, next, str := ParseString(s, sp, wanted);
      if ok && wanted {
        out, tree := MkString(str, heap, ReadAs(strtod));
        t := Some(tree);
      }
    } else if c == 0x5B {
      ok, next, out, t := ParseArray(s, sp, wanted, strtod, heap);
    } else if c == 0x7B {
      ok, next, out, t := ParseObject(s, sp, wanted, strtod, heap);
    } else {
      ok, next := ParseNumber(s, sp);
      if ok && wanted {
        out, tree := JsonMkNumber(strtod(s[sp..next]), heap, s[sp..next], ReadAs(strtod));
        t := Some(tree);
      }
    }
  }

  /** The children parsed so far, when an output is wanted. */
  twostate predicate Growth(wanted: bool, isObject: bool, new ret: JsonNode?, new ts: seq<NodeTree>, cs: seq<Child>,
                            num: Naming)
    reads if ret == null then {} else {ret}, NodesOf(ts)
  {
    wanted ==> ret != null && fresh(ret) && fresh(NodesOf(ts)) && Growing(ret, isObject, ts, cs, num)
  }

  /** What is allocated and freed while an array or object grows. */
  twostate predicate Owned(heap: Heap, wanted: bool, new ret: JsonNode?, new ts: seq<NodeTree>)
    reads heap
  {
    && heap.live == old(heap.live) + (if wanted then Node(ret) + NodesOf(ts) else {})
    && heap.freed == old(heap.freed)
  }

  /** Where parse_array and parse_object fail: what was built so far is deleted. */
  method Abandon(wanted: bool, isObject: bool, ret: JsonNode?, heap: Heap,
                 ghost ts: seq<NodeTree>, ghost cs: seq<Child>, ghost num: Naming)
    requires (wanted ==> ret != null && Growing(ret, isObject, ts, cs, num)) && (!wanted ==> ret == null)
    requires wanted ==> Node(ret) + NodesOf(ts) <= heap.live
    modifies heap, if wanted then Node(ret) + NodesOf(ts) else {}
    ensures heap.live == old(heap.live) - (if wanted then Node(ret) + NodesOf(ts) else {})
    ensures !wanted ==> heap.freed == old(heap.freed)
  {
    if wanted {
      Grown(ret, isObject, ts, cs, num);
      HoldsHasShape(NodeTree(ret, ts), Container(isObject, cs), num);
      RootIsInside(NodeTree(ret, ts));
      JsonDelete.JsonDelete(ret, heap, NodeTree(ret, ts), [], 0);
    }
  }

  /** The part of the loop of parse_array that reads one element. */
  method ParseElement(s: bytes, sp: nat, wanted: bool, strtod: bytes -> Double, heap: Heap,
                      ret: JsonNode?, ghost ts: seq<NodeTree>, ghost done: seq<Child>)
    returns (ok: bool, next: nat, ghost all: seq<NodeTree>)
    requires sp <= |s| && (wanted ==> ret != null && Growing(ret, false, ts, done, ReadAs(strtod)))
    modifies heap, if wanted then Node(ret) + NodesOf(ts) else {}
    ensures ok == ItemAt(s, sp, false).Done?
    ensures ok ==> next == ItemAt(s, sp, false).next
    ensures wanted ==>
              Growing(ret, false, all, if ok then done + [ItemAt(s, sp, false).value] else done, ReadAs(strtod))
    ensures heap.live == old(heap.live) + (if wanted then NodesOf(all) - NodesOf(ts) else {})
    ensures (ok || !wanted ==> heap.freed == old(heap.freed)) && (!ok ==> all == ts)
    ensures wanted ==> NodesOf(ts) <= NodesOf(all)
    ensures wanted ==> forall x | x in NodesOf(all) && x !in NodesOf(ts) :: fresh(x)
    decreases |s| - sp, 2
  {
    hide ValueAt, SkipSpace, Growing, IsRoot, Nodes, NodesOf;
    var element;
    ghost var t;
    all := ts;
    TheseExist(ts);
    ok, next, element, t := ParseValue(s, sp, wanted, strtod, heap);
    if !ok {
      return false, sp, ts;
    }
    if wanted {
      NodesExist(t.value);
      RootIsIn(element, t.value, ItemAt(s, sp, false).value.value, ReadAs(strtod));
    }
    next := SkipSpaces(s, next);
    if wanted {
      OneMore(ts, t.value);
      TailIsInside(ret, false, ts, done, ReadAs(strtod));
      AppendElement(ret, element, ts, done, t.value, ItemAt(s, sp, false).value.value, ReadAs(strtod));
      all := ts + [t.value];
    }
  }

  lemma RootIsIn(n: JsonNode, t: NodeTree, v: Tree, num: Naming)
    requires IsRoot(n, t, v, num)
    ensures n == t.node && n in Nodes(t)
  {
  }

  lemma RootCanGo(n: JsonNode, t: NodeTree, v: Tree, num: Naming)
    requires IsRoot(n, t, v, num)
    ensures n.parent == null && n.prev == null && n.next == null && Shape(t)
  {
    HoldsHasShape(t, v, num);
  }

  lemma TailIsInside(p: JsonNode, isObject: bool, ts: seq<NodeTree>, cs: seq<Child>, num: Naming)
    requires Growing(p, isObject, ts, cs, num)
    ensures p.tail != null ==> p.tail in NodesOf(ts)
  {
    RootsAreBelow(ts);
  }

  /** parse_array */
  method ParseArray(s: bytes, sp: nat, wanted: bool, strtod: bytes -> Double, heap: Heap)
    returns (ok: bool, next: nat, out: JsonNode?, ghost t: Option<NodeTree>)
    requires sp <= |s| && At(s, sp) == 0x5B
    modifies heap
    ensures ok == ContainerAt(s, sp + 1, false).Done? && Accounted(heap, ok, wanted, t)
    ensures ok ==> next == ContainerAt(s, sp + 1, false).next
    ensures ok ==> Built(wanted, out, t, ContainerAt(s, sp + 1, false).value, ReadAs(strtod))
    decreases |s| - sp, 0
  {
    hide ValueAt, SkipSpace, Growing, IsRoot, Nodes, NodesOf, ItemAt, ItemsAt, Prefixed;
    var ret: JsonNode? := null;
    ghost var ts: seq<NodeTree>, done: seq<Child> := [], [];
    if wanted {
      ret := MkContainer(false, heap, ReadAs(strtod));
    }
    NoNodes();
    var p := SkipSpaces(s, sp + 1);
    if At(s, p) == 0x5D {
      t := Finish(wanted, false, ret, ts, done, ReadAs(strtod));
      return true, p + 1, ret, t;
    }
    ghost var first := p;
    PrefixedByNothing(ItemsAt(s, p, false));
    while true
      invariant sp < p <= |s| && Growth(wanted, false, ret, ts, done, ReadAs(strtod))
      invariant Owned(heap, wanted, ret, ts)
      invariant ItemsAt(s, first, false) == Prefixed(done, ItemsAt(s, p, false))
      decreases |s| - p
    {
      ghost var x := ItemAt(s, p, false);
      ItemsStep(s, p, false, done);
      ok, p, ts := ParseElement(s, p, wanted, strtod, heap, ret, ts, done);
      if !ok {
        break;
      }
      done := done + [x.value];
      TheseExist(ts);
      if At(s, p) == 0x5D {
        t := Finish(wanted, false, ret, ts, done, ReadAs(strtod));
        return true, p + 1, ret, t;
      }
      if At(s, p) != COMMA {
        break;
      }
      p := SkipSpaces(s, p + 1);
    }
    Abandon(wanted, false, ret, heap, ts, done, ReadAs(strtod));
    return false, sp, null, None;
  }

  /** The finished array or object. */
  ghost method Finish(wanted: bool, isObject: bool, ret: JsonNode?, ts: seq<NodeTree>, cs: seq<Child>,
                      num: Naming)
    returns (t: Option<NodeTree>)
    requires wanted ==> ret != null && Growing(ret, isObject, ts, cs, num)
    ensures wanted ==> t.Some? && IsRoot(ret, t.value, Container(isObject, cs), num)
    ensures wanted ==> Nodes(t.value) == {ret} + NodesOf(ts)
  {
    t := None;
    if wanted {
      Grown(ret, isObject, ts, cs, num);
      RootIsInside(NodeTree(ret, ts));
      t := Some(NodeTree(ret, ts));
    }
  }

  lemma NoNodes()
    ensures NodesOf([]) == {}
  {
  }

  /** The part of the loop of parse_object that reads one member. */
  method ParseMember(s: bytes, sp: nat, wanted: bool, strtod: bytes -> Double, heap: Heap,
                     ret: JsonNode?, ghost ts: seq<NodeTree>, ghost done: seq<Child>)
    returns (ok: bool, next: nat, ghost all: seq<NodeTree>)
    requires sp <= |s| && (wanted ==> ret != null && Growing(ret, true, ts, done, ReadAs(strtod)))
    modifies heap, if wanted then Node(ret) + NodesOf(ts) else {}
    ensures ok == ItemAt(s, sp, true).Done?
    ensures ok ==> next == ItemAt(s, sp, true).next
    ensures wanted ==>
              Growing(ret, true, all, if ok then done + [ItemAt(s, sp, true).value] else done, ReadAs(strtod))
    ensures heap.live == old(heap.live) + (if wanted then NodesOf(all) - NodesOf(ts) else {})
    ensures (ok || !wanted ==> heap.freed == old(heap.freed)) && (!ok ==> all == ts)
    ensures wanted ==> NodesOf(ts) <= NodesOf(all)
    ensures wanted ==> forall x | x in NodesOf(all) && x !in NodesOf(ts) :: fresh(x)
    decreases |s| - sp, 2
  {
    hide ValueAt, SkipSpace, Growing, IsRoot, Nodes, NodesOf, StringAt;
    var key, value;
    ghost var t;
    all := ts;
    TheseExist(ts);
    ok, next, key := ParseString(s, sp, wanted);
    if !ok {
      return false, sp, ts;
    }
    next := SkipSpaces(s, next);
    if At(s, next) != COLON {
      return false, sp, ts;
    }
    next := SkipSpaces(s, next + 1);
    ok, next, value, t := ParseValue(s, next, wanted, strtod, heap);
    if !ok {
      return false, sp, ts;
    }
    if wanted {
      NodesExist(t.value);
      RootIsIn(value, t.value, ItemAt(s, sp, true).value.value, ReadAs(strtod));
    }
    next := SkipSpaces(s, next);
    if wanted {
      OneMore(ts, t.value);
      TailIsInside(ret, true, ts, done, ReadAs(strtod));
      AppendKeyed(ret, key, value, ts, done, t.value, ItemAt(s, sp, true).value.value, ReadAs(strtod));
      all := ts + [t.value];
    }
  }

  /** parse_object */
  method ParseObject(s: bytes, sp: nat, wanted: bool, strtod: bytes -> Double, heap: Heap)
    returns (ok: bool, next: nat, out: JsonNode?, ghost t: Option<NodeTree>)
    requires sp <= |s| && At(s, sp) == 0x7B
    modifies heap
    ensures ok == ContainerAt(s, sp + 1, true).Done? && Accounted(heap, ok, wanted, t)
    ensures ok ==> next == ContainerAt(s, sp + 1, true).next
    ensures ok ==> Built(wanted, out, t, ContainerAt(s, sp + 1, true).value, ReadAs(strtod))
    decreases |s| - sp, 0
  {
    hide ValueAt, SkipSpace, Growing, IsRoot, Nodes, NodesOf, ItemAt, ItemsAt, Prefixed;
    var ret: JsonNode? := null;
    ghost var ts: seq<NodeTree>, done: seq<Child> := [], [];
    if wanted {
      ret := MkContainer(true, heap, ReadAs(strtod));
    }
    NoNodes();
    var p := SkipSpaces(s, sp + 1);
    if At(s, p) == 0x7D {
      t := Finish(wanted, true, ret, ts, done, ReadAs(strtod));
      return true, p + 1, ret, t;
    }
    ghost var first := p;
    PrefixedByNothing(ItemsAt(s, p, true));
    while true
      invariant sp < p <= |s| && Growth(wanted, true, ret, ts, done, ReadAs(strtod))
      invariant Owned(heap, wanted, ret, ts)
      invariant ItemsAt(s, first, true) == Prefixed(done, ItemsAt(s, p, true))
      decreases |s| - p
    {
      ghost var x := ItemAt(s, p, true);
      ItemsStep(s, p, true, done);
      ok, p, ts := ParseMember(s, p, wanted, strtod, heap, ret, ts, done);
      if !ok {
        break;
      }
      done := done + [x.value];
      TheseExist(ts);
      if At(s, p) == 0x7D {
        t := Finish(wanted, true, ret, ts, done, ReadAs(strtod));
        return true, p + 1, ret, t;
      }
      if At(s, p) != COMMA {
        break;
      }
      p := SkipSpaces(s, p + 1);
    }
    Abandon(wanted, true, ret, heap, ts, done, ReadAs(strtod));
    return false, sp, null, None;
  }

  /** json_decode: the root of a new tree that holds what the text denotes, or NULL. */
  method JsonDecode(json: bytes, strtod: bytes -> Double, heap: Heap)
    returns (r: JsonNode?, ghost t: Option<NodeTree>)
    requires CString(json)
    modifies heap
    ensures (r != null) == Decoded(json).Some?
    ensures r != null ==> t.Some? && IsRoot(r, t.value, Decoded(json).value, ReadAs(strtod)) && fresh(Nodes(t.value))
    ensures Accounted(heap, r != null, true, t)
  {
    hide IsRoot, Nodes, ValueAt, SkipSpace;
    var p := SkipSpaces(json, 0);
    var ok, v;
    ok, p, v, t := ParseValue(json, p, true, strtod, heap);
    if !ok {
      return null, None;
    }
    NodesExist(t.value);
    RootIsIn(v, t.value, ValueAt(json, SkipSpace(json, 0)).value, ReadAs(strtod));
    p := SkipSpaces(json, p);
    if At(json, p) != 0 {
      RootCanGo(v, t.value, ValueAt(json, SkipSpace(json, 0)).value, ReadAs(strtod));
      JsonDelete.JsonDelete(v, heap, t.value, [], 0);
      return null, None;
    }
    return v, t;
  }

  /** json_validate */
  method JsonValidate(json: bytes, heap: Heap) returns (valid: bool)
    requires CString(json)
    modifies heap
    ensures heap.live == old(heap.live) && heap.freed == old(heap.freed)
    ensures valid == Decoded(json).Some?
  {
    hide ValueAt, SkipSpace;
    var p := SkipSpaces(json, 0);
    var ok, v;
    ghost var t;
    ok, p, v, t := ParseValue(json, p, false, text => 0, heap);
    if !ok {
      return false;
    }
    p := SkipSpaces(json, p);
    valid := At(json, p) == 0;
  }
}
