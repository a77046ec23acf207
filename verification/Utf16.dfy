/** UTF-16 surrogate pairs (RFC 2781) and the four-digit hexadecimal escapes of JSON strings. */
module Utf16 {
  import opened Bytes

  type uint16 = x: int | 0 <= x < 0x1_0000

  predicate IsHigh(u: int) {
    0xD800 <= u <= 0xDBFF
  }

  predicate IsLow(u: int) {
    0xDC00 <= u <= 0xDFFF
  }

  /** from_surrogate_pair */
  function FromSurrogates(uc: uint16, lc: uint16): (u: Option<int>) {
    if IsHigh(uc) && IsLow(lc)
    then Some(0x10000 + (uc as int % 0x400 * 0x400 + lc as int % 0x400))
    else None
  }

  /** to_surrogate_pair */
  function ToSurrogates(u: int): (p: (uint16, uint16))
    requires 0x10000 <= u <= 0x10FFFF
  {
    var n := u - 0x10000;
    (0xD800 + n / 0x400 % 0x400, 0xDC00 + n % 0x400)
  }

  /** Splitting a supplementary code point gives a valid pair, which decodes to it ... */
  lemma SurrogatesOfCodePoint(u: int)
    requires 0x10000 <= u <= 0x10FFFF
    ensures IsHigh(ToSurrogates(u).0) && IsLow(ToSurrogates(u).1)
    ensures FromSurrogates(ToSurrogates(u).0, ToSurrogates(u).1) == Some(u)
  {
    var n := u - 0x10000;
    assert n / 0x400 < 0x400;
    assert (0xD800 + n / 0x400) % 0x400 == n / 0x400;
    assert (0xDC00 + n % 0x400) % 0x400 == n % 0x400;
  }

  /** ... and a pair decodes to a supplementary code point, which splits into it again, exactly when
      it is valid. */
  lemma CodePointOfSurrogates(uc: uint16, lc: uint16)
    ensures FromSurrogates(uc, lc).Some? <==> IsHigh(uc) && IsLow(lc)
    ensures FromSurrogates(uc, lc).Some? ==>
              var u := FromSurrogates(uc, lc).value;
              0x10000 <= u <= 0x10FFFF && ToSurrogates(u) == (uc, lc)
  {
    if IsHigh(uc) && IsLow(lc) {
      var a, b := uc as int - 0xD800, lc as int - 0xDC00;
      assert uc as int % 0x400 == a && lc as int % 0x400 == b;
      assert (a * 0x400 + b) / 0x400 == a && (a * 0x400 + b) % 0x400 == b;
    }
  }

  predicate IsHexDigit(c: byte) {
    '0' as int <= c <= '9' as int || 'A' as int <= c <= 'F' as int || 'a' as int <= c <= 'f' as int
  }

  function HexDigitValue(c: byte): (x: nat)
    requires IsHexDigit(c)
    ensures x < 16
  {
    if '0' as int <= c <= '9' as int then c - '0' as int
    else if 'A' as int <= c <= 'F' as int then c - 'A' as int + 10
    else c - 'a' as int + 10
  }

  predicate IsHexNumber(d: bytes) {
    forall k | 0 <= k < |d| :: IsHexDigit(d[k])
  }

  /** The number that hexadecimal digits stand for, most significant digit first. */
  function HexValue(d: bytes): (n: nat)
    requires IsHexNumber(d)
  {
    if d == [] then 0 else HexValue(d[..|d| - 1]) * 16 + HexDigitValue(d[|d| - 1])
  }

  lemma FourDigits(d: bytes)
    requires |d| == 4 && IsHexNumber(d)
    ensures HexValue(d) ==
            HexDigitValue(d[0]) * 4096 + HexDigitValue(d[1]) * 256 + HexDigitValue(d[2]) * 16 + HexDigitValue(d[3])
    ensures HexValue(d) < 0x1_0000
  {
    assert d[..3][..2] == d[..2] && d[..2][..1] == d[..1] && d[..1][..0] == [];
    assert HexValue(d[..1]) == HexDigitValue(d[0]);
    assert HexValue(d[..2]) == HexValue(d[..1]) * 16 + HexDigitValue(d[1]);
    assert HexValue(d[..3]) == HexValue(d[..2]) * 16 + HexDigitValue(d[2]);
  }

  /** parse_hex16: the four digits at `i`, or None where a character is not a digit. */
  function Hex16At(s: bytes, i: nat): (r: Option<uint16>)
    requires i <= |s|
  {
    if i + 4 <= |s| && IsHexNumber(s[i..i + 4])
    then (FourDigits(s[i..i + 4]); Some(HexValue(s[i..i + 4])))
    else None
  }

  method ParseHex16(s: bytes, sp: nat) returns (r: Option<uint16>, next: nat)
    requires sp <= |s|
    ensures r == Hex16At(s, sp)
    ensures next == if r.Some? then sp + 4 else sp
  {
    var p, ret := sp, 0;
    var i := 0;
    while i < 4
      invariant 0 <= i <= 4 && p == sp + i <= |s|
      invariant IsHexNumber(s[sp..p])
      invariant ret == HexValue(s[sp..p]) && ret < Pow16(i)
    {
      var c := At(s, p);
      if !IsHexDigit(c) {
        assert i + sp < |s| && sp + 4 <= |s| ==> s[sp..sp + 4][i] == c;
        return None, sp;
      }
      assert s[sp..p + 1][..i] == s[sp..p];
      p := p + 1;
      ret := ret * 16 % 0x1_0000;
      ret := (ret + HexDigitValue(c)) % 0x1_0000;
      i := i + 1;
    }
    return Some(ret), p;
  }

  function Pow16(i: nat): nat
    requires i <= 4
  {
    [1, 0x10, 0x100, 0x1000, 0x1_0000][i]
  }

  function HexDigit(x: nat): (c: byte)
    requires x < 16
    ensures IsHexDigit(c) && HexDigitValue(c) == x
  {
    if x < 10 then '0' as int + x else 'A' as int + (x - 10)
  }

  /** write_hex16 */
  function WriteHex16(v: uint16): (d: bytes)
    ensures |d| == 4 && IsHexNumber(d)
  {
    [HexDigit(v / 4096 % 16), HexDigit(v / 256 % 16), HexDigit(v / 16 % 16), HexDigit(v % 16)]
  }

  lemma SplitDigits(v: uint16)
    ensures v / 4096 % 16 * 4096 + v / 256 % 16 * 256 + v / 16 % 16 * 16 + v % 16 == v
  {
    assert v / 256 == v / 4096 * 16 + v / 256 % 16;
    assert v / 16 == v / 256 * 16 + v / 16 % 16;
  }

  /** Reading four hexadecimal digits inverts writing them. */
  lemma HexRoundTrip(v: uint16, s: bytes, i: nat)
    requires Occurs(WriteHex16(v), s, i)
    ensures HexValue(WriteHex16(v)) == v && Hex16At(s, i) == Some(v)
  {
    FourDigits(WriteHex16(v));
    SplitDigits(v);
  }
}
