/** The UTF-8 codec of the JSON library, and the RFC 3629 facts it relies on. Bit masks and shifts
    of the unsigned source operands are written as division and remainder. */
module Utf8 {
  import opened Bytes

  /** Unicode scalar values: U+0000..U+10FFFF without the surrogates. */
  predicate IsScalar(u: int) {
    0 <= u <= 0x10FFFF && !(0xD800 <= u <= 0xDFFF)
  }

  /** `(c & 0xC0) == 0x80` */
  predicate IsContinuation(c: byte) {
    0x80 <= c <= 0xBF
  }

  /** utf8_validate_cz: length of the character at `i`, or 0 when it is malformed or clipped. */
  function ValidateChar(s: bytes, i: nat): (len: nat)
    requires i <= |s|
    ensures len <= 4
    ensures At(s, i) != 0 ==> i + len <= |s|
  {
    var c := At(s, i);
    if c <= 0x7F then 1
    else if c <= 0xC1 then 0
    else if c <= 0xDF then
      if !IsContinuation(At(s, i + 1)) then 0 else 2
    else if c <= 0xEF then
      if c == 0xE0 && At(s, i + 1) < 0xA0 then 0
      else if c == 0xED && At(s, i + 1) > 0x9F then 0
      else if !IsContinuation(At(s, i + 1)) then 0
      else if !IsContinuation(At(s, i + 2)) then 0
      else 3
    else if c <= 0xF4 then
      if c == 0xF0 && At(s, i + 1) < 0x90 then 0
      else if c == 0xF4 && At(s, i + 1) > 0x8F then 0
      else if !IsContinuation(At(s, i + 1)) then 0
      else if !IsContinuation(At(s, i + 2)) then 0
      else if !IsContinuation(At(s, i + 3)) then 0
      else 4
    else 0
  }

  /** utf8_read_char on a character that validates. */
  function ReadChar(s: bytes, i: nat): (u: nat)
    requires i < |s| && ValidateChar(s, i) > 0
  {
    var c := s[i];
    if c <= 0x7F then c
    else if c <= 0xDF then Join2(c, s[i + 1])
    else if c <= 0xEF then Join3(c, s[i + 1], s[i + 2])
    else Join4(c, s[i + 1], s[i + 2], s[i + 3])
  }

  function Join2(c0: byte, c1: byte): (u: nat) {
    (c0 as int % 32) * 64 + Low6(c1)
  }

  function Join3(c0: byte, c1: byte, c2: byte): (u: nat) {
    (c0 as int % 16) * 4096 + Low6(c1) * 64 + Low6(c2)
  }

  function Join4(c0: byte, c1: byte, c2: byte, c3: byte): (u: nat) {
    (c0 as int % 8) * 262144 + Low6(c1) * 4096 + Low6(c2) * 64 + Low6(c3)
  }

  /** `c & 0x3F` */
  function Low6(c: byte): (x: int)
    ensures 0 <= x < 64
    ensures IsContinuation(c) ==> c == 0x80 + x
  {
    c % 64
  }

  /** The base-64 digits of a number are the ones it is put together from. */
  lemma Base64Digits(a: int, b: int, c: int, d: int)
    requires 0 <= a && 0 <= b < 64 && 0 <= c < 64 && 0 <= d < 64
    ensures var u := a * 262144 + b * 4096 + c * 64 + d;
            u / 262144 == a && u / 4096 == a * 64 + b && u / 64 == a * 4096 + b * 64 + c
    ensures var u := a * 262144 + b * 4096 + c * 64 + d;
            u / 4096 % 64 == b && u / 64 % 64 == c && u % 64 == d
  {
  }

  /** utf8_write_char */
  function WriteChar(u: int): (t: bytes)
    requires IsScalar(u)
    ensures 1 <= |t| <= 4
  {
    if u <= 0x7F then [u]
    else if u <= 0x7FF then [0xC0 + u / 64, 0x80 + u % 64]
    else if u <= 0xFFFF then [0xE0 + u / 4096, 0x80 + u / 64 % 64, 0x80 + u % 64]
    else [0xF0 + u / 262144, 0x80 + u / 4096 % 64, 0x80 + u / 64 % 64, 0x80 + u % 64]
  }

  lemma Joined2(c0: byte, c1: byte)
    requires 0xC2 <= c0 <= 0xDF && IsContinuation(c1)
    ensures 0x80 <= Join2(c0, c1) <= 0x7FF && WriteChar(Join2(c0, c1)) == [c0, c1]
  {
    assert c0 as int % 32 == c0 - 0xC0;
    Base64Digits(0, 0, c0 - 0xC0, c1 - 0x80);
  }

  lemma Joined3(c0: byte, c1: byte, c2: byte)
    requires 0xE0 <= c0 <= 0xEF && IsContinuation(c1) && IsContinuation(c2)
    requires c0 == 0xE0 ==> c1 >= 0xA0
    requires c0 == 0xED ==> c1 <= 0x9F
    ensures 0x800 <= Join3(c0, c1, c2) <= 0xFFFF && IsScalar(Join3(c0, c1, c2))
    ensures WriteChar(Join3(c0, c1, c2)) == [c0, c1, c2]
  {
    var b, c, d := c0 - 0xE0, c1 - 0x80, c2 - 0x80;
    var u := b * 4096 + c * 64 + d;
    assert Join3(c0, c1, c2) == u && 0x800 <= u <= 0xFFFF && IsScalar(u);
    assert u / 4096 == b && u / 64 % 64 == c && u % 64 == d by {
      hide *;
      Base64Digits(0, b, c, d);
    }
  }

  lemma Joined4(c0: byte, c1: byte, c2: byte, c3: byte)
    requires 0xF0 <= c0 <= 0xF4 && IsContinuation(c1) && IsContinuation(c2) && IsContinuation(c3)
    requires c0 == 0xF0 ==> c1 >= 0x90
    requires c0 == 0xF4 ==> c1 <= 0x8F
    ensures 0x10000 <= Join4(c0, c1, c2, c3) <= 0x10FFFF
    ensures WriteChar(Join4(c0, c1, c2, c3)) == [c0, c1, c2, c3]
  {
    var a, b, c, d := c0 - 0xF0, c1 - 0x80, c2 - 0x80, c3 - 0x80;
    var u := a * 262144 + b * 4096 + c * 64 + d;
    assert Join4(c0, c1, c2, c3) == u && 0x10000 <= u <= 0x10FFFF;
    assert u / 262144 == a && u / 4096 % 64 == b && u / 64 % 64 == c && u % 64 == d by {
      hide *;
      Base64Digits(a, b, c, d);
    }
  }

  lemma Written2(u: int)
    requires 0x80 <= u <= 0x7FF
    ensures var t := WriteChar(u);
            0xC2 <= t[0] <= 0xDF && IsContinuation(t[1]) && Join2(t[0], t[1]) == u
  {
  }

  lemma Written3(u: int)
    requires 0x800 <= u <= 0xFFFF && IsScalar(u)
    ensures var t := WriteChar(u);
            && 0xE0 <= t[0] <= 0xEF && IsContinuation(t[1]) && IsContinuation(t[2])
            && (t[0] == 0xE0 ==> t[1] >= 0xA0) && (t[0] == 0xED ==> t[1] <= 0x9F)
            && Join3(t[0], t[1], t[2]) == u
  {
    assert u / 4096 * 64 + u / 64 % 64 == u / 64;
  }

  lemma Written4(u: int)
    requires 0x10000 <= u <= 0x10FFFF
    ensures var t := WriteChar(u);
            && 0xF0 <= t[0] <= 0xF4 && IsContinuation(t[1]) && IsContinuation(t[2]) && IsContinuation(t[3])
            && (t[0] == 0xF0 ==> t[1] >= 0x90) && (t[0] == 0xF4 ==> t[1] <= 0x8F)
            && Join4(t[0], t[1], t[2], t[3]) == u
  {
    assert u / 262144 * 64 + u / 4096 % 64 == u / 4096;
    assert u / 4096 * 64 + u / 64 % 64 == u / 64;
  }

  /** What validates is the encoding of the scalar value that reading returns. */
  lemma ValidatedIsWritten(s: bytes, i: nat)
    requires i < |s| && ValidateChar(s, i) > 0
    ensures IsScalar(ReadChar(s, i))
    ensures |WriteChar(ReadChar(s, i))| == ValidateChar(s, i)
    ensures Occurs(WriteChar(ReadChar(s, i)), s, i)
  {
    var k := ValidateChar(s, i);
    if k == 2 {
      Joined2(s[i], s[i + 1]);
    } else if k == 3 {
      Joined3(s[i], s[i + 1], s[i + 2]);
    } else if k == 4 {
      Joined4(s[i], s[i + 1], s[i + 2], s[i + 3]);
    }
    assert s[i..i + k] == WriteChar(ReadChar(s, i));
  }

  /** Every encoding validates, at its own length, and reads back as the value written. */
  lemma WrittenIsValidated(u: int, s: bytes, i: nat)
    requires IsScalar(u) && Occurs(WriteChar(u), s, i)
    ensures ValidateChar(s, i) == |WriteChar(u)| && ReadChar(s, i) == u
  {
    OccursAt(WriteChar(u), s, i);
    if u <= 0x7F {
    } else if u <= 0x7FF {
      Written2(u);
    } else if u <= 0xFFFF {
      Written3(u);
    } else {
      Written4(u);
    }
  }

  /** Validation succeeds with length `k` exactly when the next `k` bytes encode a scalar value,
      and that value is unique. */
  lemma ValidatesExactlyEncodings(s: bytes, i: nat, k: nat)
    requires i < |s| && k > 0
    ensures ValidateChar(s, i) == k <==>
            exists u: int :: IsScalar(u) && |WriteChar(u)| == k && Occurs(WriteChar(u), s, i)
    ensures forall u: int, v: int
              | IsScalar(u) && IsScalar(v) && Occurs(WriteChar(u), s, i) && Occurs(WriteChar(v), s, i) :: u == v
  {
    if ValidateChar(s, i) == k {
      ValidatedIsWritten(s, i);
    }
    forall u: int | IsScalar(u) && Occurs(WriteChar(u), s, i)
      ensures ValidateChar(s, i) == |WriteChar(u)| && ReadChar(s, i) == u
    {
      WrittenIsValidated(u, s, i);
    }
  }

  /** utf8_validate, from position `i` on. */
  predicate ValidFrom(s: bytes, i: nat)
    requires i <= |s|
    decreases |s| - i
  {
    At(s, i) == 0 || (ValidateChar(s, i) > 0 && ValidFrom(s, i + ValidateChar(s, i)))
  }

  predicate Valid(s: bytes) {
    ValidFrom(s, 0)
  }
}
