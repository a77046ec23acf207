/** Bytes and NUL-terminated strings, shared by every module. */
module Bytes {

  type byte = x: int | 0 <= x < 256
  type bytes = seq<byte>

  datatype Option<+T> = None | Some(value: T)

  /** A C string is the content in front of its terminating NUL. */
  predicate CString(s: bytes) {
    0 !in s
  }

  /** `s[i]` of a C string; position `|s|` is the terminating NUL. The precondition is what keeps
      every reader in this project from looking beyond it. */
  function At(s: bytes, i: nat): (b: byte)
    requires i <= |s|
    ensures b != 0 ==> i < |s| && b == s[i]
  {
    if i < |s| then s[i] else 0
  }

  lemma Associative(a: bytes, b: bytes, c: bytes)
    ensures a + (b + c) == a + b + c
  {
  }

  /** `t` stands in `s` at position `i`. */
  predicate Occurs(t: bytes, s: bytes, i: nat) {
    i + |t| <= |s| && s[i..i + |t|] == t
  }

  lemma OccursAt(t: bytes, s: bytes, i: nat)
    requires Occurs(t, s, i)
    ensures forall k | 0 <= k < |t| :: s[i + k] == t[k]
  {
    forall k | 0 <= k < |t| ensures s[i + k] == t[k] {
      assert s[i..i + |t|][k] == s[i + k];
    }
  }

  lemma DiffersAt(t: bytes, s: bytes, i: nat, k: nat)
    requires k < |t| && i + k <= |s| && At(s, i + k) != t[k]
    ensures !Occurs(t, s, i)
  {
    if Occurs(t, s, i) {
      OccursAt(t, s, i);
    }
  }

  /** A concatenation occurs exactly when its parts occur next to each other. */
  lemma OccursSplit(a: bytes, b: bytes, s: bytes, i: nat)
    ensures Occurs(a + b, s, i) <==> Occurs(a, s, i) && Occurs(b, s, i + |a|)
  {
    if Occurs(a + b, s, i) {
      var w := s[i..i + |a + b|];
      assert w[..|a|] == a && w[|a|..] == b;
      assert s[i..i + |a|] == w[..|a|];
      assert s[i + |a|..i + |a| + |b|] == w[|a|..];
    }
    if Occurs(a, s, i) && Occurs(b, s, i + |a|) {
      assert s[i..i + |a + b|] == s[i..i + |a|] + s[i + |a|..i + |a| + |b|];
    }
  }

  lemma OccursThree(a: bytes, b: bytes, c: bytes, s: bytes, i: nat)
    requires Occurs(a + b + c, s, i)
    ensures Occurs(a, s, i) && Occurs(b, s, i + |a|) && Occurs(c, s, i + |a| + |b|)
    ensures i + |a| + |b| + |c| <= |s|
  {
    OccursSplit(a + b, c, s, i);
    OccursSplit(a, b, s, i);
  }

  lemma OccursFour(a: bytes, b: bytes, c: bytes, d: bytes, s: bytes, i: nat)
    requires Occurs(a + b + c + d, s, i)
    ensures Occurs(a, s, i) && Occurs(b, s, i + |a|) && Occurs(c, s, i + |a| + |b|)
    ensures Occurs(d, s, i + |a| + |b| + |c|) && i + |a| + |b| + |c| + |d| <= |s|
  {
    OccursSplit(a + b + c, d, s, i);
    OccursThree(a, b, c, s, i);
  }
}
