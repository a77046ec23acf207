/** The growing byte buffer that the printer and the string parser write into. */
module StringBuffers {
  import opened Bytes

  const INITIAL_CAPACITY := 16

  /** Capacities reached by doubling the initial one. */
  ghost predicate IsCapacity(n: nat) {
    n == INITIAL_CAPACITY || (n > INITIAL_CAPACITY && n % 2 == 0 && IsCapacity(n / 2))
  }

  lemma DoublingKeepsCapacity(n: nat)
    requires IsCapacity(n)
    ensures IsCapacity(n * 2) && n > 0
  {
    assert n * 2 / 2 == n;
  }

  /** `struct SB`: `start` holds one byte more than the capacity, `cur` is the write position. */
  class StringBuffer {
    var start: array<byte>
    var cur: nat

    ghost predicate Valid()
      reads this
    {
      start.Length > 0 && IsCapacity(start.Length - 1) && cur <= start.Length - 1
    }

    ghost function Contents(): (s: bytes)
      reads this, start
      requires Valid()
    {
      start[..cur]
    }

    /** `end - cur` */
    function Room(): (n: nat)
      reads this
      requires Valid()
    {
      start.Length - 1 - cur
    }

    /** sb_init */
    constructor ()
      ensures Valid() && fresh(start) && Contents() == [] && start.Length == INITIAL_CAPACITY + 1
    {
      start := new byte[INITIAL_CAPACITY + 1];
      cur := 0;
    }

    /** sb_grow, which sb_need calls only when the room is too small: doubles the capacity until the
        request fits, so the result is below twice the space asked for. */
    method Grow(need: nat)
      requires Valid() && Room() < need
      modifies this
      ensures Valid() && fresh(start) && cur == old(cur)
      ensures Contents() == old(Contents())
      ensures Room() >= need
      ensures start.Length - 1 < 2 * (cur + need)
    {
      var alloc := start.Length - 1;
      DoublingKeepsCapacity(alloc);
      alloc := alloc * 2;
      while alloc < cur + need
        invariant IsCapacity(alloc) && 0 < alloc < 2 * (cur + need)
        modifies {}
      {
        DoublingKeepsCapacity(alloc);
        alloc := alloc * 2;
      }
      var grown := new byte[alloc + 1];
      forall k | 0 <= k < cur {
        grown[k] := start[k];
      }
      start := grown;
    }

    /** sb_need */
    method Need(need: nat)
      requires Valid()
      modifies this
      ensures Valid() && cur == old(cur) && Contents() == old(Contents())
      ensures Room() >= need
      ensures if old(Room()) < need then fresh(start) && start.Length - 1 < 2 * (cur + need)
              else start == old(start)
    {
      if start.Length - 1 - cur < need {
        Grow(need);
      }
    }

    /** sb_put and sb_puts */
    method Put(text: bytes)
      requires Valid()
      modifies this, start
      ensures Valid() && (start == old(start) || (fresh(start) && start.Length - 1 < 2 * cur))
      ensures Contents() == old(Contents()) + text
    {
      Need(|text|);
      forall k | 0 <= k < |text| {
        start[cur + k] := text[k];
      }
      cur := cur + |text|;
    }

    /** sb_putc */
    method PutChar(c: byte)
      requires Valid()
      modifies this, start
      ensures Valid() && (start == old(start) || (fresh(start) && start.Length - 1 < 2 * cur))
      ensures Contents() == old(Contents()) + [c]
    {
      if cur >= start.Length - 1 {
        Grow(1);
      }
      start[cur] := c;
      cur := cur + 1;
    }

    /** sb_finish: the terminating NUL always has its byte, and the contents are a C string, which is
        what the assertion in the source demands. */
    method Finish() returns (text: bytes)
      requires Valid() && CString(Contents())
      modifies start
      ensures text == old(Contents()) && Contents() == old(Contents())
      ensures start[cur] == 0
    {
      start[cur] := 0;
      text := start[..cur];
    }
  }

  /** A capacity is the initial one doubled some number of times. */
  lemma {:induction false} CapacityIsDoubled(n: nat) returns (k: nat)
    requires IsCapacity(n)
    ensures n == INITIAL_CAPACITY * Doubled(k)
  {
    if n == INITIAL_CAPACITY {
      k := 0;
    } else {
      k := CapacityIsDoubled(n / 2);
      k := k + 1;
    }
  }

  /** Two to the power `k`. */
  function Doubled(k: nat): (n: nat) {
    if k == 0 then 1 else 2 * Doubled(k - 1)
  }

  function Concatenation(parts: seq<bytes>): bytes {
    if parts == [] then [] else Concatenation(parts[..|parts| - 1]) + parts[|parts| - 1]
  }

  /** Any sequence of appends: the buffer holds the concatenation, and has its initial capacity or less than
      twice what it holds. */
  method PutAll(parts: seq<bytes>) returns (sb: StringBuffer)
    ensures fresh(sb) && sb.Valid() && sb.Contents() == Concatenation(parts)
    ensures sb.start.Length - 1 == INITIAL_CAPACITY || sb.start.Length - 1 < 2 * |Concatenation(parts)|
  {
    sb := new StringBuffer();
    var i := 0;
    while i < |parts|
      invariant i <= |parts| && fresh(sb) && fresh(sb.start) && sb.Valid() && sb.Contents() == Concatenation(parts[..i])
      invariant sb.start.Length - 1 == INITIAL_CAPACITY || sb.start.Length - 1 < 2 * sb.cur
    {
      assert parts[..i + 1][..i] == parts[..i];
      sb.Put(parts[i]);
      i := i + 1;
    }
    assert parts[..i] == parts && sb.cur == |sb.Contents()|;
  }
}
