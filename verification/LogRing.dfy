/** The log ring: dump_amc_log reads the messages that the card wrote since the last time. */
module LogRing {
  import opened Bytes

  const AMC_LOG_MAX_RECS := 50

  /** How many entries lie from `from` to `to`, around the ring. */
  function Ahead(from: nat, to: nat): (n: nat)
    requires from < AMC_LOG_MAX_RECS && to < AMC_LOG_MAX_RECS
    ensures n == (to - from) % AMC_LOG_MAX_RECS && n < AMC_LOG_MAX_RECS
  {
    if from <= to then to - from else to + AMC_LOG_MAX_RECS - from
  }

  lemma Wrapped(x: nat)
    requires x < 2 * AMC_LOG_MAX_RECS
    ensures x % AMC_LOG_MAX_RECS == if x < AMC_LOG_MAX_RECS then x else x - AMC_LOG_MAX_RECS
  {
  }

  /** One step of the reader, after `n` of them. */
  lemma OneStep(from: nat, n: nat, to: nat)
    requires from < AMC_LOG_MAX_RECS && to < AMC_LOG_MAX_RECS && n <= Ahead(from, to)
    ensures var i := (from + n) % AMC_LOG_MAX_RECS;
            && (i == to <==> n == Ahead(from, to))
            && (i + 1) % AMC_LOG_MAX_RECS == (from + (n + 1)) % AMC_LOG_MAX_RECS
  {
    Wrapped(from + n);
    Wrapped(from + n + 1);
    Wrapped((from + n) % AMC_LOG_MAX_RECS + 1);
  }

  /** The `n` messages from slot `from` on, in cyclic order. */
  function Entries(slots: seq<bytes>, from: nat, n: nat): (r: seq<bytes>)
    requires |slots| == AMC_LOG_MAX_RECS
    ensures |r| == n && forall k | 0 <= k < n :: r[k] == slots[(from + k) % AMC_LOG_MAX_RECS]
  {
    seq(n, k requires 0 <= k < n => slots[(from + k) % AMC_LOG_MAX_RECS])
  }

  lemma EntriesGrow(slots: seq<bytes>, from: nat, n: nat)
    requires |slots| == AMC_LOG_MAX_RECS
    ensures Entries(slots, from, 0) == []
    ensures Entries(slots, from, n + 1) == Entries(slots, from, n) + [slots[(from + n) % AMC_LOG_MAX_RECS]]
  {
  }

  /** What is printed of a message: the text in front of its NUL, unless there is no NUL or no text. */
  function Text(msg: bytes): seq<bytes> {
    if 0 in msg && msg[0] != 0 then [msg[..Length(msg)]] else []
  }

  /** strlen */
  function Length(msg: bytes): (n: nat)
    requires 0 in msg
    ensures n < |msg| && msg[n] == 0 && 0 !in msg[..n]
  {
    if msg[0] == 0 then 0
    else
      var n := Length(msg[1..]) + 1;
      assert msg[..n] == [msg[0]] + msg[1..][..n - 1];
      n
  }

  function Texts(msgs: seq<bytes>): seq<bytes> {
    if msgs == [] then [] else Texts(msgs[..|msgs| - 1]) + Text(msgs[|msgs| - 1])
  }

  lemma TextsGrow(msgs: seq<bytes>, msg: bytes)
    ensures Texts(msgs + [msg]) == Texts(msgs) + if 0 in msg && msg[0] != 0 then [msg[..Length(msg)]] else []
  {
    assert (msgs + [msg])[..|msgs|] == msgs;
  }

  /** The card writes a message, or the driver drains the ring. */
  datatype Event = Produce(msg: bytes) | Drain

  /** The ring in shared memory, the index the card writes next, the driver's last_printed_msg_index, and
      the messages the driver has read. */
  datatype Log = Log(slots: seq<bytes>, index: nat, last: nat, seen: seq<bytes>)

  predicate LogOk(l: Log) {
    |l.slots| == AMC_LOG_MAX_RECS && l.index < AMC_LOG_MAX_RECS && l.last < AMC_LOG_MAX_RECS
  }

  function Step(l: Log, e: Event): (r: Log)
    requires LogOk(l)
    ensures LogOk(r)
  {
    match e
    case Produce(msg) => l.(slots := l.slots[l.index := msg], index := (l.index + 1) % AMC_LOG_MAX_RECS)
    case Drain => l.(seen := l.seen + Entries(l.slots, l.last, Ahead(l.last, l.index)), last := l.index)
  }

  /** The logging side of `struct amc_control_ctxt`. */
  class Logger {
    var last: nat
    var printed: seq<bytes>
    ghost var seen: seq<bytes>

    ghost predicate Valid()
      reads this
    {
      last < AMC_LOG_MAX_RECS && printed == Texts(seen)
    }

    /** dump_amc_log on one reading of the shared memory. An index over 50 is refused. Index 50 passes
        the guard, and the loop never ends: see FiftyIsNeverReached. */
    method DumpAmcLog(slots: seq<bytes>, index: nat)
      requires Valid() && |slots| == AMC_LOG_MAX_RECS && index != AMC_LOG_MAX_RECS
      modifies this
      ensures Valid()
      ensures index > AMC_LOG_MAX_RECS ==> unchanged(this)
      ensures index < AMC_LOG_MAX_RECS ==>
                Log(slots, index, last, seen) == Step(Log(slots, index, old(last), old(seen)), Drain)
    {
      hide Text, Length, Ahead, Texts, Entries;
      if AMC_LOG_MAX_RECS < index {
        return;
      }
      var i := last;
      ghost var n := 0;
      EntriesGrow(slots, last, 0);
      while i != index
        invariant Valid() && last == old(last) && n <= Ahead(last, index) && i == (last + n) % AMC_LOG_MAX_RECS
        invariant seen == old(seen) + Entries(slots, last, n)
        decreases Ahead(last, index) - n
      {
        OneStep(last, n, index);
        EntriesGrow(slots, last, n);
        TextsGrow(seen, slots[i]);
        var msg := slots[i];
        if 0 in msg && msg[0] != 0 {
          printed := printed + [msg[..Length(msg)]];
        }
        seen := seen + [msg];
        n := n + 1;
        i := (i + 1) % AMC_LOG_MAX_RECS;
      }
      OneStep(last, n, index);
      last := index;
    }
  }

  /** The reader's index after `n` rounds of its loop. */
  function After(i: nat, n: nat): nat {
    if n == 0 then i else (After(i, n - 1) + 1) % AMC_LOG_MAX_RECS
  }

  /** No number of rounds takes the reader to index 50: the guard lets it through, but it is not a slot,
      and the loop would run for ever. */
  lemma FiftyIsNeverReached(i: nat, n: nat)
    requires i < AMC_LOG_MAX_RECS
    ensures After(i, n) != AMC_LOG_MAX_RECS
  {
  }

  lemma {:induction false} AfterIs(i: nat, n: nat)
    requires i < AMC_LOG_MAX_RECS
    ensures After(i, n) == (i + n) % AMC_LOG_MAX_RECS
  {
    if n > 0 {
      AfterIs(i, n - 1);
      ModAdd(i + n - 1, 1);
    }
  }

  /** Of the indices that the guard lets through, the loop ends exactly for those below 50. */
  lemma LoopEndsExactly(i: nat, index: nat)
    requires i < AMC_LOG_MAX_RECS && index <= AMC_LOG_MAX_RECS
    ensures (exists n: nat :: After(i, n) == index) <==> index < AMC_LOG_MAX_RECS
  {
    if index < AMC_LOG_MAX_RECS {
      var n := Ahead(i, index);
      AfterIs(i, n);
      OneStep(i, n, index);
      assert After(i, n) == index;
    } else {
      forall n: nat ensures After(i, n) != index {
        FiftyIsNeverReached(i, n);
      }
    }
  }

  // ----- Whole runs -----

  /** The state after a run, from the ring that logging_thread clears when it starts. */
  function Run(events: seq<Event>): (l: Log)
    ensures LogOk(l)
  {
    if events == [] then Log(seq(AMC_LOG_MAX_RECS, k => []), 0, 0, [])
    else Step(Run(events[..|events| - 1]), events[|events| - 1])
  }

  /** Every message that the card wrote. */
  function Produced(events: seq<Event>): seq<bytes> {
    if events == [] then []
    else
      var e := events[|events| - 1];
      Produced(events[..|events| - 1]) + if e.Produce? then [e.msg] else []
  }

  /** How many of them were written when the driver last drained the ring. */
  function Drained(events: seq<Event>): (n: nat)
    ensures n <= |Produced(events)|
  {
    if events == [] then 0
    else if events[|events| - 1].Drain? then |Produced(events[..|events| - 1])|
    else Drained(events[..|events| - 1])
  }

  /** At every drain, the card has written fewer than 50 messages since the drain before. */
  predicate InTime(events: seq<Event>) {
    events != [] ==>
      var before := events[..|events| - 1];
      InTime(before) && (events[|events| - 1].Drain? ==> |Produced(before)| - Drained(before) < AMC_LOG_MAX_RECS)
  }

  lemma ModAdd(d: nat, k: nat)
    ensures (d % AMC_LOG_MAX_RECS + k) % AMC_LOG_MAX_RECS == (d + k) % AMC_LOG_MAX_RECS
  {
    var q, r := d / AMC_LOG_MAX_RECS, (d % AMC_LOG_MAX_RECS + k) % AMC_LOG_MAX_RECS;
    var p := (d % AMC_LOG_MAX_RECS + k) / AMC_LOG_MAX_RECS;
    assert d + k == (p + q) * AMC_LOG_MAX_RECS + r;
    Remainder(d + k, p + q, r);
  }

  lemma Remainder(x: nat, q: nat, r: nat)
    requires x == q * AMC_LOG_MAX_RECS + r && r < AMC_LOG_MAX_RECS
    ensures x % AMC_LOG_MAX_RECS == r
  {
  }

  lemma AheadOf(d: nat, p: nat)
    requires d <= p
    ensures Ahead(d % AMC_LOG_MAX_RECS, p % AMC_LOG_MAX_RECS) == (p - d) % AMC_LOG_MAX_RECS
  {
    var a := Ahead(d % AMC_LOG_MAX_RECS, p % AMC_LOG_MAX_RECS);
    var q := (p - d - a) / AMC_LOG_MAX_RECS;
    assert p - d == q * AMC_LOG_MAX_RECS + a;
    Remainder(p - d, q, a);
  }

  lemma OtherSlot(k: nat, n: nat)
    requires k < n < k + AMC_LOG_MAX_RECS
    ensures k % AMC_LOG_MAX_RECS != n % AMC_LOG_MAX_RECS
  {
    AheadOf(k, n);
    Remainder(n - k, 0, n - k);
  }

  /** The ring holds the last 50 of the messages `p`, of which `d` were written by the last drain. */
  predicate Holds(l: Log, p: seq<bytes>, d: nat)
    requires LogOk(l)
  {
    && l.index == |p| % AMC_LOG_MAX_RECS && l.last == d % AMC_LOG_MAX_RECS
    && forall k | 0 <= k < |p| && |p| - AMC_LOG_MAX_RECS <= k :: l.slots[k % AMC_LOG_MAX_RECS] == p[k]
  }

  lemma ProduceHolds(l: Log, p: seq<bytes>, d: nat, msg: bytes)
    requires LogOk(l) && Holds(l, p, d)
    ensures Holds(Step(l, Produce(msg)), p + [msg], d)
  {
    var r := Step(l, Produce(msg));
    ModAdd(|p|, 1);
    forall k | 0 <= k < |p| + 1 && |p| + 1 - AMC_LOG_MAX_RECS <= k
      ensures r.slots[k % AMC_LOG_MAX_RECS] == (p + [msg])[k]
    {
      if k < |p| {
        OtherSlot(k, |p|);
      }
    }
  }

  lemma {:induction false} RingHolds(events: seq<Event>)
    ensures Holds(Run(events), Produced(events), Drained(events))
  {
    hide Holds, Step;
    if events == [] {
      StartHolds();
    } else {
      var before, e := events[..|events| - 1], events[|events| - 1];
      RingHolds(before);
      if e.Produce? {
        ProduceHolds(Run(before), Produced(before), Drained(before), e.msg);
      } else {
        assert Produced(events) == Produced(before);
        DrainHolds(Run(before), Produced(before), Drained(before));
      }
    }
  }

  lemma StartHolds()
    ensures Holds(Run([]), [], 0)
  {
  }

  lemma DrainHolds(l: Log, p: seq<bytes>, d: nat)
    requires LogOk(l) && Holds(l, p, d)
    ensures Holds(Step(l, Drain), p, |p|)
  {
  }

  /** A drain within 50 messages of the one before reads exactly the messages since then. */
  lemma DrainReads(l: Log, p: seq<bytes>, d: nat)
    requires LogOk(l) && Holds(l, p, d) && d <= |p| < d + AMC_LOG_MAX_RECS
    ensures Entries(l.slots, l.last, Ahead(l.last, l.index)) == p[d..]
  {
    hide Ahead;
    AheadOf(d, |p|);
    Remainder(|p| - d, 0, |p| - d);
    forall k | 0 <= k < |p| - d ensures l.slots[(l.last + k) % AMC_LOG_MAX_RECS] == p[d..][k] {
      ModAdd(d, k);
    }
  }

  lemma Fewer(n: nat)
    ensures n % AMC_LOG_MAX_RECS <= n && (n >= AMC_LOG_MAX_RECS ==> n % AMC_LOG_MAX_RECS < n)
  {
  }

  /** In time, everything is read in order; once too late, messages are missing for good. */
  lemma {:induction false} SeenSoFar(events: seq<Event>)
    ensures InTime(events) ==> Run(events).seen == Produced(events)[..Drained(events)]
    ensures |Run(events).seen| <= Drained(events) && (!InTime(events) ==> |Run(events).seen| < Drained(events))
  {
    hide Holds, Ahead, Entries;
    if events != [] {
      var before, e := events[..|events| - 1], events[|events| - 1];
      var l, p, d := Run(before), Produced(before), Drained(before);
      SeenSoFar(before);
      RingHolds(before);
      if e.Drain? {
        assert Produced(events) == p && p[..|p|] == p && p[..d] + p[d..] == p;
        DrainSize(l, p, d);
        if |p| < d + AMC_LOG_MAX_RECS {
          DrainReads(l, p, d);
        }
      } else {
        assert (p + [e.msg])[..d] == p[..d];
      }
    }
  }

  lemma DrainSize(l: Log, p: seq<bytes>, d: nat)
    requires LogOk(l) && Holds(l, p, d) && d <= |p|
    ensures |Entries(l.slots, l.last, Ahead(l.last, l.index))| == (|p| - d) % AMC_LOG_MAX_RECS <= |p| - d
    ensures |p| - d >= AMC_LOG_MAX_RECS ==> (|p| - d) % AMC_LOG_MAX_RECS < |p| - d
  {
    hide Ahead;
    AheadOf(d, |p|);
    Fewer(|p| - d);
  }

  /** The driver has read every message up to the last drain, in order and without loss or repeat,
      exactly when the card never wrote 50 or more messages between two drains. */
  lemma LogIsExact(events: seq<Event>)
    ensures InTime(events) <==> Run(events).seen == Produced(events)[..Drained(events)]
  {
    hide InTime, Run, Produced, Drained;
    SeenSoFar(events);
  }
}
