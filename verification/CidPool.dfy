/** Command identifiers: get_gcq_cid and remove_gcq_cid over the kernel's cyclic allocator, and how soon
    an identifier can come back. */
module CidPool {
  import opened Bytes

  const MAX_COMMAND_IDS := 255
  const EBUSY := 16
  const EIO := 5

  /** The allocated identifiers and `next_cid_id`, which may be one past the largest identifier. */
  datatype Pool = Pool(inUse: set<nat>, next: nat)

  predicate PoolOk(p: Pool) {
    p.next <= MAX_COMMAND_IDS + 1 && forall id | id in p.inUse :: id <= MAX_COMMAND_IDS
  }

  /** The lowest identifier at or after `from` that is not in use. */
  function LowestFree(inUse: set<nat>, from: nat): (r: Option<nat>)
    requires from <= MAX_COMMAND_IDS + 1
    ensures r.Some? ==> from <= r.value <= MAX_COMMAND_IDS && r.value !in inUse
    ensures forall id | from <= id <= MAX_COMMAND_IDS && (r.Some? ==> id < r.value) :: id in inUse
    decreases MAX_COMMAND_IDS + 1 - from
  {
    if from > MAX_COMMAND_IDS then None
    else if from !in inUse then Some(from)
    else LowestFree(inUse, from + 1)
  }

  /** xa_alloc_cyclic: search from the cursor, then from zero. */
  function Allocate(p: Pool): (r: Option<nat>)
    requires PoolOk(p)
  {
    var above := LowestFree(p.inUse, p.next);
    if above.Some? then above else LowestFree(p.inUse, 0)
  }

  datatype Op = Get | Remove(id: nat)

  function Apply(p: Pool, op: Op): (q: Pool)
    requires PoolOk(p)
    ensures PoolOk(q)
  {
    match op
    case Get =>
      var r := Allocate(p);
      if r.None? then p else Pool(p.inUse + {r.value}, r.value + 1)
    case Remove(id) => p.(inUse := p.inUse - {id})
  }

  function Run(p: Pool, ops: seq<Op>): (q: Pool)
    requires PoolOk(p)
    ensures PoolOk(q)
  {
    if ops == [] then p else Apply(Run(p, ops[..|ops| - 1]), ops[|ops| - 1])
  }

  /** The identifiers handed out during a run, in order. */
  function HandedOut(p: Pool, ops: seq<Op>): (ids: seq<nat>)
    requires PoolOk(p)
  {
    if ops == [] then []
    else
      var before := HandedOut(p, ops[..|ops| - 1]);
      var r := Allocate(Run(p, ops[..|ops| - 1]));
      if ops[|ops| - 1].Get? && r.Some? then before + [r.value] else before
  }

  /** `cid_xarray` with the context stored for every identifier, and `next_cid_id`. */
  class CidTable {
    var contexts: map<nat, int>
    var next: nat

    ghost function State(): Pool
      reads this
    {
      Pool(contexts.Keys, next)
    }

    constructor ()
      ensures State() == Pool({}, 0)
    {
      contexts, next := map[], 0;
    }

    /** get_gcq_cid: an identifier that nobody holds, unless all 256 are held. */
    method GetGcqCid(ctx: int) returns (ret: int, id: nat)
      requires PoolOk(State())
      modifies this
      ensures PoolOk(State()) && State() == Apply(old(State()), Get)
      ensures ret == 0 <==> exists i: nat :: i <= MAX_COMMAND_IDS && i !in old(contexts)
      ensures ret == 0 ==> id <= MAX_COMMAND_IDS && id !in old(contexts) && contexts == old(contexts)[id := ctx]
      ensures ret != 0 ==> ret == -EBUSY && contexts == old(contexts)
    {
      id := 0;
      var r := Allocate(Pool(contexts.Keys, next));
      if r.None? {
        return -EBUSY, 0;
      }
      id := r.value;
      contexts, next := contexts[id := ctx], id + 1;
      ret := 0;
    }

    /** remove_gcq_cid: erases the identifier, and reports when it was held by another context. */
    method RemoveGcqCid(ctx: int, id: nat) returns (ret: int)
      requires PoolOk(State())
      modifies this
      ensures PoolOk(State()) && State() == Apply(old(State()), Remove(id))
      ensures contexts == old(contexts) - {id}
      ensures ret == if id in old(contexts) && old(contexts)[id] == ctx then 0 else -EIO
    {
      ret := if id in contexts && contexts[id] == ctx then 0 else -EIO;
      contexts := contexts - {id};
    }
  }

  // ----- Reuse distance -----

  predicate IsCid(id: nat) {
    id <= MAX_COMMAND_IDS
  }

  /** The identifier `o` positions after `k` in cyclic order; `k` itself is the last one. */
  function After(k: nat, o: nat): (id: nat)
    requires k <= MAX_COMMAND_IDS
    ensures id <= MAX_COMMAND_IDS
  {
    (k + 1 + o) % 256
  }

  /** Since `k` was handed out with `used` in use, every identifier the cursor moved over is in `used`
      or in `given`; `off` is how far the cursor is behind `k`. */
  ghost predicate Swept(p: Pool, k: nat, used: set<nat>, given: set<nat>, off: nat)
    requires k <= MAX_COMMAND_IDS
  {
    && p.inUse <= used + given
    && off <= 255 && p.next % 256 == After(k, off)
    && forall o: nat | o < off :: After(k, o) in used + given
  }

  ghost predicate AllTaken(used: set<nat>, given: set<nat>) {
    forall id: nat | IsCid(id) :: id in used + given
  }

  /** Every identifier has exactly one position. */
  lemma PositionOf(k: nat, id: nat)
    requires k <= MAX_COMMAND_IDS && id <= MAX_COMMAND_IDS
    ensures var o := if id > k then id - k - 1 else id + 255 - k;
            o <= 255 && After(k, o) == id && (o == 255 <==> id == k)
  {
  }

  function Position(k: nat, id: nat): (o: nat)
    requires k <= MAX_COMMAND_IDS && id <= MAX_COMMAND_IDS
    ensures o <= 255 && After(k, o) == id && (o == 255 <==> id == k)
  {
    PositionOf(k, id);
    if id > k then id - k - 1 else id + 255 - k
  }

  lemma PositionUnique(k: nat, o: nat)
    requires k <= MAX_COMMAND_IDS && o <= 255
    ensures Position(k, After(k, o)) == o
  {
    var id := After(k, o);
    assert id == if k + 1 + o >= 256 then k + 1 + o - 256 else k + 1 + o;
  }

  /** One allocation moves the cursor behind the identifier that it hands out, over identifiers that
      are all in use. */
  lemma SweepNext(p: Pool, k: nat, used: set<nat>, given: set<nat>, off: nat)
    requires PoolOk(p) && k <= MAX_COMMAND_IDS && Swept(p, k, used, given, off)
    requires Allocate(p).Some?
    ensures Allocate(p).value == k && k in used ==> AllTaken(used, given)
    ensures var id := Allocate(p).value;
            || AllTaken(used, given)
            || (off <= Position(k, id) &&
                (id != k ==> Swept(Apply(p, Get), k, used, given + {id}, Position(k, id) + 1)))
  {
    var id := Allocate(p).value;
    var o := Position(k, id);
    PositionUnique(k, off);
    if off <= o {
      forall x: nat | x < o + 1 ensures After(k, x) in used + (given + {id}) {
        if off <= x < o {
          Skipped(p, k, off, x);
        }
      }
      if id != k {
        assert (id + 1) % 256 == After(k, o + 1);
      } else if k in used {
        forall y: nat | IsCid(y) ensures y in used + given {
          PositionUnique(k, Position(k, y));
          if off <= Position(k, y) < 255 {
            Skipped(p, k, off, Position(k, y));
          }
        }
      }
    } else {
      forall y: nat | IsCid(y) ensures y in used + given {
        var x := Position(k, y);
        if off <= x {
          Wrapped(p, k, off, x);
        }
      }
    }
  }

  /** Positions between the cursor and the identifier found are in use. */
  lemma Skipped(p: Pool, k: nat, off: nat, x: nat)
    requires PoolOk(p) && k <= MAX_COMMAND_IDS && off <= x <= 255 && p.next % 256 == After(k, off)
    requires Allocate(p).Some? && x < Position(k, Allocate(p).value)
    ensures After(k, x) in p.inUse
  {
    PositionUnique(k, off);
    PositionUnique(k, x);
  }

  /** A search that wrapped found everything behind the cursor in use. */
  lemma Wrapped(p: Pool, k: nat, off: nat, x: nat)
    requires PoolOk(p) && k <= MAX_COMMAND_IDS && off <= x <= 255 && p.next % 256 == After(k, off)
    requires Allocate(p).Some? && Position(k, Allocate(p).value) < off
    ensures After(k, x) in p.inUse
  {
    PositionUnique(k, off);
    PositionUnique(k, x);
  }

  lemma RunStep(p: Pool, ops: seq<Op>, op: Op)
    requires PoolOk(p)
    ensures Run(p, ops + [op]) == Apply(Run(p, ops), op)
    ensures HandedOut(p, ops + [op]) == if op.Get? && Allocate(Run(p, ops)).Some?
                                        then HandedOut(p, ops) + [Allocate(Run(p, ops)).value] else HandedOut(p, ops)
  {
    assert (ops + [op])[..|ops|] == ops;
  }

  /** The whole run between handing out `k` and the next allocation of `k`. */
  lemma {:induction false} SweepRun(p: Pool, k: nat, ops: seq<Op>) returns (given: set<nat>, off: nat)
    requires PoolOk(p) && k in p.inUse && p.next == k + 1 && k !in HandedOut(p, ops)
    ensures |given| <= |HandedOut(p, ops)|
    ensures AllTaken(p.inUse, given) || Swept(Run(p, ops), k, p.inUse, given, off)
    decreases |ops|
  {
    if ops == [] {
      given, off := {}, 0;
    } else {
      hide Run, HandedOut, Allocate, Swept, AllTaken;
      var ops', op := ops[..|ops| - 1], ops[|ops| - 1];
      assert ops == ops' + [op];
      RunStep(p, ops', op);
      given, off := SweepRun(p, k, ops');
      if !AllTaken(p.inUse, given) {
        given, off := SweepOp(Run(p, ops'), op, k, p.inUse, given, off);
      }
    }
  }

  /** One operation: an allocation moves the sweep on and adds one identifier, a release does neither. */
  lemma SweepOp(q: Pool, op: Op, k: nat, used: set<nat>, given: set<nat>, off: nat)
    returns (given': set<nat>, off': nat)
    requires PoolOk(q) && k <= MAX_COMMAND_IDS && Swept(q, k, used, given, off) && !AllTaken(used, given)
    requires op.Get? && Allocate(q).Some? ==> Allocate(q).value != k
    ensures Swept(Apply(q, op), k, used, given', off')
    ensures |given'| <= |given| + (if op.Get? && Allocate(q).Some? then 1 else 0)
  {
    given', off' := given, off;
    if op.Get? && Allocate(q).Some? {
      SweepNext(q, k, used, given, off);
      given', off' := given + {Allocate(q).value}, Position(k, Allocate(q).value) + 1;
    }
  }

  /** The identifiers below `n`. */
  function Below(n: nat): (ids: set<nat>)
    ensures |ids| == n && forall id: nat :: id in ids <==> id < n
  {
    if n == 0 then {} else Below(n - 1) + {n - 1}
  }

  /** Between two allocations of an identifier there are at least as many other allocations as there
      were identifiers not in use at the first one, whatever is released in between. */
  lemma ReuseDistance(p: Pool, k: nat, ops: seq<Op>)
    requires PoolOk(p) && k in p.inUse && p.next == k + 1
    requires k !in HandedOut(p, ops) && Allocate(Run(p, ops)) == Some(k)
    ensures |HandedOut(p, ops)| >= 256 - |p.inUse|
  {
    hide Run, HandedOut, Allocate, Swept;
    var given, off := SweepRun(p, k, ops);
    if !AllTaken(p.inUse, given) {
      SweepNext(Run(p, ops), k, p.inUse, given, off);
    }
    AllTakenSize(p.inUse, given, MAX_COMMAND_IDS + 1);
  }

  lemma AllTakenSize(used: set<nat>, given: set<nat>, n: nat)
    requires AllTaken(used, given) && n == MAX_COMMAND_IDS + 1
    ensures |used| + |given| >= n
  {
    var ids, taken := Below(n), used + given;
    forall id | id in ids ensures id in taken {
      assert IsCid(id);
    }
    assert taken == ids + (taken - ids);
    assert |taken| == |used| + |given| - |used * given|;
  }

  /** An allocation hands out an identifier that is free, and finds one whenever there is one. */
  lemma AllocationIsFresh(p: Pool)
    requires PoolOk(p)
    ensures Allocate(p).Some? <==> exists id: nat :: IsCid(id) && id !in p.inUse
    ensures Allocate(p).Some? ==> IsCid(Allocate(p).value) && Allocate(p).value !in p.inUse
  {
  }

  function Gets(n: nat): seq<Op> {
    if n == 0 then [] else Gets(n - 1) + [Get]
  }

  // ----- Submissions that fail before they have an identifier -----

  // Such a submission still releases `cmd_cid`, which is 0 then. So does one that finds all identifiers
  // held: it has none, and releases 0.

  /** It changes nothing exactly when identifier 0 is not in use. */
  lemma EarlyFailureIsHarmless(p: Pool)
    requires PoolOk(p)
    ensures Apply(p, Remove(0)) == p <==> 0 !in p.inUse
  {
    assert 0 !in p.inUse ==> p.inUse - {0} == p.inUse;
  }

  /** From any pool in which 0 is free, allocations come to hand it out. */
  lemma {:induction false} GetsReachZero(p: Pool, ops: seq<Op>, n: nat) returns (m: nat)
    requires PoolOk(p) && 0 !in Run(p, ops + Gets(n)).inUse
    ensures Allocate(Run(p, ops + Gets(m))) == Some(0)
    decreases MAX_COMMAND_IDS + 1 - Run(p, ops + Gets(n)).next
  {
    hide Run;
    var q := Run(p, ops + Gets(n));
    m := n;
    if Allocate(q) != Some(0) {
      RunStep(p, ops + Gets(n), Get);
      assert ops + Gets(n + 1) == ops + Gets(n) + [Get];
      m := GetsReachZero(p, ops, n + 1);
    }
  }

  /** Whenever identifier 0 is in use, an early failure lets it be handed out a second time, after some number
      of allocations, although its holder never released it. */
  lemma EarlyFailureSharesZero(p: Pool) returns (n: nat)
    requires PoolOk(p) && 0 in p.inUse
    ensures Allocate(Run(p, [Remove(0)] + Gets(n))) == Some(0)
  {
    assert [] + [Remove(0)] == [Remove(0)] && [Remove(0)] + Gets(0) == [Remove(0)];
    RunStep(p, [], Remove(0));
    n := GetsReachZero(p, [Remove(0)], 0);
  }

  /** The identifiers, and the command that holds each of them. */
  datatype Table = Table(pool: Pool, held: map<nat, nat>)

  /** Every command in flight has an identifier of its own, which is in use. */
  ghost predicate TableOk(t: Table) {
    && PoolOk(t.pool)
    && (forall c | c in t.held :: t.held[c] in t.pool.inUse)
    && (forall c, d | c in t.held && d in t.held && c != d :: t.held[c] != t.held[d])
  }

  /** Two commands in flight hold identifier 0. */
  ghost predicate ZeroIsShared(t: Table) {
    exists c, d :: c in t.held && d in t.held && c != d && t.held[c] == t.held[d] == 0
  }

  datatype Event = Begin(c: nat) | End(c: nat) | EarlyFailure

  /** One submission of submit_gcq_command begins, ends, or fails early. */
  function Happen(t: Table, e: Event): (u: Table)
    requires PoolOk(t.pool)
    ensures PoolOk(u.pool)
  {
    match e
    case Begin(c) =>
      var id := Allocate(t.pool);
      if c in t.held then t
      else if id.None? then t.(pool := Apply(t.pool, Remove(0)))
      else Table(Apply(t.pool, Get), t.held[c := id.value])
    case End(c) => if c in t.held then Table(Apply(t.pool, Remove(t.held[c])), t.held - {c}) else t
    case EarlyFailure => t.(pool := Apply(t.pool, Remove(0)))
  }

  /** The event fails before it has an identifier, while some command holds 0. */
  ghost predicate Harms(t: Table, e: Event)
    requires PoolOk(t.pool)
  {
    && (e.EarlyFailure? || (e.Begin? && e.c !in t.held && Allocate(t.pool).None?))
    && exists c :: c in t.held && t.held[c] == 0
  }

  function Later(t: Table, events: seq<Event>): (u: Table)
    requires PoolOk(t.pool)
    ensures PoolOk(u.pool)
    decreases events
  {
    if events == [] then t else Later(Happen(t, events[0]), events[1..])
  }

  ghost predicate NeverHarms(t: Table, events: seq<Event>)
    requires PoolOk(t.pool)
    decreases events
  {
    events == [] || (!Harms(t, events[0]) && NeverHarms(Happen(t, events[0]), events[1..]))
  }

  ghost predicate AlwaysOk(t: Table, events: seq<Event>)
    requires PoolOk(t.pool)
    decreases events
  {
    TableOk(t) && (events == [] || AlwaysOk(Happen(t, events[0]), events[1..]))
  }

  lemma StepOk(t: Table, e: Event)
    requires TableOk(t)
    ensures TableOk(Happen(t, e)) <==> !Harms(t, e)
  {
    AllocationIsFresh(t.pool);
    hide Allocate;
    if c :| c in t.held && t.held[c] == 0 && Harms(t, e) {
      assert c in Happen(t, e).held && Happen(t, e).held[c] !in Happen(t, e).pool.inUse;
    }
  }

  /** In every run, the identifiers of the commands in flight stay different and in use exactly as long as no
      submission fails early while some command holds 0. */
  lemma {:induction false} DistinctExactly(t: Table, events: seq<Event>)
    requires TableOk(t)
    ensures AlwaysOk(t, events) <==> NeverHarms(t, events)
    decreases events
  {
    hide Harms, Happen;
    if events != [] {
      StepOk(t, events[0]);
      if !Harms(t, events[0]) {
        DistinctExactly(Happen(t, events[0]), events[1..]);
      }
    }
  }

  lemma {:induction false} NewCommand(s: set<nat>) returns (c: nat)
    ensures forall d | d in s :: d < c
    decreases s
  {
    c := 0;
    if d :| d in s {
      var b := NewCommand(s - {d});
      c := if b > d then b else d + 1;
      assert forall x | x in s :: x == d || x in s - {d};
    }
  }

  /** Once 0 is held but not in use, new commands alone lead to a second holder of 0. */
  lemma {:induction false} HarmShares(t: Table, c: nat) returns (events: seq<Event>)
    requires PoolOk(t.pool) && c in t.held && t.held[c] == 0 && 0 !in t.pool.inUse
    ensures NeverHarms(t, events) && ZeroIsShared(Later(t, events))
    decreases MAX_COMMAND_IDS + 1 - t.pool.next
  {
    AllocationIsFresh(t.pool);
    var d := NewCommand(t.held.Keys);
    var u := Happen(t, Begin(d));
    assert IsCid(0) && Allocate(t.pool).Some? && !Harms(t, Begin(d));
    if Allocate(t.pool) == Some(0) {
      events := [Begin(d)];
      assert Later(u, []) == u && c in u.held && d in u.held && c != d && u.held[c] == u.held[d] == 0;
    } else {
      var rest := HarmShares(u, c);
      events := [Begin(d)] + rest;
      assert events[1..] == rest;
    }
  }

  lemma {:induction false} NeverHarmsNeverShares(t: Table, events: seq<Event>)
    requires TableOk(t) && NeverHarms(t, events)
    ensures TableOk(Later(t, events))
    decreases events
  {
    hide Harms, Happen;
    if events != [] {
      StepOk(t, events[0]);
      NeverHarmsNeverShares(Happen(t, events[0]), events[1..]);
    }
  }

  /** Some run of submissions, none of which does harm, leads to two commands holding 0. */
  ghost predicate SharingFollows(t: Table)
    requires PoolOk(t.pool)
  {
    exists events: seq<Event> :: NeverHarms(t, events) && ZeroIsShared(Later(t, events))
  }

  /** An early failure makes it possible that two commands come to hold 0 exactly when some command holds 0 at
      the time. */
  lemma EarlyFailureHarmsExactly(t: Table)
    requires TableOk(t)
    ensures SharingFollows(Happen(t, EarlyFailure)) <==> exists c :: c in t.held && t.held[c] == 0
  {
    hide NeverHarms, Later, Allocate;
    var u := Happen(t, EarlyFailure);
    if c :| c in t.held && t.held[c] == 0 {
      var events := HarmShares(u, c);
      assert SharingFollows(u);
    } else {
      StepOk(t, EarlyFailure);
      forall events: seq<Event> | NeverHarms(u, events) ensures !ZeroIsShared(Later(u, events)) {
        NeverHarmsNeverShares(u, events);
      }
      assert !SharingFollows(u);
    }
  }
}
