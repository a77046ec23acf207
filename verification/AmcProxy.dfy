/** The proxy's walks over its list of submitted commands, on the commands themselves. Each walk holds the
    lock from its first to its last step, and does what the steps of the protocol do one by one. */
module AmcProxy {
  import opened Bytes
  import opened ProxyProtocol

  // ----- Whole walks of the protocol -----

  /** `n` steps of the thread that holds the lock. */
  function Walks(s: State, n: nat): Option<State>
    decreases n
  {
    if n == 0 then Some(s)
    else
      var r := Walked(s);
      if r.None? then None else Walks(r.value, n - 1)
  }

  /** All of `rest` has been submitted and exists. */
  predicate Known(s: State, rest: seq<CommandId>) {
    forall i | 0 <= i < |rest| :: rest[i] in s.commands
  }

  /** What a timeout does to a command. */
  function Expired(d: Command): Command {
    d.(rcode := -ETIME, completions := d.completions + 1, timedOut := true)
  }

  function ScanOne(s: State, c: CommandId, drain: bool): State
    requires c in s.commands
  {
    if s.commands[c].deadline < s.now then
      s.(commands := s.commands[c := Expired(s.commands[c])],
         submitted := if drain then Without(s.submitted, c) else s.submitted)
    else s
  }

  /** The state after a scan of the commands `rest`. */
  function Scanned(s: State, rest: seq<CommandId>, drain: bool): State
    requires Known(s, rest)
    decreases rest
  {
    if rest == [] then s else Scanned(ScanOne(s, rest[0], drain), rest[1..], drain)
  }

  /** The first of `rest` with the identifier of a response. */
  function Match(s: State, rest: seq<CommandId>, cid: nat): (r: Option<CommandId>)
    requires Known(s, rest)
    ensures r.Some? ==> r.value in rest && s.commands[r.value].cid == cid
    ensures r.None? ==> forall i | 0 <= i < |rest| :: s.commands[rest[i]].cid != cid
  {
    if rest == [] then None
    else if s.commands[rest[0]].cid == cid then Some(rest[0])
    else Match(s, rest[1..], cid)
  }

  /** The state after a response was stored in a command, and its waiter woken. */
  function Given(s: State, c: CommandId, response: Response): State
    requires c in s.commands
  {
    var d := s.commands[c];
    s.(commands := s.commands[c := d.(result := response.result, code := response.code,
                                      answer := Some(response), completions := d.completions + 1)],
       submitted := Without(s.submitted, c))
  }

  /** The state after a response: it goes to the first command in the list with its identifier. */
  function Answered(s: State, rest: seq<CommandId>, response: Response): State
    requires Known(s, rest)
  {
    var c := Match(s, rest, response.cid);
    if c.None? then s else Given(s, c.value, response)
  }

  lemma {:induction false} WalksJoin(s: State, n: nat, t: State, m: nat)
    requires Walks(s, n) == Some(t)
    ensures Walks(s, n + m) == Walks(t, m)
    decreases n
  {
    if n > 0 {
      WalksJoin(Walked(s).value, n - 1, t, m);
    }
  }

  lemma ScanOneSteps(s: State, rest: seq<CommandId>, drain: bool)
    requires rest != [] && Known(s, rest) && s.walker == Scanning(rest, drain)
    ensures var n := if s.commands[rest[0]].deadline < s.now then 3 else 1;
            Walks(s, n) == Some(ScanOne(s, rest[0], drain).(walker := Scanning(rest[1..], drain)))
  {
    hide Without;
    var c := rest[0];
    if s.commands[c].deadline < s.now {
      var s1 := Walked(s).value;
      var s2 := Walked(s1).value;
      assert Walks(s2, 1) == Walked(s2);
      assert Walks(s1, 2) == Walks(s2, 1);
      assert Walks(s, 3) == Walks(s1, 2);
      assert Walked(s2).value.commands == s.commands[c := Expired(s.commands[c])];
    } else {
      assert Walks(s, 1) == Walked(s);
    }
  }

  /** A scan that nothing interrupts is the steps of the protocol from its start to the release of the lock. */
  lemma {:induction false} ScanIsSteps(s: State, rest: seq<CommandId>, drain: bool) returns (n: nat)
    requires Known(s, rest)
    ensures Walks(s.(walker := Scanning(rest, drain)), n) == Some(Scanned(s, rest, drain).(walker := Unlocked))
    decreases rest
  {
    hide ScanOne, Without;
    var start := s.(walker := Scanning(rest, drain));
    if rest == [] {
      assert Walks(start, 1) == Walked(start);
      n := 1;
    } else {
      hide Walked;
      ScanOneSteps(start, rest, drain);
      ScanOneOf(s, rest[0], drain);
      var k := if s.commands[rest[0]].deadline < s.now then 3 else 1;
      var m := ScanIsSteps(ScanOne(s, rest[0], drain), rest[1..], drain);
      WalksJoin(start, k, ScanOne(s, rest[0], drain).(walker := Scanning(rest[1..], drain)), m);
      n := k + m;
    }
  }

  lemma ScanOneOf(s: State, c: CommandId, drain: bool)
    requires c in s.commands
    ensures forall w :: ScanOne(s.(walker := w), c, drain) == ScanOne(s, c, drain).(walker := w)
    ensures ScanOne(s, c, drain).commands.Keys == s.commands.Keys
  {
  }

  lemma GivenSteps(s: State, rest: seq<CommandId>, response: Response)
    requires rest != [] && Known(s, rest) && s.walker == Finding(response, rest)
    requires s.commands[rest[0]].cid == response.cid
    ensures Walks(s, 2) == Some(Given(s, rest[0], response).(walker := Unlocked))
  {
    hide Without, Walked;
    var c := rest[0];
    var d := s.commands[c].(result := response.result, code := response.code, answer := Some(response));
    var s1 := s.(commands := s.commands[c := d], submitted := Without(s.submitted, c), walker := Completing(c));
    var s2 := Given(s, c, response).(walker := Unlocked);
    StoreStep(s, rest, response);
    SignalStep(s1, c);
    Overwrite(s.commands, c, d, d.(completions := d.completions + 1));
    assert Walks(s1, 1) == Walked(s1);
    assert Walks(s, 2) == Walks(s1, 1);
  }

  lemma StoreStep(s: State, rest: seq<CommandId>, response: Response)
    requires rest != [] && Known(s, rest) && s.walker == Finding(response, rest)
    requires s.commands[rest[0]].cid == response.cid
    ensures var c := rest[0];
            var d := s.commands[c].(result := response.result, code := response.code, answer := Some(response));
            Walked(s) ==
            Some(s.(commands := s.commands[c := d], submitted := Without(s.submitted, c), walker := Completing(c)))
  {
    hide Without;
  }

  lemma SignalStep(s: State, c: CommandId)
    requires c in s.commands && s.walker == Completing(c)
    ensures Walked(s) == Some(Signalled(s, c).(walker := Unlocked))
  {
  }

  lemma Overwrite(m: map<CommandId, Command>, c: CommandId, d: Command, e: Command)
    ensures m[c := d][c := e] == m[c := e]
  {
  }

  lemma PassedSteps(s: State, rest: seq<CommandId>, response: Response)
    requires Known(s, rest) && s.walker == Finding(response, rest)
    requires rest != [] ==> s.commands[rest[0]].cid != response.cid
    ensures Walks(s, 1) == Some(s.(walker := if rest == [] then Unlocked else Finding(response, rest[1..])))
  {
    assert Walks(s, 1) == Walked(s);
  }

  /** So is the search for the command of a response. */
  lemma {:induction false} SearchIsSteps(s: State, rest: seq<CommandId>, response: Response) returns (n: nat)
    requires Known(s, rest)
    ensures Walks(s.(walker := Finding(response, rest)), n) == Some(Answered(s, rest, response).(walker := Unlocked))
    decreases rest
  {
    hide Walked, Walks, Without;
    var start := s.(walker := Finding(response, rest));
    if rest != [] && s.commands[rest[0]].cid == response.cid {
      GivenSteps(start, rest, response);
      n := 2;
    } else {
      PassedSteps(start, rest, response);
      n := 1;
      if rest != [] {
        var m := SearchIsSteps(s, rest[1..], response);
        WalksJoin(start, 1, s.(walker := Finding(response, rest[1..])), m);
        n := 1 + m;
      }
    }
  }

  /** What a scan comes to: the commands over their deadline expire, and a drain takes them off the list. */
  lemma {:induction false} ScanExpires(s: State, rest: seq<CommandId>, drain: bool, c: CommandId)
    requires Known(s, rest) && Distinct(rest) && c in s.commands
    ensures var r := Scanned(s, rest, drain);
            && r.commands.Keys == s.commands.Keys && r.now == s.now && r.pool == s.pool && r.walker == s.walker
            && r.commands[c] ==
                 (if c in rest && s.commands[c].deadline < s.now then Expired(s.commands[c]) else s.commands[c])
            && (c in r.submitted <==> c in s.submitted && !(drain && c in rest && s.commands[c].deadline < s.now))
    decreases rest
  {
    hide Expired;
    if rest != [] {
      assert rest[0] !in rest[1..];
      var t := ScanOne(s, rest[0], drain);
      ScanExpires(t, rest[1..], drain, c);
      assert c in rest <==> c == rest[0] || c in rest[1..];
    }
  }

  // ----- The commands and the list -----

  datatype ProxyEvent = ResponseComplete | ResponseTimeout | OtherEvent

  /** `struct amc_proxy_cmd_struct`: what the proxy and its callback write. `completions` is the state of
      the completion that the requester waits for. */
  class ProxyCommand {
    const id: CommandId
    var cid: nat
    var deadline: nat
    var completions: nat
    var timedOut: bool
    var rcode: int
    var result: int
    var code: int
  }

  predicate Shows(c: ProxyCommand, d: Command)
    reads c
  {
    && c.cid == d.cid && c.deadline == d.deadline && c.completions == d.completions && c.timedOut == d.timedOut
    && c.rcode == d.rcode && c.result == d.result && c.code == d.code
  }

  function Ids(list: seq<ProxyCommand>): (ids: seq<CommandId>)
    ensures |ids| == |list| && forall i | 0 <= i < |list| :: ids[i] == list[i].id
  {
    if list == [] then [] else [list[0].id] + Ids(list[1..])
  }

  lemma NextId(list: seq<ProxyCommand>)
    requires list != []
    ensures list[0] in list && Ids(list)[0] == list[0].id && Ids(list)[1..] == Ids(list[1..])
  {
  }

  /** list_del */
  function Unlinked(list: seq<ProxyCommand>, c: ProxyCommand): (r: seq<ProxyCommand>)
    ensures forall x | x in r :: x in list && x != c
  {
    if list == [] then []
    else if list[0] == c then Unlinked(list[1..], c)
    else [list[0]] + Unlinked(list[1..], c)
  }

  ghost predicate DifferentIds(world: set<ProxyCommand>) {
    forall c, d | c in world && d in world && c.id == d.id :: c == d
  }

  lemma {:induction false} UnlinkedIds(world: set<ProxyCommand>, list: seq<ProxyCommand>, c: ProxyCommand)
    requires DifferentIds(world) && c in world && forall x | x in list :: x in world
    ensures Ids(Unlinked(list, c)) == Without(Ids(list), c.id)
  {
    if list != [] {
      UnlinkedIds(world, list[1..], c);
      assert list[0] in list && Ids(list)[1..] == Ids(list[1..]);
    }
  }

  lemma {:induction false} UnlinkedTwice(list: seq<ProxyCommand>, c: ProxyCommand)
    ensures Unlinked(Unlinked(list, c), c) == Unlinked(list, c) && (c !in list ==> Unlinked(list, c) == list)
  {
    if list != [] {
      UnlinkedTwice(list[1..], c);
    }
  }

  lemma {:induction false} IdIsListed(world: set<ProxyCommand>, list: seq<ProxyCommand>, c: ProxyCommand)
    requires DifferentIds(world) && c in world && forall x | x in list :: x in world
    ensures c.id in Ids(list) <==> c in list
  {
  }

  /** amc_proxy_callback */
  method AmcProxyCallback(event: ProxyEvent, cmd: ProxyCommand) returns (ret: int)
    modifies cmd`completions, cmd`timedOut
    ensures ret == if event.OtherEvent? then -EIO else 0
    ensures cmd.completions == old(cmd.completions) + (if event.OtherEvent? then 0 else 1)
    ensures cmd.timedOut == (old(cmd.timedOut) || event.ResponseTimeout?)
  {
    ret := 0;
    if event.ResponseComplete? {
      cmd.completions := cmd.completions + 1;
    } else if event.ResponseTimeout? {
      cmd.completions := cmd.completions + 1;
      cmd.timedOut := true;
    } else {
      ret := -EIO;
    }
  }

  /** `struct amc_proxy_instance` */
  class ProxyInstance {
    var submitted: seq<ProxyCommand>

    /** The list and the commands of `world` are those of the protocol state `s`. */
    ghost predicate Matches(world: set<ProxyCommand>, s: State)
      reads this, world
    {
      && DifferentIds(world) && s.submitted == Ids(submitted) && (forall c | c in submitted :: c in world)
      && forall c | c in world :: c.id in s.commands && Shows(c, s.commands[c.id])
    }

    lemma SubmittedAreKnown(world: set<ProxyCommand>, s: State)
      requires Matches(world, s)
      ensures Known(s, s.submitted)
    {
      forall i | 0 <= i < |submitted| ensures s.submitted[i] in s.commands {
        assert submitted[i] in submitted;
      }
    }

    /** A command over its deadline: the code is set and the requester told. */
    method Expire(cmd: ProxyCommand, ghost world: set<ProxyCommand>, ghost s: State)
      requires Matches(world, s) && cmd in world
      modifies cmd
      ensures Matches(world, s.(commands := s.commands[cmd.id := Expired(s.commands[cmd.id])]))
    {
      cmd.rcode := -ETIME;
      var _ := AmcProxyCallback(ResponseTimeout, cmd);
      assert forall c | c in world && c.id == cmd.id :: c == cmd;
    }

    /** amc_proxy_submitted_cmd_check_timeout */
    method CheckTimeout(now: nat, ghost world: set<ProxyCommand>, ghost s: State)
      requires Matches(world, s) && s.now == now
      modifies world
      ensures Known(s, s.submitted) && Matches(world, Scanned(s, s.submitted, false))
    {
      SubmittedAreKnown(world, s);
      hide Without, Expired, DifferentIds, Ids;
      var rest := submitted;
      ghost var m := s;
      while rest != []
        invariant Matches(world, m) && m.now == now && (forall c | c in rest :: c in world) && Known(m, Ids(rest))
        invariant Scanned(m, Ids(rest), false) == Scanned(s, s.submitted, false)
        invariant submitted == old(submitted)
      {
        var cmd := rest[0];
        ghost var next := ScanOne(m, cmd.id, false);
        NextId(rest);
        rest := rest[1..];
        if cmd.deadline < now {
          Expire(cmd, world, m);
        }
        m := next;
      }
    }

    /** list_del of a command on the list. */
    method Unlink(cmd: ProxyCommand, ghost world: set<ProxyCommand>, ghost s: State)
      requires Matches(world, s) && cmd in world
      modifies this
      ensures Matches(world, s.(submitted := Without(s.submitted, cmd.id)))
      ensures submitted == Unlinked(old(submitted), cmd)
    {
      UnlinkedIds(world, submitted, cmd);
      submitted := Unlinked(submitted, cmd);
    }

    /** amc_proxy_submitted_cmds_drain */
    method Drain(now: nat, ghost world: set<ProxyCommand>, ghost s: State)
      requires Matches(world, s) && s.now == now
      modifies this, world
      ensures Known(s, s.submitted) && Matches(world, Scanned(s, s.submitted, true))
    {
      SubmittedAreKnown(world, s);
      hide Without, Expired, DifferentIds, Ids, Unlinked;
      var rest := submitted;
      ghost var m := s;
      while rest != []
        invariant Matches(world, m) && m.now == now && (forall c | c in rest :: c in world) && Known(m, Ids(rest))
        invariant Scanned(m, Ids(rest), true) == Scanned(s, s.submitted, true)
      {
        var cmd := rest[0];
        ghost var next := ScanOne(m, cmd.id, true);
        NextId(rest);
        rest := rest[1..];
        if cmd.deadline < now {
          Unlink(cmd, world, m);
          Expire(cmd, world, m.(submitted := next.submitted));
        }
        m := next;
      }
    }

    /** amc_proxy_cmd_complete */
    method CmdComplete(response: Response, ghost world: set<ProxyCommand>, ghost s: State)
      requires Matches(world, s)
      modifies this, world
      ensures Known(s, s.submitted) && Matches(world, Answered(s, s.submitted, response))
    {
      SubmittedAreKnown(world, s);
      hide Without, DifferentIds, Ids, Unlinked;
      var rest := submitted;
      while rest != []
        invariant Matches(world, s) && (forall c | c in rest :: c in world) && Known(s, Ids(rest))
        invariant Match(s, Ids(rest), response.cid) == Match(s, s.submitted, response.cid)
      {
        var cmd := rest[0];
        NextId(rest);
        rest := rest[1..];
        if cmd.cid == response.cid {
          Complete(cmd, response, world, s);
          return;
        }
      }
    }

    /** The response is stored, the command unlinked, and the requester told, in this order. */
    method Complete(cmd: ProxyCommand, response: Response, ghost world: set<ProxyCommand>, ghost s: State)
      requires Matches(world, s) && cmd in world
      modifies this, cmd
      ensures Matches(world, Given(s, cmd.id, response))
    {
      hide Without, Ids, Unlinked;
      cmd.result := response.result;
      cmd.code := response.code;
      UnlinkedIds(world, submitted, cmd);
      submitted := Unlinked(submitted, cmd);
      var _ := AmcProxyCallback(ResponseComplete, cmd);
      assert forall c | c in world && c.id == cmd.id :: c == cmd;
    }

    /** amc_proxy_remove_submitted_cmd */
    method RemoveSubmittedCmd(ccmd: ProxyCommand)
      modifies this, ccmd`rcode
      ensures submitted == Unlinked(old(submitted), ccmd)
      ensures ccmd.rcode == if ccmd in old(submitted) then -EIO else old(ccmd.rcode)
    {
      hide Unlinked;
      var rest := submitted;
      ghost var met := false;
      UnlinkedTwice(submitted, ccmd);
      while rest != []
        invariant forall c | c in rest :: c in old(submitted)
        invariant if met then ccmd in old(submitted) else ccmd in rest || ccmd !in old(submitted)
        invariant submitted == if met then Unlinked(old(submitted), ccmd) else old(submitted)
        invariant ccmd.rcode == if met then -EIO else old(ccmd.rcode)
      {
        var cmd := rest[0];
        assert rest == [cmd] + rest[1..];
        rest := rest[1..];
        if cmd == ccmd {
          submitted := Unlinked(submitted, cmd);
          cmd.rcode := -EIO;
          met := true;
        }
      }
    }

    /** amc_proxy_request_abort: the step of the protocol that takes the lock. */
    method RequestAbort(cmd: ProxyCommand, ghost world: set<ProxyCommand>, ghost s: State)
      requires Matches(world, s) && cmd in world && s.walker == Unlocked && s.commands[cmd.id].phase.Aborting?
      modifies this, cmd`rcode
      ensures Matches(world, Next(s, Abort(cmd.id)).value)
    {
      hide Unlinked, Without, Ids;
      UnlinkedIds(world, submitted, cmd);
      IdIsListed(world, submitted, cmd);
      RemoveSubmittedCmd(cmd);
      assert forall c | c in world && c.id == cmd.id :: c == cmd;
    }

    /** The tail of amc_proxy_request_*, after a successful write. */
    method Enlist(cmd: ProxyCommand, ghost world: set<ProxyCommand>, ghost s: State)
      requires Matches(world, s) && cmd in world && s.walker == Unlocked && s.commands[cmd.id].phase == Written
      modifies this
      ensures Matches(world, Next(s, ProxyProtocol.Enlist(cmd.id)).value)
    {
      submitted := submitted + [cmd];
      assert Ids(submitted) == Ids(old(submitted)) + [cmd.id];
    }
  }
}
