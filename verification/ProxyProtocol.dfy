/** The AMC command protocol as a state machine: requesters in submit_gcq_command, the response thread,
    and the device, interleaved at every point where the source lets them. A critical section of the
    proxy lock that touches one command is one step; the walks of the response thread over the list of
    submitted commands hold the lock across several steps, because waiters read a command without it. */
module ProxyProtocol {
  import opened Bytes
  import CidPool

  const EINVAL := 22
  const EIO := 5
  const ETIME := 62
  const EPROTO := 71
  const ENODATA := 61
  const ETIMEDOUT := 110
  const EALREADY := 114
  const ERESTARTSYS := 512

  type CommandId = nat

  type GoodPool = p: CidPool.Pool | CidPool.PoolOk(p) witness CidPool.Pool({}, 0)

  /** What decides the result once a response was read: nothing (identify), the payload (sensors), or
      the code that the AMC returned (all other commands). */
  datatype Kind = Identify | Sensor | Coded

  /** A completion queue entry: cid, the payload's result word, and the return code. */
  datatype Response = Response(cid: nat, result: int, code: int)

  /** Where a requester stands in submit_gcq_command. */
  datatype Phase =
    | Ready                  // has its identifier, about to write to the request queue
    | Written                // written to the queue, about to enter the list
    | Waiting                // in wait_for_completion_killable
    | Woken                  // the wait ended normally, `timed_out` not read yet
    | NotTimedOut            // `timed_out` was read as false, `cmd_rcode` not read yet
    | Reading                // `cmd_rcode` was read as 0, about to read the response
    | Aborting(ret: int)     // about to take the lock in amc_proxy_request_abort
    | Returning(ret: int)    // about to release the identifier
    | Released(ret: int)     // about to free the command
    | Freed(ret: int)

  /** amc_proxy_cmd_struct, with `answer` recording the response that was stored in it. */
  datatype Command = Command(
    cid: nat, kind: Kind, deadline: nat, phase: Phase, completions: nat, timedOut: bool, rcode: int,
    result: int, code: int, answer: Option<Response>)

  /** Who holds the proxy lock across steps. */
  datatype Walker =
    | Unlocked
    | Finding(response: Response, rest: seq<CommandId>)        // amc_proxy_cmd_complete, walking
    | Completing(c: CommandId)                                 // response stored and unlinked, about to signal
    | Scanning(rest: seq<CommandId>, drain: bool)              // check_timeout or drain, walking
    | Expiring(c: CommandId, rest: seq<CommandId>, drain: bool) // cmd_rcode set, about to signal
    | Flagging(c: CommandId, rest: seq<CommandId>, drain: bool) // signalled, about to set timed_out

  datatype State = State(
    commands: map<CommandId, Command>,
    submitted: seq<CommandId>,
    walker: Walker,
    pool: GoodPool,
    now: nat)

  datatype Step =
    | Submit(c: CommandId, kind: Kind, deadline: nat)
    | WriteOk(c: CommandId)
    | WriteFails(c: CommandId)
    | Enlist(c: CommandId)
    | Wake(c: CommandId)
    | Kill(c: CommandId)
    | ReadTimedOut(c: CommandId)
    | ReadRcode(c: CommandId)
    | ReadResponse(c: CommandId)
    | Abort(c: CommandId)
    | ReleaseCid(c: CommandId)
    | Free(c: CommandId)
    | Receive(response: Response)
    | StartScan(drain: bool)
    | Walk
    | Tick

  /** amc_result_to_linux_errno */
  function AmcResultToErrno(code: int): (ret: int)
    ensures ret == 0 <==> code == 0
  {
    if code == 0 then 0
    else if code == 1 then -EIO
    else if code == 2 then -EINVAL
    else if code == 3 then -EPROTO
    else if code == 4 then -EPROTO
    else if code == 5 then -EALREADY
    else if code == 6 then -ENODATA
    else -EINVAL
  }

  /** amc_proxy_get_response_*: the result of a command whose response was read. */
  function ResponseResult(d: Command): int {
    match d.kind
    case Identify => 0
    case Sensor => d.result
    case Coded => AmcResultToErrno(d.code)
  }

  function Without(s: seq<CommandId>, c: CommandId): (r: seq<CommandId>)
    ensures forall x :: x in r <==> x in s && x != c
    ensures Distinct(s) ==> Distinct(r)
  {
    if s == [] then []
    else
      var r := Without(s[1..], c);
      assert Distinct(s) ==> s[0] !in s[1..] && Distinct(s[1..]);
      if s[0] == c then r else [s[0]] + r
  }

  predicate Distinct(s: seq<CommandId>) {
    forall i, j | 0 <= i < j < |s| :: s[i] != s[j]
  }

  function Initial(): State {
    State(map[], [], Unlocked, CidPool.Pool({}, 0), 0)
  }

  /** The state after a step, or None where the step is not possible. */
  function Next(s: State, step: Step): Option<State> {
    match step
    case Submit(c, kind, deadline) =>
      var cid := CidPool.Allocate(s.pool);
      if c in s.commands || cid.None? then None
      else
        Some(s.(commands := s.commands[c := Command(cid.value, kind, deadline, Ready, 0, false, 0, 0, 0, None)],
                pool := CidPool.Apply(s.pool, CidPool.Get)))
    case WriteOk(c) =>
      if c in s.commands && s.commands[c].phase == Ready then Some(Moved(s, c, Written)) else None
    case WriteFails(c) =>
      if c in s.commands && s.commands[c].phase == Ready then Some(Moved(s, c, Aborting(-ERESTARTSYS))) else None
    case Enlist(c) =>
      if c in s.commands && s.commands[c].phase == Written && s.walker == Unlocked
      then Some(Moved(s, c, Waiting).(submitted := s.submitted + [c])) else None
    case Wake(c) =>
      if c in s.commands && s.commands[c].phase == Waiting && s.commands[c].completions > 0
      then
        var d := s.commands[c];
        Some(s.(commands := s.commands[c := d.(phase := Woken, completions := d.completions - 1)]))
      else None
    case Kill(c) =>
      if c in s.commands && s.commands[c].phase == Waiting then Some(Moved(s, c, Aborting(-ERESTARTSYS))) else None
    case ReadTimedOut(c) =>
      if c in s.commands && s.commands[c].phase == Woken
      then Some(Moved(s, c, if s.commands[c].timedOut then Aborting(-ETIMEDOUT) else NotTimedOut)) else None
    case ReadRcode(c) =>
      if c in s.commands && s.commands[c].phase == NotTimedOut
      then Some(Moved(s, c, if s.commands[c].rcode != 0 then Aborting(-EINVAL) else Reading)) else None
    case ReadResponse(c) =>
      if c in s.commands && s.commands[c].phase == Reading
      then Some(Moved(s, c, Returning(ResponseResult(s.commands[c])))) else None
    case Abort(c) =>
      if c in s.commands && s.commands[c].phase.Aborting? && s.walker == Unlocked
      then
        var d := s.commands[c];
        Some(s.(commands := s.commands[c := d.(phase := Returning(d.phase.ret),
                                               rcode := if c in s.submitted then -EIO else d.rcode)],
                submitted := Without(s.submitted, c)))
      else None
    case ReleaseCid(c) =>
      if c in s.commands && s.commands[c].phase.Returning?
      then
        Some(Moved(s, c, Released(s.commands[c].phase.ret))
             .(pool := CidPool.Apply(s.pool, CidPool.Remove(s.commands[c].cid))))
      else None
    case Free(c) =>
      if c in s.commands && s.commands[c].phase.Released?
      then Some(Moved(s, c, Freed(s.commands[c].phase.ret))) else None
    case Receive(response) =>
      if s.walker == Unlocked then Some(s.(walker := Finding(response, s.submitted))) else None
    case StartScan(drain) =>
      if s.walker == Unlocked then Some(s.(walker := Scanning(s.submitted, drain))) else None
    case Walk => Walked(s)
    case Tick => Some(s.(now := s.now + 1))
  }

  function Moved(s: State, c: CommandId, phase: Phase): State
    requires c in s.commands
  {
    s.(commands := s.commands[c := s.commands[c].(phase := phase)])
  }

  /** One step of the thread that holds the lock. */
  function Walked(s: State): Option<State> {
    match s.walker
    case Unlocked => None
    case Finding(response, rest) =>
      if rest == [] then Some(s.(walker := Unlocked))
      else if rest[0] !in s.commands then None
      else
        var c, d := rest[0], s.commands[rest[0]];
        if d.cid != response.cid then Some(s.(walker := Finding(response, rest[1..])))
        else
          Some(s.(commands := s.commands[c := d.(result := response.result, code := response.code,
                                                 answer := Some(response))],
                  submitted := Without(s.submitted, c), walker := Completing(c)))
    case Completing(c) =>
      if c in s.commands then Some(Signalled(s, c).(walker := Unlocked)) else None
    case Scanning(rest, drain) =>
      if rest == [] then Some(s.(walker := Unlocked))
      else if rest[0] !in s.commands then None
      else
        var c, d := rest[0], s.commands[rest[0]];
        if d.deadline < s.now then
          Some(s.(commands := s.commands[c := d.(rcode := -ETIME)],
                  submitted := if drain then Without(s.submitted, c) else s.submitted,
                  walker := Expiring(c, rest[1..], drain)))
        else Some(s.(walker := Scanning(rest[1..], drain)))
    case Expiring(c, rest, drain) =>
      if c in s.commands then Some(Signalled(s, c).(walker := Flagging(c, rest, drain))) else None
    case Flagging(c, rest, drain) =>
      if c in s.commands
      then Some(s.(commands := s.commands[c := s.commands[c].(timedOut := true)], walker := Scanning(rest, drain)))
      else None
  }

  /** complete() */
  function Signalled(s: State, c: CommandId): State
    requires c in s.commands
  {
    s.(commands := s.commands[c := s.commands[c].(completions := s.commands[c].completions + 1)])
  }

  /** The command that the holder of the lock dereferences in its next step. */
  function Touched(w: Walker): Option<CommandId> {
    match w
    case Unlocked => None
    case Finding(_, rest) => if rest == [] then None else Some(rest[0])
    case Completing(c) => Some(c)
    case Scanning(rest, _) => if rest == [] then None else Some(rest[0])
    case Expiring(c, _, _) => Some(c)
    case Flagging(c, _, _) => Some(c)
  }

  /** A run: states, and the step between each one and the next. */
  datatype Run = Run(states: seq<State>, steps: seq<Step>)

  ghost predicate IsRun(r: Run) {
    && |r.states| == |r.steps| + 1 && r.states[0] == Initial()
    && forall i | 0 <= i < |r.steps| :: Next(r.states[i], r.steps[i]) == Some(r.states[i + 1])
  }
}
