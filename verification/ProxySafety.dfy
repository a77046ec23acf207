/** What holds in every interleaving of the command protocol: no command is used after it was freed, a
    command succeeds only when it was answered, and commands in flight have different identifiers. */
module ProxySafety {
  import opened Bytes
  import opened ProxyProtocol
  import CidPool

  // ----- The invariant -----

  /** What the holder of the lock is doing with a command. */
  datatype Hold = NotHeld | HeldAnswered | HeldExpiring | HeldFlagging

  function HoldOf(w: Walker, c: CommandId): Hold {
    match w
    case Completing(c') => if c == c' then HeldAnswered else NotHeld
    case Expiring(c', _, _) => if c == c' then HeldExpiring else NotHeld
    case Flagging(c', _, _) => if c == c' then HeldFlagging else NotHeld
    case _ => NotHeld
  }

  /** The phases in which the requester cannot free the command without taking the lock first. */
  predicate InFlight(p: Phase) {
    p == Waiting || p == Woken || p == NotTimedOut || p.Aborting?
  }

  predicate Woke(d: Command) {
    d.completions > 0 || d.phase == Woken || d.phase == NotTimedOut
  }

  /** The result the requester returns, once it is decided. */
  function ResultOf(p: Phase): Option<int> {
    match p
    case Returning(ret) => Some(ret)
    case Released(ret) => Some(ret)
    case Freed(ret) => Some(ret)
    case _ => None
  }

  /** The invariant of one command. The key clause: a command that was woken with `cmd_rcode` still 0
      is neither in the list nor in the hands of the response thread, so the requester may read and free
      it without the lock; every other way to the end passes through the lock. */
  predicate CommandOk(d: Command, listed: bool, hold: Hold) {
    && (listed || hold != NotHeld ==> InFlight(d.phase))
    && (Woke(d) && d.rcode == 0 ==> !listed && hold == NotHeld && d.answer.Some?)
    && (hold == HeldExpiring || hold == HeldFlagging || d.timedOut ==> d.rcode != 0)
    && (hold == HeldAnswered ==> !listed && d.answer.Some?)
    && (d.answer.Some? ==> !listed && d.answer.value == Response(d.cid, d.result, d.code))
    && (d.phase == Ready || d.phase == Written ==>
          d.rcode == 0 && d.completions == 0 && d.answer.None? && !d.timedOut)
    && (d.phase == Reading || ResultOf(d.phase) == Some(0) ==> d.rcode == 0 && d.answer.Some? && !d.timedOut)
    && (ResultOf(d.phase) == Some(0) && d.kind == Coded ==> d.answer.value.code == 0)
    && (d.phase.Aborting? ==> d.phase.ret != 0)
    && (d.rcode != 0 && !d.timedOut ==> hold == HeldExpiring || hold == HeldFlagging || ResultOf(d.phase).Some?)
    && (hold == HeldExpiring && !d.timedOut ==> !Woke(d))
  }

  /** The commands the holder of the lock has still to visit are distinct, listed, and not the one it
      holds. */
  predicate WalkerOk(s: State) {
    match s.walker
    case Unlocked => true
    case Finding(_, rest) => RestOk(s, rest)
    case Completing(c) => c in s.commands
    case Scanning(rest, _) => RestOk(s, rest)
    case Expiring(c, rest, _) => c in s.commands && c !in rest && RestOk(s, rest)
    case Flagging(c, rest, _) => c in s.commands && c !in rest && RestOk(s, rest)
  }

  predicate RestOk(s: State, rest: seq<CommandId>) {
    Distinct(rest) && forall c | c in rest :: c in s.submitted
  }

  predicate HoldsCid(p: Phase) {
    !p.Released? && !p.Freed?
  }

  ghost predicate CidsOk(s: State) {
    && (forall c | c in s.commands && HoldsCid(s.commands[c].phase) :: s.commands[c].cid in s.pool.inUse)
    && (forall c, d | c in s.commands && d in s.commands && c != d
                      && HoldsCid(s.commands[c].phase) && HoldsCid(s.commands[d].phase) ::
          s.commands[c].cid != s.commands[d].cid)
  }

  ghost predicate AllOk(s: State) {
    forall c | c in s.commands :: CommandOk(s.commands[c], c in s.submitted, HoldOf(s.walker, c))
  }

  ghost predicate ListOk(s: State) {
    Distinct(s.submitted) && forall c | c in s.submitted :: c in s.commands
  }

  ghost predicate Inv(s: State) {
    ListOk(s) && WalkerOk(s) && CidsOk(s) && AllOk(s)
  }

  lemma InitialOk()
    ensures Inv(Initial())
  {
  }

  // ----- Every step keeps the invariant -----

  /** A step that changes one command, and the list, the walker and the pool only as far as that
      command is concerned. */
  ghost predicate Touches(s: State, s': State, c: CommandId) {
    && c in s.commands && c in s'.commands && s'.commands == s.commands[c := s'.commands[c]]
    && s'.commands[c].cid == s.commands[c].cid
    && (HoldsCid(s'.commands[c].phase) ==> HoldsCid(s.commands[c].phase))
    && (forall x | x != c :: (x in s'.submitted <==> x in s.submitted) && HoldOf(s'.walker, x) == HoldOf(s.walker, x))
    && (s'.pool == s.pool ||
        (s'.pool.inUse == s.pool.inUse - {s.commands[c].cid}
         && HoldsCid(s.commands[c].phase) && !HoldsCid(s'.commands[c].phase)))
  }

  lemma TouchKeepsCommands(s: State, s': State, c: CommandId)
    requires AllOk(s) && Touches(s, s', c)
    requires CommandOk(s'.commands[c], c in s'.submitted, HoldOf(s'.walker, c))
    ensures AllOk(s')
  {
    hide CommandOk, HoldOf, HoldsCid;
    forall x | x in s'.commands ensures CommandOk(s'.commands[x], x in s'.submitted, HoldOf(s'.walker, x)) {
      if x != c {
        assert s'.commands[x] == s.commands[x];
      }
    }
  }

  lemma TouchKeepsCids(s: State, s': State, c: CommandId)
    requires CidsOk(s) && Touches(s, s', c)
    ensures CidsOk(s')
  {
    hide HoldOf, HoldsCid;
    assert forall x | x in s'.commands && x != c :: s'.commands[x] == s.commands[x];
  }

  lemma TouchStep(s: State, s': State, c: CommandId)
    requires Inv(s) && Touches(s, s', c) && ListOk(s') && WalkerOk(s')
    requires CommandOk(s'.commands[c], c in s'.submitted, HoldOf(s'.walker, c))
    ensures Inv(s')
  {
    hide CommandOk, HoldOf, HoldsCid, ListOk, WalkerOk, CidsOk, AllOk, Touches;
    TouchKeepsCommands(s, s', c);
    TouchKeepsCids(s, s', c);
  }

  /** What the invariant says of one command. */
  lemma CommandIsOk(s: State, c: CommandId)
    requires Inv(s) && c in s.commands
    ensures CommandOk(s.commands[c], c in s.submitted, HoldOf(s.walker, c))
  {
    hide CommandOk, HoldOf;
  }

  lemma SubmitStep(s: State, c: CommandId, kind: Kind, deadline: nat)
    requires Inv(s) && Next(s, Submit(c, kind, deadline)).Some?
    ensures Inv(Next(s, Submit(c, kind, deadline)).value)
  {
    var s' := Next(s, Submit(c, kind, deadline)).value;
    assert forall x | x in s'.commands && x != c :: s'.commands[x] == s.commands[x];
    assert s'.commands[c].cid !in s.pool.inUse;
    assert c !in s.submitted;
  }

  lemma EnlistStep(s: State, c: CommandId)
    requires Inv(s) && Next(s, Enlist(c)).Some?
    ensures Inv(Next(s, Enlist(c)).value)
  {
    var s' := Next(s, Enlist(c)).value;
    CommandIsOk(s, c);
    hide AllOk, CidsOk;
    TouchStep(s, s', c);
  }

  lemma AbortStep(s: State, c: CommandId)
    requires Inv(s) && Next(s, Abort(c)).Some?
    ensures Inv(Next(s, Abort(c)).value)
  {
    var s' := Next(s, Abort(c)).value;
    CommandIsOk(s, c);
    hide AllOk, CidsOk;
    TouchStep(s, s', c);
  }

  lemma SameLists(s: State, s': State)
    requires ListOk(s) && WalkerOk(s) && s'.submitted == s.submitted && s'.walker == s.walker
    requires s'.commands.Keys == s.commands.Keys
    ensures ListOk(s') && WalkerOk(s')
  {
  }

  lemma ReleaseStep(s: State, c: CommandId)
    requires Inv(s) && Next(s, ReleaseCid(c)).Some?
    ensures Inv(Next(s, ReleaseCid(c)).value)
  {
    var s' := Next(s, ReleaseCid(c)).value;
    CommandIsOk(s, c);
    SameLists(s, s');
    hide AllOk, CidsOk, ListOk, WalkerOk;
    TouchStep(s, s', c);
  }

  /** Steps of a requester that change nothing but its own command. */
  predicate IsOwnStep(step: Step) {
    step.WriteOk? || step.WriteFails? || step.Wake? || step.Kill? || step.ReadTimedOut? || step.ReadRcode? ||
    step.ReadResponse? || step.Free?
  }

  /** What such a step makes of the command. */
  ghost predicate Moves(step: Step, d: Command, d': Command)
    requires IsOwnStep(step)
  {
    match step
    case WriteOk(_) => d.phase == Ready && d' == d.(phase := Written)
    case WriteFails(_) => d.phase == Ready && d' == d.(phase := Aborting(-ERESTARTSYS))
    case Wake(_) =>
      d.phase == Waiting && d.completions > 0 && d' == d.(phase := Woken, completions := d.completions - 1)
    case Kill(_) => d.phase == Waiting && d' == d.(phase := Aborting(-ERESTARTSYS))
    case ReadTimedOut(_) =>
      d.phase == Woken && d' == d.(phase := if d.timedOut then Aborting(-ETIMEDOUT) else NotTimedOut)
    case ReadRcode(_) =>
      d.phase == NotTimedOut && d' == d.(phase := if d.rcode != 0 then Aborting(-EINVAL) else Reading)
    case ReadResponse(_) => d.phase == Reading && d' == d.(phase := Returning(ResponseResult(d)))
    case Free(_) => d.phase.Released? && d' == d.(phase := Freed(d.phase.ret))
  }

  lemma MoveKeepsCommand(step: Step, d: Command, d': Command, listed: bool, hold: Hold)
    requires IsOwnStep(step) && Moves(step, d, d') && CommandOk(d, listed, hold)
    ensures CommandOk(d', listed, hold)
  {
  }

  lemma OwnStepMoves(s: State, step: Step)
    requires IsOwnStep(step) && Next(s, step).Some?
    ensures Touches(s, Next(s, step).value, step.c)
    ensures Next(s, step).value == s.(commands := Next(s, step).value.commands)
    ensures Next(s, step).value.commands.Keys == s.commands.Keys
    ensures Moves(step, s.commands[step.c], Next(s, step).value.commands[step.c])
  {
  }

  lemma OwnStep(s: State, step: Step)
    requires Inv(s) && IsOwnStep(step) && Next(s, step).Some?
    ensures Inv(Next(s, step).value)
  {
    var s', c := Next(s, step).value, step.c;
    CommandIsOk(s, c);
    OwnStepMoves(s, step);
    hide AllOk, CidsOk, Touches, Next, CommandOk, Moves, HoldOf, ListOk, WalkerOk;
    SameLists(s, s');
    MoveKeepsCommand(step, s.commands[c], s'.commands[c], c in s.submitted, HoldOf(s.walker, c));
    TouchStep(s, s', c);
  }

  /** A step of the holder of the lock on the command that it holds or visits. */
  lemma WalkStep(s: State)
    requires Inv(s) && Next(s, Walk).Some?
    ensures Inv(Next(s, Walk).value)
  {
    match s.walker
    case Finding(_, rest) => if rest != [] { FindingStep(s); }
    case Scanning(rest, _) => if rest != [] { ScanningStep(s); }
    case _ => HeldStep(s);
  }

  lemma FindingStep(s: State)
    requires Inv(s) && s.walker.Finding? && s.walker.rest != [] && Walked(s).Some?
    ensures Inv(Walked(s).value)
  {
    var c, s' := s.walker.rest[0], Walked(s).value;
    CommandIsOk(s, c);
    hide AllOk, CidsOk;
    if s'.walker == Completing(c) {
      TouchStep(s, s', c);
    } else {
      PassStep(s, s');
    }
  }

  /** A walk that passes a command by. */
  lemma PassStep(s: State, s': State)
    requires Inv(s) && s' == s.(walker := s'.walker) && WalkerOk(s')
    requires forall x :: HoldOf(s.walker, x) == HoldOf(s'.walker, x)
    ensures Inv(s')
  {
    hide CommandOk, HoldOf;
  }

  lemma ScanningStep(s: State)
    requires Inv(s) && s.walker.Scanning? && s.walker.rest != [] && Walked(s).Some?
    ensures Inv(Walked(s).value)
  {
    var c, s' := s.walker.rest[0], Walked(s).value;
    CommandIsOk(s, c);
    hide AllOk, CidsOk;
    if s'.walker.Expiring? {
      TouchStep(s, s', c);
    } else {
      PassStep(s, s');
    }
  }

  lemma HeldStep(s: State)
    requires Inv(s) && (s.walker.Completing? || s.walker.Expiring? || s.walker.Flagging?) && Walked(s).Some?
    ensures Inv(Walked(s).value)
  {
    var c, s' := s.walker.c, Walked(s).value;
    CommandIsOk(s, c);
    hide AllOk, CidsOk;
    TouchStep(s, s', c);
  }

  /** The invariant is inductive. */
  lemma StepKeepsInv(s: State, step: Step)
    requires Inv(s) && Next(s, step).Some?
    ensures Inv(Next(s, step).value)
  {
    var s' := Next(s, step).value;
    match step
    case Submit(c, kind, deadline) => SubmitStep(s, c, kind, deadline);
    case Enlist(c) => EnlistStep(s, c);
    case Abort(c) => AbortStep(s, c);
    case ReleaseCid(c) => ReleaseStep(s, c);
    case Walk => WalkStep(s);
    case Receive(_) => PassStep(s, s');
    case StartScan(_) => PassStep(s, s');
    case Tick => TickStep(s, s');
    case _ => OwnStep(s, step);
  }

  lemma TickStep(s: State, s': State)
    requires Inv(s) && s' == s.(now := s'.now)
    ensures Inv(s')
  {
    hide CommandOk, HoldOf;
  }

  // ----- Runs -----

  lemma {:induction false} RunKeepsInv(r: Run, i: nat)
    requires IsRun(r) && i < |r.states|
    ensures Inv(r.states[i])
    decreases i
  {
    hide Inv, Next;
    if i == 0 {
      InitialOk();
    } else {
      RunKeepsInv(r, i - 1);
      assert Next(r.states[i - 1], r.steps[i - 1]) == Some(r.states[i - 1 + 1]);
      StepKeepsInv(r.states[i - 1], r.steps[i - 1]);
    }
  }

  lemma HolderCanStep(s: State)
    requires Inv(s) && s.walker != Unlocked
    ensures Next(s, Walk).Some?
  {
    if Touched(s.walker).Some? {
      CommandIsOk(s, Touched(s.walker).value);
    }
  }

  /** Lifetime safety: in every reachable state no command in the list is freed, and the command that
      the holder of the lock uses next exists and is not freed; so the holder can always take its next
      step, and no callback touches a freed command. */
  lemma LifetimeSafety(r: Run, i: nat)
    requires IsRun(r) && i < |r.states|
    ensures var s := r.states[i];
            && (forall c | c in s.submitted :: c in s.commands && InFlight(s.commands[c].phase))
            && (Touched(s.walker).Some? ==>
                  Touched(s.walker).value in s.commands && InFlight(s.commands[Touched(s.walker).value].phase))
            && (s.walker != Unlocked ==> Next(s, Walk).Some?)
  {
    hide IsRun, Next;
    var s := r.states[i];
    RunKeepsInv(r, i);
    if s.walker != Unlocked {
      HolderCanStep(s);
    }
    forall c | c in s.submitted ensures c in s.commands && InFlight(s.commands[c].phase) {
      CommandIsOk(s, c);
    }
    if Touched(s.walker).Some? {
      CommandIsOk(s, Touched(s.walker).value);
    }
  }

  /** Commands that hold an identifier hold different ones, so a response matches at most one listed
      command. */
  lemma ResponsesMatchOne(r: Run, i: nat, c: CommandId, d: CommandId)
    requires IsRun(r) && i < |r.states|
    requires c in r.states[i].submitted && d in r.states[i].submitted && c != d
    ensures c in r.states[i].commands && d in r.states[i].commands
    ensures r.states[i].commands[c].cid != r.states[i].commands[d].cid
  {
    RunKeepsInv(r, i);
    CommandIsOk(r.states[i], c);
    CommandIsOk(r.states[i], d);
  }

  // ----- Answered before success -----

  /** Step `i` of the run stores `response` in command `c`, which is listed and has its identifier. */
  ghost predicate Stores(r: Run, i: nat, c: CommandId, response: Response)
    requires IsRun(r)
  {
    && i < |r.steps| && r.steps[i] == Walk && r.states[i].walker.Finding?
    && r.states[i].walker.response == response && r.states[i].walker.rest != [] && r.states[i].walker.rest[0] == c
    && c in r.states[i].submitted && c in r.states[i].commands && r.states[i].commands[c].cid == response.cid
  }

  /** A step either leaves the answer of a command alone or is the one that stores it. */
  lemma AnswerStep(s: State, step: Step, c: CommandId)
    requires Inv(s) && Next(s, step).Some? && c in Next(s, step).value.commands
    requires Next(s, step).value.commands[c].answer.Some?
    ensures c in s.commands && s.commands[c].cid == Next(s, step).value.commands[c].cid
    ensures s.commands[c].answer == Next(s, step).value.commands[c].answer ||
            (step == Walk && s.walker.Finding? && s.walker.rest != [] && s.walker.rest[0] == c && c in s.submitted &&
             s.walker.response == Next(s, step).value.commands[c].answer.value &&
             s.walker.response.cid == s.commands[c].cid)
  {
    hide CommandOk, CidsOk, AllOk, HoldOf, Without, CidPool.Allocate, CidPool.Apply, ResponseResult;
  }

  lemma {:induction false} AnswerHasSource(r: Run, i: nat, c: CommandId)
    requires IsRun(r) && i < |r.states| && c in r.states[i].commands && r.states[i].commands[c].answer.Some?
    ensures exists j :: 0 <= j < i && Stores(r, j, c, r.states[i].commands[c].answer.value)
    decreases i
  {
    hide Inv, Next;
    if i > 0 {
      RunKeepsInv(r, i - 1);
      assert Next(r.states[i - 1], r.steps[i - 1]) == Some(r.states[i - 1 + 1]);
      AnswerStep(r.states[i - 1], r.steps[i - 1], c);
      if r.states[i - 1].commands[c].answer == r.states[i].commands[c].answer {
        AnswerHasSource(r, i - 1, c);
      } else {
        assert Stores(r, i - 1, c, r.states[i].commands[c].answer.value);
      }
    }
  }

  /** A response that a walk looks for was received by an earlier step. */
  lemma {:induction false} WalkHasSource(r: Run, i: nat)
    requires IsRun(r) && i < |r.states| && r.states[i].walker.Finding?
    ensures exists j :: 0 <= j < i && r.steps[j] == Receive(r.states[i].walker.response)
    decreases i
  {
    if i > 0 {
      assert Next(r.states[i - 1], r.steps[i - 1]) == Some(r.states[i - 1 + 1]);
      FindingStart(r.states[i - 1], r.steps[i - 1]);
      hide Next;
      if r.steps[i - 1] != Receive(r.states[i].walker.response) {
        WalkHasSource(r, i - 1);
      }
    }
  }

  lemma FindingStart(s: State, step: Step)
    requires Next(s, step).Some? && Next(s, step).value.walker.Finding?
    ensures step == Receive(Next(s, step).value.walker.response) ||
            (s.walker.Finding? && s.walker.response == Next(s, step).value.walker.response)
  {
    hide Without, CidPool.Allocate, CidPool.Apply, ResponseResult;
  }

  /** A command that checks the AMC code returns 0 only if, earlier in the run, a response with its
      identifier and code 0 was received and then stored in it while it was listed. */
  lemma AnsweredBeforeSuccess(r: Run, i: nat, c: CommandId)
    requires IsRun(r) && i < |r.states| && c in r.states[i].commands
    requires r.states[i].commands[c].kind == Coded && ResultOf(r.states[i].commands[c].phase) == Some(0)
    ensures exists j, k, response ::
              0 <= k < j < i && r.steps[k] == Receive(response) && Stores(r, j, c, response) &&
              response.cid == r.states[i].commands[c].cid && response.code == 0
  {
    var d := r.states[i].commands[c];
    RunKeepsInv(r, i);
    CommandIsOk(r.states[i], c);
    AnswerHasSource(r, i, c);
    var j :| 0 <= j < i && Stores(r, j, c, d.answer.value);
    WalkHasSource(r, j);
    var k :| 0 <= k < j && r.steps[k] == Receive(d.answer.value);
  }

  // ----- Timed out and aborted commands never succeed -----

  /** The command was timed out or removed, or its requester is on the abort path or was. */
  predicate Doomed(d: Command) {
    d.rcode != 0 || d.phase.Aborting? || (ResultOf(d.phase).Some? && ResultOf(d.phase) != Some(0))
  }

  lemma DoomedMove(step: Step, d: Command, d': Command, listed: bool, hold: Hold)
    requires IsOwnStep(step) && Moves(step, d, d') && CommandOk(d, listed, hold) && Doomed(d)
    ensures Doomed(d')
  {
  }

  lemma DoomedWalk(s: State, c: CommandId)
    requires Inv(s) && Walked(s).Some? && c in s.commands && Doomed(s.commands[c])
    ensures c in Walked(s).value.commands && Doomed(Walked(s).value.commands[c])
  {
    CommandIsOk(s, c);
    hide Inv, HoldOf, Without;
  }

  lemma DoomedStep(s: State, step: Step, c: CommandId)
    requires Inv(s) && Next(s, step).Some? && c in s.commands && Doomed(s.commands[c])
    ensures c in Next(s, step).value.commands && Doomed(Next(s, step).value.commands[c])
  {
    var s' := Next(s, step).value;
    CommandIsOk(s, c);
    if IsOwnStep(step) {
      OwnStepMoves(s, step);
      hide Next, CommandOk, Moves, HoldOf, Inv, Doomed;
      if step.c == c {
        DoomedMove(step, s.commands[c], s'.commands[c], c in s.submitted, HoldOf(s.walker, c));
      }
    } else if step.Walk? {
      hide Walked, Inv, CommandOk, Doomed;
      DoomedWalk(s, c);
    } else {
      hide Inv, CommandOk, Without, CidPool.Allocate, CidPool.Apply;
    }
  }

  /** Once a command has timed out, or was aborted, it never returns 0. */
  lemma {:induction false} DoomedNeverSucceeds(r: Run, i: nat, j: nat, c: CommandId)
    requires IsRun(r) && i <= j < |r.states| && c in r.states[i].commands && Doomed(r.states[i].commands[c])
    ensures c in r.states[j].commands && Doomed(r.states[j].commands[c])
    ensures ResultOf(r.states[j].commands[c].phase) != Some(0)
    decreases j
  {
    hide Next, Doomed;
    if i < j {
      DoomedNeverSucceeds(r, i, j - 1, c);
      RunKeepsInv(r, j - 1);
      assert Next(r.states[j - 1], r.steps[j - 1]) == Some(r.states[j - 1 + 1]);
      DoomedStep(r.states[j - 1], r.steps[j - 1], c);
    }
    RunKeepsInv(r, j);
    CommandIsOk(r.states[j], c);
    DoomedResult(r.states[j].commands[c], c in r.states[j].submitted, HoldOf(r.states[j].walker, c));
  }

  lemma DoomedResult(d: Command, listed: bool, hold: Hold)
    requires CommandOk(d, listed, hold) && Doomed(d)
    ensures ResultOf(d.phase) != Some(0)
  {
  }

  // ----- How a timeout is reported -----

  /** In step `j` the response thread sets `timed_out` of the command. */
  ghost predicate SetsFlag(r: Run, j: nat, c: CommandId) {
    j < |r.steps| && j < |r.states| && r.steps[j] == Walk && r.states[j].walker.Flagging? && r.states[j].walker.c == c
  }

  /** In step `j` the response thread sets `cmd_rcode` of the command, because it is over its deadline. */
  ghost predicate Expires(r: Run, j: nat, c: CommandId) {
    && j < |r.steps| && j + 1 < |r.states| && r.steps[j] == Walk
    && r.states[j].walker.Scanning? && r.states[j + 1].walker.Expiring? && r.states[j + 1].walker.c == c
  }

  predicate Reports(p: Phase, ret: int) {
    p == Aborting(ret) || ResultOf(p) == Some(ret)
  }

  /** What a step does to the flag and to the code of a command. */
  lemma FlagStep(s: State, step: Step, c: CommandId)
    requires Next(s, step).Some? && c in s.commands
    ensures var s' := Next(s, step).value;
            && c in s'.commands
            && (s'.commands[c].timedOut <==>
                  s.commands[c].timedOut || (step == Walk && s.walker.Flagging? && s.walker.c == c))
            && (s.commands[c].rcode != 0 ==> s'.commands[c].rcode != 0)
            && (step == Walk && s.walker.Scanning? && s'.walker.Expiring? && s'.walker.c == c ==>
                  s'.commands[c].rcode != 0)
  {
    hide Without, CidPool.Allocate, CidPool.Apply, ResponseResult;
  }

  lemma NewCommandStep(s: State, step: Step, c: CommandId)
    requires Next(s, step).Some? && c !in s.commands && c in Next(s, step).value.commands
    ensures !Next(s, step).value.commands[c].timedOut
    ensures !(step == Walk && s.walker.Flagging? && s.walker.c == c)
  {
    hide Without, CidPool.Allocate, CidPool.Apply, ResponseResult;
  }

  lemma NoFlagYet(s: State, step: Step, c: CommandId)
    requires Next(s, step).Some? && c !in Next(s, step).value.commands
    ensures c !in s.commands && !(step == Walk && s.walker.Flagging? && s.walker.c == c)
  {
    hide Without, CidPool.Allocate, CidPool.Apply, ResponseResult;
  }

  /** The flag of a command is set exactly when the response thread has set it. */
  lemma {:induction false} FlagHasSource(r: Run, i: nat, c: CommandId)
    requires IsRun(r) && i < |r.states|
    ensures c in r.states[i].commands && r.states[i].commands[c].timedOut
       <==> exists j | 0 <= j < i :: SetsFlag(r, j, c)
    decreases i
  {
    hide Next;
    if i > 0 {
      FlagHasSource(r, i - 1, c);
      var s, step := r.states[i - 1], r.steps[i - 1];
      assert Next(s, step) == Some(r.states[i - 1 + 1]);
      if c in s.commands {
        FlagStep(s, step, c);
      } else if c in r.states[i].commands {
        NewCommandStep(s, step, c);
      } else {
        NoFlagYet(s, step, c);
      }
      assert (exists j | 0 <= j < i :: SetsFlag(r, j, c))
        <==> SetsFlag(r, i - 1, c) || exists j | 0 <= j < i - 1 :: SetsFlag(r, j, c);
    }
  }

  /** An expired command keeps a code other than 0. */
  lemma {:induction false} ExpiryLasts(r: Run, j: nat, i: nat, c: CommandId)
    requires IsRun(r) && Expires(r, j, c) && j < i < |r.states|
    ensures c in r.states[i].commands && r.states[i].commands[c].rcode != 0
    decreases i
  {
    hide Next;
    var s, step := r.states[i - 1], r.steps[i - 1];
    assert Next(s, step) == Some(r.states[i - 1 + 1]);
    if i == j + 1 {
      ExpiringIsKnown(s);
    } else {
      ExpiryLasts(r, j, i - 1, c);
    }
    FlagStep(s, step, c);
  }

  lemma ExpiringIsKnown(s: State)
    requires s.walker.Scanning? && Next(s, Walk).Some? && Next(s, Walk).value.walker.Expiring?
    ensures Next(s, Walk).value.walker.c in s.commands
  {
  }

  /** A result that is decided stays. */
  lemma ReportStep(s: State, step: Step, c: CommandId, ret: int)
    requires Next(s, step).Some? && c in s.commands && Reports(s.commands[c].phase, ret)
    ensures c in Next(s, step).value.commands && Reports(Next(s, step).value.commands[c].phase, ret)
  {
    hide Without, CidPool.Allocate, CidPool.Apply, ResponseResult;
  }

  /** A command with a code whose flag was read as not set goes on to report -EINVAL. */
  lemma InvalidStep(s: State, step: Step, c: CommandId)
    requires Next(s, step).Some? && c in s.commands && s.commands[c].phase == NotTimedOut && s.commands[c].rcode != 0
    ensures c in Next(s, step).value.commands && Next(s, step).value.commands[c].rcode != 0
    ensures Next(s, step).value.commands[c].phase in {NotTimedOut, Aborting(-EINVAL)}
  {
    hide Without, CidPool.Allocate, CidPool.Apply, ResponseResult;
  }

  lemma {:induction false} ReportStays(r: Run, k: nat, m: nat, c: CommandId, ret: int)
    requires IsRun(r) && k <= m < |r.states| && c in r.states[k].commands && Reports(r.states[k].commands[c].phase, ret)
    ensures c in r.states[m].commands && Reports(r.states[m].commands[c].phase, ret)
    decreases m
  {
    hide Next, Reports;
    if k < m {
      ReportStays(r, k, m - 1, c, ret);
      assert Next(r.states[m - 1], r.steps[m - 1]) == Some(r.states[m - 1 + 1]);
      ReportStep(r.states[m - 1], r.steps[m - 1], c, ret);
    }
  }

  lemma {:induction false} InvalidStays(r: Run, k: nat, m: nat, c: CommandId)
    requires IsRun(r) && k <= m < |r.states| && c in r.states[k].commands
    requires r.states[k].commands[c].phase == NotTimedOut && r.states[k].commands[c].rcode != 0
    ensures c in r.states[m].commands
    ensures var d := r.states[m].commands[c]; (d.phase == NotTimedOut && d.rcode != 0) || Reports(d.phase, -EINVAL)
    decreases m
  {
    hide Next;
    if k < m {
      InvalidStays(r, k, m - 1, c);
      var s, step := r.states[m - 1], r.steps[m - 1];
      assert Next(s, step) == Some(r.states[m - 1 + 1]);
      if s.commands[c].phase == NotTimedOut {
        InvalidStep(s, step, c);
      } else {
        ReportStep(s, step, c, -EINVAL);
      }
    }
  }

  lemma ReadingTheFlag(s: State, c: CommandId)
    requires Inv(s) && Next(s, ReadTimedOut(c)).Some?
    ensures c in s.commands && c in Next(s, ReadTimedOut(c)).value.commands
    ensures Next(s, ReadTimedOut(c)).value.commands[c] ==
            s.commands[c].(phase := if s.commands[c].timedOut then Aborting(-ETIMEDOUT) else NotTimedOut)
    ensures s.commands[c].rcode != 0 && !s.commands[c].timedOut ==> s.walker.Flagging? && s.walker.c == c
  {
    CommandIsOk(s, c);
    hide Inv;
  }

  /** The exact report of a timeout. Take an expired command whose requester reads `timed_out` in step `k`. If
      the response thread has set the flag before, the requester reports -ETIMEDOUT from then on; otherwise the
      response thread is just about to set it, and the requester goes on to report -EINVAL. */
  lemma TimeoutReport(r: Run, j: nat, k: nat, m: nat, c: CommandId)
    requires IsRun(r) && Expires(r, j, c) && j < k < |r.steps| && r.steps[k] == ReadTimedOut(c) && k < m < |r.states|
    ensures c in r.states[k + 1].commands && c in r.states[m].commands
    ensures var d, e := r.states[k + 1].commands[c], r.states[m].commands[c];
            if exists i | 0 <= i < k :: SetsFlag(r, i, c)
            then Reports(d.phase, -ETIMEDOUT) && Reports(e.phase, -ETIMEDOUT)
            else && r.states[k].walker.Flagging? && r.states[k].walker.c == c
                 && d.phase == NotTimedOut && (e.phase == NotTimedOut || Reports(e.phase, -EINVAL))
  {
    hide Next, Inv, SetsFlag, Expires;
    var s := r.states[k];
    assert Next(s, r.steps[k]) == Some(r.states[k + 1]);
    RunKeepsInv(r, k);
    ExpiryLasts(r, j, k, c);
    FlagHasSource(r, k, c);
    ReadingTheFlag(s, c);
    if s.commands[c].timedOut {
      ReportStays(r, k + 1, m, c, -ETIMEDOUT);
    } else {
      InvalidStays(r, k + 1, m, c);
    }
  }

  // ----- Two runs -----

  function Last(r: Run): State
    requires |r.states| > 0
  {
    r.states[|r.states| - 1]
  }

  function Extended(r: Run, step: Step): Run
    requires |r.states| > 0 && Next(Last(r), step).Some?
  {
    Run(r.states + [Next(Last(r), step).value], r.steps + [step])
  }

  lemma ExtendRun(r: Run, step: Step, t: State) returns (r': Run)
    requires IsRun(r) && Next(Last(r), step) == Some(t)
    ensures IsRun(r') && Last(r') == t
  {
    hide Next;
    r' := Extended(r, step);
    forall i | 0 <= i < |r'.steps| ensures Next(r'.states[i], r'.steps[i]) == Some(r'.states[i + 1]) {
      if i < |r.steps| {
        assert Next(r.states[i], r.steps[i]) == Some(r.states[i + 1]);
      }
    }
  }

  /** The state in which command 0 is the only one. */
  function Single(d: Command, submitted: seq<CommandId>, walker: Walker, now: nat): State {
    State(map[0 := d], submitted, walker, CidPool.Pool({0}, 1), now)
  }

  /** A run to the point where one command with deadline 0 is listed and waits. */
  lemma RunToWaiting() returns (r: Run, d: Command)
    ensures IsRun(r) && d == Command(0, Coded, 0, Waiting, 0, false, 0, 0, 0, None)
    ensures Last(r) == Single(d, [0], Unlocked, 0)
  {
    d := Command(0, Coded, 0, Ready, 0, false, 0, 0, 0, None);
    r := Run([Initial()], []);
    assert {0} == {} + {0};
    SingleUpdates();
    r := ExtendRun(r, Submit(0, Coded, 0), Single(d, [], Unlocked, 0));
    d := d.(phase := Written);
    r := ExtendRun(r, WriteOk(0), Single(d, [], Unlocked, 0));
    d := d.(phase := Waiting);
    r := ExtendRun(r, Enlist(0), Single(d, [0], Unlocked, 0));
  }

  lemma SingleUpdates()
    ensures forall d: Command, d': Command {:trigger map[0 := d][0 := d']} :: map[0 := d][0 := d'] == map[0 := d']
    ensures Without([0], 0) == [] && [] + [0] == [0] && [0][1..] == []
  {
  }

  /** ... to the point where it was answered with code 0 and signalled. */
  lemma RunToAnswered() returns (r: Run, d: Command)
    ensures IsRun(r) && d == Command(0, Coded, 0, Waiting, 1, false, 0, 7, 0, Some(Response(0, 7, 0)))
    ensures Last(r) == Single(d, [], Unlocked, 0)
  {
    SingleUpdates();
    r, d := RunToWaiting();
    var response := Response(0, 7, 0);
    r := ExtendRun(r, Receive(response), Single(d, [0], Finding(response, [0]), 0));
    d := d.(result := 7, code := 0, answer := Some(response));
    r := ExtendRun(r, Walk, Single(d, [], Completing(0), 0));
    d := d.(completions := 1);
    r := ExtendRun(r, Walk, Single(d, [], Unlocked, 0));
  }

  /** Success can happen: an answered command reaches the end with result 0. */
  lemma SuccessIsPossible() returns (r: Run)
    ensures IsRun(r) && 0 in Last(r).commands && Last(r).commands[0].kind == Coded
    ensures Last(r).commands[0].phase == Returning(0)
  {
    SingleUpdates();
    var d;
    r, d := RunToAnswered();
    d := d.(completions := 0, phase := Woken);
    r := ExtendRun(r, Wake(0), Single(d, [], Unlocked, 0));
    d := d.(phase := NotTimedOut);
    r := ExtendRun(r, ReadTimedOut(0), Single(d, [], Unlocked, 0));
    d := d.(phase := Reading);
    r := ExtendRun(r, ReadRcode(0), Single(d, [], Unlocked, 0));
    d := d.(phase := Returning(0));
    r := ExtendRun(r, ReadResponse(0), Single(d, [], Unlocked, 0));
  }

  /** The waiter can read `timed_out` between the signal and the write of the flag. The timeout is then
      reported as -EINVAL instead of -ETIMEDOUT; the requester still has to wait for the lock, so the
      late write of the flag is safe. */
  lemma TimeoutReportedAsInvalid() returns (r: Run)
    ensures IsRun(r) && 0 in Last(r).commands && Last(r).commands[0].phase == Aborting(-EINVAL)
    ensures Last(r).walker == Flagging(0, [], false) && Next(Last(r), Abort(0)) == None
  {
    SingleUpdates();
    var d;
    r, d := RunToWaiting();
    r := ExtendRun(r, Tick, Single(d, [0], Unlocked, 1));
    r := ExtendRun(r, StartScan(false), Single(d, [0], Scanning([0], false), 1));
    d := d.(rcode := -ETIME);
    r := ExtendRun(r, Walk, Single(d, [0], Expiring(0, [], false), 1));
    d := d.(completions := 1);
    r := ExtendRun(r, Walk, Single(d, [0], Flagging(0, [], false), 1));
    d := d.(completions := 0, phase := Woken);
    r := ExtendRun(r, Wake(0), Single(d, [0], Flagging(0, [], false), 1));
    d := d.(phase := NotTimedOut);
    r := ExtendRun(r, ReadTimedOut(0), Single(d, [0], Flagging(0, [], false), 1));
    d := d.(phase := Aborting(-EINVAL));
    r := ExtendRun(r, ReadRcode(0), Single(d, [0], Flagging(0, [], false), 1));
  }
}
