/** heartbeat_health_thread: one heartbeat per round until three in a row have failed. */
module Heartbeat {
  import opened Bytes

  const HEARTBEAT_FAIL_THRESHOLD := 3

  /** What submit_gcq_command returns for a heartbeat, and the identifier in the response. */
  datatype Reply = Reply(ret: int, responseId: byte)

  /** The event that a heartbeat causes. */
  datatype Event = NoEvent | Expired | Validation

  /** What the thread does in one round. */
  datatype Round = Sent(requestId: byte, event: Event) | FatalRaised | Quiet

  function EventOf(reply: Reply, requestId: byte): Event {
    if reply.ret != 0 then Expired else if reply.responseId != requestId then Validation else NoEvent
  }

  // ----- What the thread is for -----

  /** The heartbeat of round `n`, if one is sent, carries `n` modulo 256. */
  function IdOf(n: nat): byte {
    n % 256
  }

  predicate Failed(replies: seq<Reply>, n: int) {
    0 <= n < |replies| && EventOf(replies[n], IdOf(n)) != NoEvent
  }

  /** The three rounds in front of round `n` all failed, in either way. */
  predicate ThreeFailedBefore(replies: seq<Reply>, n: int) {
    Failed(replies, n - 3) && Failed(replies, n - 2) && Failed(replies, n - 1)
  }

  /** Some three consecutive rounds in front of round `n` failed. */
  predicate Tripped(replies: seq<Reply>, n: int) {
    exists f | 0 <= f <= n :: ThreeFailedBefore(replies, f)
  }

  /** Round `n`: a heartbeat while the heartbeats are alive, one fatal event in the round after the first
      three consecutive failures, and nothing from then on. */
  function Expected(replies: seq<Reply>, n: nat): Round
    requires n < |replies|
  {
    if !Tripped(replies, n) then Sent(IdOf(n), EventOf(replies[n], IdOf(n)))
    else if !Tripped(replies, n - 1) then FatalRaised
    else Quiet
  }

  // ----- The thread -----

  /** `c` is the number of failures immediately in front of round `n`, when it is below three. */
  predicate FailuresAre(replies: seq<Reply>, n: nat, c: nat) {
    && c <= n && c <= HEARTBEAT_FAIL_THRESHOLD
    && (forall i | n - c <= i < n :: Failed(replies, i))
    && (c < HEARTBEAT_FAIL_THRESHOLD ==> !Failed(replies, n - c - 1))
  }

  lemma NextFailure(replies: seq<Reply>, n: nat, c: nat)
    requires FailuresAre(replies, n, c) && c < HEARTBEAT_FAIL_THRESHOLD
    ensures FailuresAre(replies, n + 1, if Failed(replies, n) then c + 1 else 0)
  {
  }

  /** The count reaches the threshold exactly when three rounds in a row have failed. */
  lemma TripsAt(replies: seq<Reply>, n: nat, c: nat)
    requires !Tripped(replies, n - 1) ==> FailuresAre(replies, n, c)
    ensures Tripped(replies, n - 1) ==> Tripped(replies, n)
    ensures !Tripped(replies, n - 1) ==> (Tripped(replies, n) <==> c == HEARTBEAT_FAIL_THRESHOLD)
  {
    hide Failed;
    if Tripped(replies, n - 1) {
      var f :| 0 <= f <= n - 1 && ThreeFailedBefore(replies, f);
      assert ThreeFailedBefore(replies, f) && f <= n;
    } else if c == HEARTBEAT_FAIL_THRESHOLD {
      assert ThreeFailedBefore(replies, n);
    } else {
      forall f | 0 <= f <= n ensures !ThreeFailedBefore(replies, f) {
        if f <= n - 1 {
          assert !Tripped(replies, n - 1);
        } else {
          assert !Failed(replies, n - c - 1);
        }
      }
    }
  }

  lemma NextId(n: nat)
    ensures IdOf(0) == 0 && IdOf(n + 1) == (IdOf(n) + 1) % 256
  {
    var q, r := n / 256, n % 256;
    assert n == 256 * q + r;
    if r < 255 {
      assert (n + 1) / 256 == q;
    } else {
      assert (n + 1) / 256 == q + 1;
    }
  }

  lemma NothingAtStart(replies: seq<Reply>)
    ensures !Tripped(replies, -1) && FailuresAre(replies, 0, 0)
  {
  }

  lemma RoundIs(replies: seq<Reply>, n: nat)
    requires n < |replies|
    ensures !Tripped(replies, n) ==> Expected(replies, n) == Sent(IdOf(n), EventOf(replies[n], IdOf(n)))
    ensures Tripped(replies, n) ==> Expected(replies, n) == if Tripped(replies, n - 1) then Quiet else FatalRaised
    ensures Failed(replies, n) <==> EventOf(replies[n], IdOf(n)) != NoEvent
  {
  }

  /** heartbeat_health_thread of an existing context with a callback. `replies[n]` is what a heartbeat sent
      in round `n` meets; the thread is stopped after the last of them. */
  method HeartbeatHealthThread(replies: seq<Reply>) returns (rounds: seq<Round>)
    ensures |rounds| == |replies| && forall n | 0 <= n < |rounds| :: rounds[n] == Expected(replies, n)
  {
    hide Expected, Tripped, Failed, FailuresAre, IdOf;
    NothingAtStart(replies);
    NextId(0);
    var requestId: byte, failCount, fatalEventRaised := 0, 0, false;
    var n := 0;
    rounds := [];
    while n < |replies|
      invariant n <= |replies| && |rounds| == n && failCount <= HEARTBEAT_FAIL_THRESHOLD
      invariant forall k | 0 <= k < n :: rounds[k] == Expected(replies, k)
      invariant !Tripped(replies, n - 1) ==>
                  requestId == IdOf(n) && !fatalEventRaised && FailuresAre(replies, n, failCount)
      invariant Tripped(replies, n - 1) ==> fatalEventRaised
    {
      TripsAt(replies, n, failCount);
      RoundIs(replies, n);
      NextId(n);
      if !fatalEventRaised && failCount < HEARTBEAT_FAIL_THRESHOLD {
        NextFailure(replies, n, failCount);
        var reply := replies[n];
        var event := NoEvent;
        if reply.ret != 0 {
          event := Expired;
          failCount := failCount + 1;
        } else if reply.responseId != requestId {
          event := Validation;
          failCount := failCount + 1;
        } else {
          failCount := 0;
        }
        rounds := rounds + [Sent(requestId, event)];
        requestId := (requestId + 1) % 256;
      } else {
        if !fatalEventRaised {
          rounds := rounds + [FatalRaised];
          fatalEventRaised := true;
        } else {
          rounds := rounds + [Quiet];
        }
      }
      n := n + 1;
    }
  }

  /** The fatal event comes in round `m` exactly when the rounds `m - 3` to `m - 1` are the first three
      consecutive failures; a heartbeat is sent in every round before, and none after. */
  lemma OneFatalEvent(replies: seq<Reply>, m: nat)
    requires m < |replies|
    ensures Expected(replies, m) == FatalRaised <==>
            ThreeFailedBefore(replies, m) && forall f | 0 <= f < m :: !ThreeFailedBefore(replies, f)
    ensures Expected(replies, m) == FatalRaised ==>
            && (forall n | 0 <= n < m :: Expected(replies, n).Sent?)
            && (forall n | m < n < |replies| :: Expected(replies, n) == Quiet)
  {
  }
}
