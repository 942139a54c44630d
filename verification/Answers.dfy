/**
 What a caller is told: a confirmed request returns nil, and over every run
 the answer is the one the verdict, the timeout or the loss of the connection
 calls for.
 */
module Answers {
  import opened Wrappers
  import opened Bits
  import opened Pdu
  import opened Messages
  import opened Association

  // A confirmed request returns nil

  lemma AcceptanceJudged(pdu: seq<octet>, key: Key)
    requires Confirms(pdu, key)
    ensures IsOutcome(pdu) && Judge(pdu, key) == Some(Accepted(pdu))
  {
    hide ReadHeader, ResponseIds, Judge, Refuses;
    VerdictExactly(pdu, key);
  }

  /** The reader takes in a confirming PDU, finds the waiting job and offers the verdict. */
  lemma Confirm(steps: seq<Step>, s: State, j: JobId, pdu: seq<octet>) returns (more: seq<Step>, t: State)
    requires Execute(Init(), steps) == Some(s)
    requires s.maintainer.Reading? && s.awaiting == Some(j) && j < |s.jobs| && j !in s.results
    requires Confirms(pdu, s.jobs[j].key)
    ensures Execute(Init(), more) == Some(t) && steps <= more
    ensures t == s.(received := s.received + [pdu], results := s.results[j := Accepted(pdu)],
      accepted := s.accepted[j := |s.received|])
  {
    hide Execute, Judge, IsOutcome, Confirms;
    AcceptanceJudged(pdu, s.jobs[j].key);
    more, t := Advance(steps, s, Receive(pdu));
    more, t := Advance(more, t, Load);
    more, t := Advance(more, t, Offer);
  }

  /**
   From every reachable state in which a sender waits on a connection being
   read, and nothing has been offered to it yet, a response that confirms its
   request can be received and makes its call return nil.
   */
  lemma ConfirmationReturnsNil(steps: seq<Step>, x: Sender, pdu: seq<octet>) returns (more: seq<Step>)
    requires Execute(Init(), steps).Some?
    requires
      var s := Execute(Init(), steps).value;
      var p := PhaseOf(s, x);
      && p.Waiting? && s.maintainer.Reading? && p.job !in s.results
      && p.job < |s.jobs| && Confirms(pdu, s.jobs[p.job].key)
    ensures steps <= more && Execute(Init(), more).Some?
    ensures
      var s, t := Execute(Init(), steps).value, Execute(Init(), more).value;
      var j := PhaseOf(s, x).job;
      t.received == s.received + [pdu] && PhaseOf(t, x) == Returned(s.jobs[j].key, Some(j), Nil)
  {
    hide Execute, Confirms;
    var s := Execute(Init(), steps).value;
    var j := PhaseOf(s, x).job;
    OneJobInFlight(steps);
    var t: State;
    more, t := Confirm(steps, s, j, pdu);
    assert PhaseOf(t, x) == PhaseOf(s, x);
    more, t := Advance(more, t, TakeResult(x));
    assert PhaseOf(t, x) == Returning(j, Nil);
    hide Apply;
    more, t := Finish1(more, t, x, j, Nil);
  }

  /**
   For every request of the two procedures there is a run in which the peer
   answers it with a successful response and nothing else is received: the
   call returns nil.
   */
  lemma AcceptedRequestReturnsNil(key: Key, cause: octet) returns (steps: seq<Step>)
    requires 0 <= key.procedure <= 1
    ensures SuccessResponse(key.procedure, key.ids.messageId, key.ids.serial, cause).Success?
    ensures Execute(Init(), steps).Some?
    ensures
      var s := Execute(Init(), steps).value;
      && s.received == [SuccessResponse(key.procedure, key.ids.messageId, key.ids.serial, cause).value]
      && PhaseOf(s, 0) == Returned(key, Some(0), Nil)
  {
    hide Execute, Apply, SuccessResponse, Confirms;
    ResponseAccepts(key.procedure, key.ids.messageId, key.ids.serial, cause);
    ResponseConfirmsOnly(key, cause, key);
    var pdu := SuccessResponse(key.procedure, key.ids.messageId, key.ids.serial, cause).value;
    var s: State;
    steps, s := Connect();
    steps, s := Send1(steps, s, 0, key);
    steps := ConfirmationReturnsNil(steps, 0, pdu);
  }

  /** The reader fails, finds the waiting job and offers the loss. */
  lemma Lose(steps: seq<Step>, s: State, j: JobId) returns (more: seq<Step>, t: State)
    requires Execute(Init(), steps) == Some(s)
    requires s.maintainer.Reading? && s.awaiting == Some(j) && j < |s.jobs| && j !in s.results
    ensures Execute(Init(), more) == Some(t) && more == steps + [ReadFails, LoadFailing, OfferLost]
    ensures t == s.(maintainer := t.maintainer, results := s.results[j := Lost])
  {
    hide Execute;
    more, t := Advance(steps, s, ReadFails);
    more, t := Advance(more, t, LoadFailing);
    more, t := Advance(more, t, OfferLost);
  }

  /**
   From every such state the connection can be lost, and then the sender finds
   the loss in its own channel: its call returns the connection error.
   */
  lemma LossIsReported(steps: seq<Step>, x: Sender) returns (more: seq<Step>)
    requires Execute(Init(), steps).Some?
    requires
      var s := Execute(Init(), steps).value;
      var p := PhaseOf(s, x);
      p.Waiting? && s.maintainer.Reading? && p.job !in s.results && p.job < |s.jobs|
    ensures steps + [ReadFails, LoadFailing, OfferLost, TakeResult(x)] <= more && Execute(Init(), more).Some?
    ensures
      var s, t := Execute(Init(), steps).value, Execute(Init(), more).value;
      var j := PhaseOf(s, x).job;
      PhaseOf(t, x) == Returned(s.jobs[j].key, Some(j), ConnectionLost)
  {
    hide Execute;
    var s := Execute(Init(), steps).value;
    var j := PhaseOf(s, x).job;
    OneJobInFlight(steps);
    var t: State;
    more, t := Lose(steps, s, j);
    assert PhaseOf(t, x) == PhaseOf(s, x);
    more, t := Advance(more, t, TakeResult(x));
    assert PhaseOf(t, x) == Returning(j, ConnectionLost);
    hide Apply;
    more, t := Finish1(more, t, x, j, ConnectionLost);
  }

  // Over every run the answer is the one called for

  /** The ways out of a transaction, and the answer each calls for. */
  predicate Leaves(s: State, step: Step, x: Sender, answer: Answer) {
    match step
    case Capture(y) => x == y && PhaseOf(s, x).Locked? && s.conn.None? && answer == NotConnected
    case WriteFails(y) => x == y && PhaseOf(s, x).Registered? && answer == WriteFailed
    case TakeResult(y) =>
      && x == y && PhaseOf(s, x).Waiting? && PhaseOf(s, x).job in s.results
      && (match s.results[PhaseOf(s, x).job]
          case Accepted(_) => answer == Nil
          case Rejected(_) => answer == RequestRejected
          case Lost => answer == ConnectionLost)
    case TimeOut(y) => x == y && PhaseOf(s, x).Waiting? && answer == TimedOut
    case SeeDone(y) => x == y && PhaseOf(s, x).Waiting? && PhaseOf(s, x).done in s.closed && answer == ConnectionLost
    case _ => false
  }

  /** The job a sender has registered, if any. */
  function JobAt(p: Phase): Option<JobId> {
    if HasJob(p) then Some(p.job) else None
  }

  /** The request a sender is at. */
  function KeyAt(s: State, x: Sender): Option<Key> {
    var p := PhaseOf(s, x);
    if HasJob(p) then if p.job < |s.jobs| then Some(s.jobs[p.job].key) else None
    else if p.Locked? then Some(p.key)
    else None
  }

  /** The sender is on its way out of a request, or out of it, with this answer. */
  predicate Leaving(s: State, x: Sender, key: Key, job: Option<JobId>, answer: Answer) {
    || (job.Some? && job.value < |s.jobs| && s.jobs[job.value].key == key
        && PhaseOf(s, x) == Returning(job.value, answer))
    || PhaseOf(s, x) == Unlocking(key, job, answer)
    || PhaseOf(s, x) == Returned(key, job, answer)
  }

  lemma LeavingStarts(s: State, step: Step, x: Sender, answer: Answer)
    requires Apply(s, step).Some? && Leaves(s, step, x, answer) && KeyAt(s, x).Some?
    ensures Leaving(Apply(s, step).value, x, KeyAt(s, x).value, JobAt(PhaseOf(s, x)), answer)
  {
    hide MaintainerStep;
  }

  lemma OwnStepGoesOn(s: State, step: Step, x: Sender, key: Key, job: Option<JobId>, answer: Answer)
    requires Apply(s, step).Some? && BySender(step) && SenderOf(step) == x && !step.Call?
    requires Leaving(s, x, key, job, answer)
    ensures Leaving(Apply(s, step).value, x, key, job, answer)
  {
    hide MaintainerStep;
  }

  lemma LeavingGoesOn(s: State, step: Step, x: Sender, key: Key, job: Option<JobId>, answer: Answer)
    requires Apply(s, step).Some? && Leaving(s, x, key, job, answer) && !(step.Call? && step.sender == x)
    ensures Leaving(Apply(s, step).value, x, key, job, answer)
  {
    hide Apply;
    if !BySender(step) {
      MaintainerStepFrame(s, step);
      assert PhaseOf(Apply(s, step).value, x) == PhaseOf(s, x);
    } else if SenderOf(step) != x {
      SenderStepFrame(s, step);
    } else {
      OwnStepGoesOn(s, step, x, key, job, answer);
    }
  }

  /**
   Over every run: once a sender has left its wait, however the run goes on,
   its call ends in the answer its way out calls for, and in no other.
   */
  lemma {:induction false} AnswerIsWhatHappened(
    steps: seq<Step>, step: Step, more: seq<Step>, x: Sender, answer: Answer)
    requires Execute(Init(), steps).Some? && Leaves(Execute(Init(), steps).value, step, x, answer)
    requires Execute(Init(), steps + [step] + more).Some?
    requires forall k | 0 <= k < |more| :: !(more[k].Call? && more[k].sender == x)
    ensures
      var s, t := Execute(Init(), steps).value, Execute(Init(), steps + [step] + more).value;
      KeyAt(s, x).Some? && Leaving(t, x, KeyAt(s, x).value, JobAt(PhaseOf(s, x)), answer)
    decreases |more|
  {
    hide Apply, Leaving;
    var s := Execute(Init(), steps).value;
    if more == [] {
      assert (steps + [step] + more)[..|steps|] == steps && steps + [step] + more == steps + [step];
      OneJobInFlight(steps);
      LeavingStarts(s, step, x, answer);
    } else {
      var init, last := more[..|more| - 1], more[|more| - 1];
      var all := steps + [step] + more;
      assert all[..|all| - 1] == steps + [step] + init && all[|all| - 1] == last;
      AnswerIsWhatHappened(steps, step, init, x, answer);
      LeavingGoesOn(
        Execute(Init(), steps + [step] + init).value, last, x, KeyAt(s, x).value, JobAt(PhaseOf(s, x)), answer);
    }
  }
}
