/**
 One MME association as a step system. A step is a lock-protected region, a
 channel operation or a blocking call's return, so every interleaving of the
 maintainer (dialer and reader), any number of senders and the peer is a
 sequence of steps.
 */
module Association {
  import opened Wrappers
  import opened Bits
  import opened Pdu
  import opened Elements
  import opened Messages

  type Sender = nat
  type Conn = nat
  type Chan = nat
  type JobId = nat

  /** What a request is correlated by. */
  datatype Key = Key(procedure: int, ids: Ids)

  datatype Job = Job(owner: Sender, key: Key)

  /** The content of a job's one-place result channel, with the PDU it came from. */
  datatype Verdict = Accepted(pdu: seq<octet>) | Rejected(pdu: seq<octet>) | Lost

  datatype Answer = Nil | RequestRejected | ConnectionLost | NotConnected | WriteFailed | TimedOut

  /** Where a sender stands in sendAndAwait. */
  datatype Phase =
    | Idle
    | Queued(key: Key)
    | Locked(key: Key)
    | Captured(key: Key, conn: Conn, done: Chan)
    | Registered(job: JobId, conn: Conn, done: Chan)
    | Waiting(job: JobId, conn: Conn, done: Chan)
    | Returning(job: JobId, answer: Answer)
    | Unlocking(key: Key, finished: Option<JobId>, answer: Answer)
    | Returned(key: Key, finished: Option<JobId>, answer: Answer)

  /** Where the maintainer stands: dialing, reading one connection, or winding it up. */
  datatype Maintainer =
    | Dialing
    | Dialed(conn: Conn)
    | Reading(conn: Conn, done: Chan)
    | Loading(conn: Conn, done: Chan, pdu: seq<octet>)
    | Offering(conn: Conn, done: Chan, pdu: seq<octet>, job: JobId)
    | Failing(conn: Conn, done: Chan)
    | FailOffering(conn: Conn, done: Chan, job: JobId)
    | Clearing(conn: Conn, done: Chan)
    | Closing(conn: Conn, done: Chan)
    | Stopped

  datatype State = State(
    conn: Option<Conn>, done: Option<Chan>,
    sendMu: Option<Sender>, awaiting: Option<JobId>,
    senders: map<Sender, Phase>, maintainer: Maintainer,
    jobs: seq<Job>, results: map<JobId, Verdict>,
    closed: set<Chan>,
    // history
    closings: multiset<Chan>, pairs: map<Chan, Conn>, nextConn: Conn, received: seq<seq<octet>>,
    accepted: map<JobId, int>)

  function Init(): State {
    State(None, None, None, None, map[], Dialing, [], map[], {}, multiset{}, map[], 0, [], map[])
  }

  function PhaseOf(s: State, x: Sender): Phase {
    if x in s.senders then s.senders[x] else Idle
  }

  function Move(s: State, x: Sender, p: Phase): State {
    s.(senders := s.senders[x := p])
  }

  datatype Step =
    | Call(sender: Sender, key: Key)
    | Lock(sender: Sender)
    | Capture(sender: Sender)
    | Register(sender: Sender)
    | WriteSucceeds(sender: Sender)
    | WriteFails(sender: Sender)
    | TakeResult(sender: Sender)
    | TimeOut(sender: Sender)
    | SeeDone(sender: Sender)
    | Deregister(sender: Sender)
    | Unlock(sender: Sender)
    | DialSucceeds
    | SetConn(chan: Chan)
    | Receive(pdu: seq<octet>)
    | Load
    | Offer
    | ReadFails
    | LoadFailing
    | OfferLost
    | ClearConn
    | CloseDone
    | Stop

  const OUTCOME_SUCCESSFUL := 2
  const OUTCOME_UNSUCCESSFUL := 3

  /** The classes of PDU that readLoop hands to deliverResponse. */
  predicate IsOutcome(pdu: seq<octet>) {
    ReadHeader(pdu).Success? && ReadHeader(pdu).value.outcome in {OUTCOME_SUCCESSFUL, OUTCOME_UNSUCCESSFUL}
  }

  /** A successful outcome carrying the key's procedure, message identifier and serial number. */
  predicate Confirms(pdu: seq<octet>, key: Key) {
    && ReadHeader(pdu) == Success(Header(OUTCOME_SUCCESSFUL, key.procedure))
    && ResponseIds(pdu, key.procedure) == Success(key.ids)
  }

  /** An unsuccessful outcome is matched by its procedure alone. */
  predicate Refuses(pdu: seq<octet>, key: Key) {
    ReadHeader(pdu) == Success(Header(OUTCOME_UNSUCCESSFUL, key.procedure))
  }

  /** deliverResponse after loading the job: what it offers to the result channel. */
  function Judge(pdu: seq<octet>, key: Key): Option<Verdict> {
    match ReadHeader(pdu)
    case Failure(_) => None
    case Success(h) =>
      if h.procedure != key.procedure then None
      else if h.outcome == OUTCOME_SUCCESSFUL then
        match ResponseIds(pdu, h.procedure)
        case Failure(_) => None
        case Success(ids) => if ids == key.ids then Some(Accepted(pdu)) else None
      else if h.outcome == OUTCOME_UNSUCCESSFUL then Some(Rejected(pdu))
      else None
  }

  /** A non-blocking send on a channel with room for one value. */
  function Send(results: map<JobId, Verdict>, j: JobId, v: Verdict): map<JobId, Verdict> {
    if j in results then results else results[j := v]
  }

  /** History: which received PDU a job was accepted by, when the channel took it. */
  function Noted(s: State, j: JobId, v: Verdict): map<JobId, int> {
    if v.Accepted? && j !in s.results then s.accepted[j := |s.received| - 1] else s.accepted
  }

  function AnswerOf(v: Verdict): Answer {
    match v
    case Accepted(_) => Nil
    case Rejected(_) => RequestRejected
    case Lost => ConnectionLost
  }

  predicate BySender(step: Step) {
    match step
    case DialSucceeds | SetConn(_) | Receive(_) | Load | Offer | ReadFails => false
    case LoadFailing | OfferLost | ClearConn | CloseDone | Stop => false
    case _ => true
  }

  function SenderOf(step: Step): Sender
    requires BySender(step)
  {
    match step
    case Call(x, _) => x
    case Lock(x) => x
    case Capture(x) => x
    case Register(x) => x
    case WriteSucceeds(x) => x
    case WriteFails(x) => x
    case TakeResult(x) => x
    case TimeOut(x) => x
    case SeeDone(x) => x
    case Deregister(x) => x
    case Unlock(x) => x
  }

  /** A sender's step: entering, sending, answering, leaving. */
  function SenderStep(s: State, step: Step): Option<State> {
    match step
    case Call(x, key) =>
      if PhaseOf(s, x).Idle? || PhaseOf(s, x).Returned? then Some(Move(s, x, Queued(key))) else None
    case Lock(x) =>
      if PhaseOf(s, x).Queued? && s.sendMu.None?
      then Some(Move(s, x, Locked(PhaseOf(s, x).key)).(sendMu := Some(x))) else None
    case Capture(x) =>
      if !PhaseOf(s, x).Locked? then None
      else if s.conn.None? then Some(Move(s, x, Unlocking(PhaseOf(s, x).key, None, NotConnected)))
      else if s.done.None? then None
      else Some(Move(s, x, Captured(PhaseOf(s, x).key, s.conn.value, s.done.value)))
    case Register(x) =>
      if !PhaseOf(s, x).Captured? then None
      else
        var p, j := PhaseOf(s, x), |s.jobs|;
        Some(Move(s, x, Registered(j, p.conn, p.done)).(jobs := s.jobs + [Job(x, p.key)], awaiting := Some(j)))
    case WriteSucceeds(x) =>
      if !PhaseOf(s, x).Registered? then None
      else
        var p := PhaseOf(s, x);
        Some(Move(s, x, Waiting(p.job, p.conn, p.done)))
    case WriteFails(x) =>
      if !PhaseOf(s, x).Registered? then None
      else Some(Move(s, x, Returning(PhaseOf(s, x).job, WriteFailed)))
    case TakeResult(x) =>
      if !PhaseOf(s, x).Waiting? || PhaseOf(s, x).job !in s.results then None
      else
        var j := PhaseOf(s, x).job;
        Some(Move(s, x, Returning(j, AnswerOf(s.results[j]))).(results := s.results - {j}))
    case TimeOut(x) =>
      if !PhaseOf(s, x).Waiting? then None else Some(Move(s, x, Returning(PhaseOf(s, x).job, TimedOut)))
    case SeeDone(x) =>
      if !PhaseOf(s, x).Waiting? || PhaseOf(s, x).done !in s.closed then None
      else Some(Move(s, x, Returning(PhaseOf(s, x).job, ConnectionLost)))
    case Deregister(x) =>
      if !PhaseOf(s, x).Returning? || PhaseOf(s, x).job >= |s.jobs| then None
      else
        var p := PhaseOf(s, x);
        Some(Move(s, x, Unlocking(s.jobs[p.job].key, Some(p.job), p.answer))
             .(awaiting := if s.awaiting == Some(p.job) then None else s.awaiting))
    case Unlock(x) =>
      if !PhaseOf(s, x).Unlocking? then None
      else
        var p := PhaseOf(s, x);
        Some(Move(s, x, Returned(p.key, p.finished, p.answer)).(sendMu := None))
    case _ => None
  }

  /** deliverResponse's last part: judge the PDU against the loaded job and offer the verdict. */
  function OfferStep(s: State): Option<State> {
    if !s.maintainer.Offering? || s.maintainer.job >= |s.jobs| then None
    else
      var m := s.maintainer;
      var after := s.(maintainer := Reading(m.conn, m.done));
      (match Judge(m.pdu, s.jobs[m.job].key)
       case None => Some(after)
       case Some(v) => Some(after.(results := Send(s.results, m.job, v), accepted := Noted(s, m.job, v))))
  }

  /** The maintainer's step: dial, read, dispatch, wind up. */
  function MaintainerStep(s: State, step: Step): Option<State> {
    match step
    case DialSucceeds =>
      if s.maintainer.Dialing? then Some(s.(maintainer := Dialed(s.nextConn), nextConn := s.nextConn + 1)) else None
    case SetConn(d) =>
      if !s.maintainer.Dialed? || d in s.pairs then None
      else
        var c := s.maintainer.conn;
        Some(s.(conn := Some(c), done := Some(d), pairs := s.pairs[d := c], maintainer := Reading(c, d)))
    case Receive(pdu) =>
      if !s.maintainer.Reading? then None
      else
        var m := s.maintainer;
        Some(s.(received := s.received + [pdu], maintainer := if IsOutcome(pdu) then Loading(m.conn, m.done, pdu)
          else m))
    case Load =>
      if !s.maintainer.Loading? then None
      else
        var m := s.maintainer;
        Some(s.(maintainer := if s.awaiting.None? then Reading(m.conn, m.done)
          else Offering(m.conn, m.done, m.pdu, s.awaiting.value)))
    case Offer => OfferStep(s)
    case ReadFails =>
      if !s.maintainer.Reading? then None else Some(s.(maintainer := Failing(s.maintainer.conn, s.maintainer.done)))
    case LoadFailing =>
      if !s.maintainer.Failing? then None
      else
        var m := s.maintainer;
        Some(s.(maintainer := if s.awaiting.None? then Clearing(m.conn, m.done)
          else FailOffering(m.conn, m.done, s.awaiting.value)))
    case OfferLost =>
      if !s.maintainer.FailOffering? then None
      else
        var m := s.maintainer;
        Some(s.(maintainer := Clearing(m.conn, m.done), results := Send(s.results, m.job, Lost)))
    case ClearConn =>
      if !s.maintainer.Clearing? then None
      else
        var m := s.maintainer;
        Some(s.(maintainer := Closing(m.conn, m.done), conn := if s.conn == Some(m.conn) then None else s.conn))
    case CloseDone =>
      if !s.maintainer.Closing? then None
      else if s.maintainer.done in s.closed then Some(s.(maintainer := Dialing))
      else
        var d := s.maintainer.done;
        Some(s.(maintainer := Dialing, closed := s.closed + {d}, closings := s.closings + multiset{d}))
    case Stop =>
      if s.maintainer.Dialing? then Some(s.(maintainer := Stopped)) else None
    case _ => None
  }

  /** The state after a step, or None when the step is not possible. */
  function Apply(s: State, step: Step): Option<State> {
    if BySender(step) then SenderStep(s, step) else MaintainerStep(s, step)
  }

  /** The state after a whole run. */
  function Execute(s: State, steps: seq<Step>): Option<State>
    decreases |steps|
  {
    if steps == [] then Some(s)
    else
      match Execute(s, steps[..|steps| - 1])
      case None => None
      case Some(t) => Apply(t, steps[|steps| - 1])
  }

  // The invariant

  predicate InTransaction(p: Phase) {
    p.Locked? || p.Captured? || p.Registered? || p.Waiting? || p.Returning? || p.Unlocking?
  }

  predicate HasJob(p: Phase) {
    p.Registered? || p.Waiting? || p.Returning?
  }

  predicate HasPair(p: Phase) {
    p.Captured? || p.Registered? || p.Waiting?
  }

  predicate Serving(m: Maintainer) {
    m.Reading? || m.Loading? || m.Offering? || m.Failing? || m.FailOffering? || m.Clearing? || m.Closing?
  }

  /** Exactly the holder of sendMu is inside a transaction. */
  ghost predicate MutexInv(s: State) {
    forall x: Sender :: InTransaction(PhaseOf(s, x)) <==> s.sendMu == Some(x)
  }

  /** A job is registered exactly while its owner holds the transaction with it. */
  ghost predicate JobInv(s: State) {
    && (forall x {:trigger PhaseOf(s, x)} | HasJob(PhaseOf(s, x)) ::
          PhaseOf(s, x).job < |s.jobs| && s.jobs[PhaseOf(s, x).job].owner == x && s.awaiting == Some(PhaseOf(s, x).job))
    && (s.awaiting.Some? ==>
          s.awaiting.value < |s.jobs|
          && var p := PhaseOf(s, s.jobs[s.awaiting.value].owner); HasJob(p) && p.job == s.awaiting.value)
  }

  predicate Backed(v: Verdict, key: Key, received: seq<seq<octet>>) {
    match v
    case Accepted(pdu) => pdu in received && Confirms(pdu, key)
    case Rejected(pdu) => pdu in received && Refuses(pdu, key)
    case Lost => true
  }

  /** Every verdict waiting in a channel is backed by a received PDU that fits that very job. */
  ghost predicate ResultInv(s: State) {
    && (forall j | j in s.results :: j < |s.jobs| && Backed(s.results[j], s.jobs[j].key, s.received))
    && (s.maintainer.Loading? || s.maintainer.Offering? ==> s.maintainer.pdu in s.received)
    && (s.maintainer.Offering? || s.maintainer.FailOffering? ==> s.maintainer.job < |s.jobs|)
  }

  /** An answer a sender may give its caller. */
  ghost predicate Earned(answer: Answer, key: Key, received: seq<seq<octet>>) {
    && (answer == Nil ==> exists pdu | pdu in received :: Confirms(pdu, key))
    && (answer == RequestRejected ==> exists pdu | pdu in received :: Refuses(pdu, key))
  }

  ghost predicate AnswerFor(s: State, x: Sender) {
    var p := PhaseOf(s, x);
    && (p.Returning? ==> p.job < |s.jobs| && Earned(p.answer, s.jobs[p.job].key, s.received))
    && (p.Unlocking? || p.Returned? ==> Earned(p.answer, p.key, s.received))
  }

  ghost predicate AnswerInv(s: State) {
    forall x: Sender :: AnswerFor(s, x)
  }

  predicate Paired(s: State, c: Conn, d: Chan) {
    d in s.pairs && s.pairs[d] == c
  }

  /** The connection and channel a sender captured come from one setConn. */
  ghost predicate PairInv(s: State) {
    && (s.conn.Some? ==> s.done.Some? && Paired(s, s.conn.value, s.done.value))
    && (forall x {:trigger PhaseOf(s, x)} | HasPair(PhaseOf(s, x)) :: Paired(s, PhaseOf(s, x).conn, PhaseOf(s, x).done))
  }

  /** A channel is open exactly while its connection is served, and closed once. */
  ghost predicate ChannelInv(s: State) {
    && (s.conn.Some? ==> Serving(s.maintainer) && !s.maintainer.Closing? && s.maintainer.conn == s.conn.value)
    && (Serving(s.maintainer) ==> Paired(s, s.maintainer.conn, s.maintainer.done))
    && s.closed <= s.pairs.Keys
    && (forall d | d in s.pairs :: d !in s.closed <==> Serving(s.maintainer) && s.maintainer.done == d)
    && (forall d: Chan :: s.closings[d] == if d in s.closed then 1 else 0)
  }

  /** Connections are fresh, so no two channels belong to the same one. */
  ghost predicate FreshInv(s: State) {
    && (forall d | d in s.pairs :: s.pairs[d] < s.nextConn)
    && (s.maintainer.Dialed? ==>
          s.maintainer.conn < s.nextConn && forall d | d in s.pairs :: s.pairs[d] != s.maintainer.conn)
    && (forall d, e | d in s.pairs && e in s.pairs && s.pairs[d] == s.pairs[e] :: d == e)
  }

  /** The sender's finished job was accepted, and is the one it asked for. */
  ghost predicate NilFor(s: State, x: Sender) {
    var p := PhaseOf(s, x);
    && (p.Returning? && p.answer == Nil ==> p.job in s.accepted)
    && ((p.Unlocking? || p.Returned?) && p.answer == Nil ==>
          p.finished.Some? && p.finished.value in s.accepted && s.accepted[p.finished.value] < |s.received|
          && p.finished.value < |s.jobs| && s.jobs[p.finished.value] == Job(x, p.key))
  }

  /** Each accepted job was confirmed by a received PDU, no PDU confirms two, and the PDU at hand confirms none yet. */
  ghost predicate AcceptedInv(s: State) {
    && (forall j | j in s.accepted ::
          j < |s.jobs| && 0 <= s.accepted[j] < |s.received| && Confirms(s.received[s.accepted[j]], s.jobs[j].key))
    && (forall j, k | j in s.accepted && k in s.accepted && s.accepted[j] == s.accepted[k] :: j == k)
    && (s.maintainer.Loading? || s.maintainer.Offering? ==>
          && |s.received| > 0 && s.maintainer.pdu == s.received[|s.received| - 1]
          && forall j | j in s.accepted :: s.accepted[j] < |s.received| - 1)
    && (forall j | j in s.results && s.results[j].Accepted? :: j in s.accepted)
  }

  /** An accepted job was answered by a confirming PDU of its own, and only accepted jobs are answered with nil. */
  ghost predicate HistoryInv(s: State) {
    AcceptedInv(s) && forall x: Sender :: NilFor(s, x)
  }

  ghost predicate Inv(s: State) {
    MutexInv(s) && JobInv(s) && ResultInv(s) && AnswerInv(s) && PairInv(s) && ChannelInv(s) && FreshInv(s)
      && HistoryInv(s)
  }

  lemma InitInv()
    ensures Inv(Init())
  {
  }

  // Each part is kept by every step

  /** A sender's step changes no other sender and nothing of the maintainer's. */
  lemma SenderStepFrame(s: State, step: Step)
    requires BySender(step) && Apply(s, step).Some?
    ensures var t := Apply(s, step).value;
      && (forall y: Sender | y != SenderOf(step) :: PhaseOf(t, y) == PhaseOf(s, y))
      && t.conn == s.conn && t.done == s.done && t.maintainer == s.maintainer && t.closed == s.closed
      && t.closings == s.closings && t.pairs == s.pairs && t.nextConn == s.nextConn && t.received == s.received
      && t.accepted == s.accepted && s.jobs <= t.jobs
      && (forall j | j in t.results :: j in s.results && t.results[j] == s.results[j])
  {
    hide MaintainerStep;
  }

  /** A maintainer's step changes nothing of the senders'. */
  lemma MaintainerStepFrame(s: State, step: Step)
    requires !BySender(step) && Apply(s, step).Some?
    ensures var t := Apply(s, step).value;
      && t.senders == s.senders && t.sendMu == s.sendMu && t.awaiting == s.awaiting && t.jobs == s.jobs
      && s.received <= t.received
  {
    hide SenderStep;
    hide Judge, IsOutcome, Send;
  }

  lemma MutexKept(s: State, step: Step)
    requires MutexInv(s) && Apply(s, step).Some?
    ensures MutexInv(Apply(s, step).value)
  {
    var t := Apply(s, step).value;
    if BySender(step) {
      hide MaintainerStep;
      SenderStepFrame(s, step);
      assert InTransaction(PhaseOf(s, SenderOf(step))) <==> s.sendMu == Some(SenderOf(step));
    } else {
      MaintainerStepFrame(s, step);
      hide Apply;
    }
  }

  lemma JobKept(s: State, step: Step)
    requires MutexInv(s) && JobInv(s) && Apply(s, step).Some?
    ensures JobInv(Apply(s, step).value)
  {
    if BySender(step) {
      hide MaintainerStep;
      SenderJobKept(s, step);
    } else {
      var t := Apply(s, step).value;
      MaintainerStepFrame(s, step);
      hide Apply;
      assert forall x: Sender :: PhaseOf(t, x) == PhaseOf(s, x);
    }
  }

  /** How a sender comes to a job and loses it: by registering a new one, and by deregistering it. */
  lemma JobOrigin(s: State, step: Step)
    requires BySender(step) && Apply(s, step).Some?
    ensures
      var t, x := Apply(s, step).value, SenderOf(step);
      var p, q := PhaseOf(s, x), PhaseOf(t, x);
      && (HasJob(q) && HasJob(p) ==> q.job == p.job && t.awaiting == s.awaiting && t.jobs == s.jobs)
      && (HasJob(q) && !HasJob(p) ==>
            p.Captured? && q.job == |s.jobs| && t.awaiting == Some(q.job) && t.jobs == s.jobs + [Job(x, p.key)])
      && (!HasJob(q) && HasJob(p) ==>
            t.jobs == s.jobs && t.awaiting == if s.awaiting == Some(p.job) then None else s.awaiting)
      && (!HasJob(q) && !HasJob(p) ==> t.jobs == s.jobs && t.awaiting == s.awaiting)
  {
    hide MaintainerStep;
  }

  lemma SenderJobKept(s: State, step: Step)
    requires MutexInv(s) && JobInv(s) && BySender(step) && Apply(s, step).Some?
    ensures JobInv(Apply(s, step).value)
  {
    hide Apply;
    SenderStepFrame(s, step);
    JobOrigin(s, step);
    OnlyHolderHasJob(s);
    var x := SenderOf(step);
    assert InTransaction(PhaseOf(s, x)) <==> s.sendMu == Some(x);
  }

  lemma OnlyHolderHasJob(s: State)
    requires MutexInv(s) && JobInv(s)
    ensures forall x: Sender | HasJob(PhaseOf(s, x)) :: s.sendMu == Some(x)
    ensures s.awaiting.Some? ==> s.sendMu == Some(s.jobs[s.awaiting.value].owner)
  {
    forall x: Sender | HasJob(PhaseOf(s, x))
      ensures s.sendMu == Some(x)
    {
      assert InTransaction(PhaseOf(s, x));
    }
  }

  /** What is offered for a PDU and a job: nothing but a full match or a refusal of the procedure. */
  lemma VerdictExactly(pdu: seq<octet>, key: Key)
    ensures Judge(pdu, key)
         == if Confirms(pdu, key) then Some(Accepted(pdu)) else if Refuses(pdu, key) then Some(Rejected(pdu)) else None
    ensures !(Confirms(pdu, key) && Refuses(pdu, key))
  {
    hide DecodePdu, CorrelationIds;
    HeaderOfResponse(pdu, key.procedure);
  }

  lemma HeaderOfResponse(pdu: seq<octet>, procedure: int)
    ensures ResponseIds(pdu, procedure).Success? ==> ReadHeader(pdu) == Success(Header(OUTCOME_SUCCESSFUL, procedure))
  {
    hide DecodePdu, CorrelationIds;
  }

  lemma ResultKept(s: State, step: Step)
    requires JobInv(s) && ResultInv(s) && Apply(s, step).Some?
    ensures ResultInv(Apply(s, step).value)
  {
    var t := Apply(s, step).value;
    if BySender(step) {
      hide MaintainerStep;
      SenderStepFrame(s, step);
      assert forall j | j in t.results :: j in s.results && t.results[j] == s.results[j];
      hide Apply, Backed;
    } else {
      MaintainerStepFrame(s, step);
      MaintainerResultKept(s, step);
    }
  }

  lemma MaintainerResultKept(s: State, step: Step)
    requires JobInv(s) && ResultInv(s) && !BySender(step) && Apply(s, step).Some?
    ensures ResultInv(Apply(s, step).value)
  {
    hide SenderStep;
    hide Judge, IsOutcome, Confirms, Refuses;
    if step.Offer? {
      JudgeOutcome(s.maintainer.pdu, s.jobs[s.maintainer.job].key);
    }
  }

  lemma JudgeOutcome(pdu: seq<octet>, key: Key)
    ensures Judge(pdu, key).Some? ==>
      var v := Judge(pdu, key).value;
      (v == Accepted(pdu) && Confirms(pdu, key)) || (v == Rejected(pdu) && Refuses(pdu, key))
  {
    VerdictExactly(pdu, key);
    hide Judge, Confirms, Refuses;
  }

  lemma EarnedGrows(answer: Answer, key: Key, received: seq<seq<octet>>, more: seq<seq<octet>>)
    requires Earned(answer, key, received) && received <= more
    ensures Earned(answer, key, more)
  {
    hide Confirms, Refuses;
    if answer == Nil {
      var pdu :| pdu in received && Confirms(pdu, key);
      assert pdu in more;
    } else if answer == RequestRejected {
      var pdu :| pdu in received && Refuses(pdu, key);
      assert pdu in more;
    }
  }

  lemma AnswerKept(s: State, step: Step)
    requires JobInv(s) && ResultInv(s) && AnswerInv(s) && Apply(s, step).Some?
    ensures AnswerInv(Apply(s, step).value)
  {
    hide Earned, Backed;
    var t := Apply(s, step).value;
    if BySender(step) {
      hide MaintainerStep;
      SenderStepFrame(s, step);
      OwnAnswerKept(s, step);
      forall x: Sender
        ensures AnswerFor(t, x)
      {
        if x != SenderOf(step) {
          assert AnswerFor(s, x);
        }
      }
    } else {
      MaintainerStepFrame(s, step);
      hide Apply;
      forall x: Sender
        ensures AnswerFor(t, x)
      {
        var p := PhaseOf(s, x);
        assert AnswerFor(s, x) && PhaseOf(t, x) == p;
        if p.Returning? {
          EarnedGrows(p.answer, s.jobs[p.job].key, s.received, t.received);
        } else if p.Unlocking? || p.Returned? {
          EarnedGrows(p.answer, p.key, s.received, t.received);
        }
      }
    }
  }

  /** How a sender comes to an answer: from its result channel, or with none, and then unchanged to the end. */
  lemma AnswerOrigin(s: State, step: Step)
    requires BySender(step) && Apply(s, step).Some?
    ensures var x := SenderOf(step);
      var p, q := PhaseOf(s, x), PhaseOf(Apply(s, step).value, x);
      && (q.Returning? ==>
            && HasJob(p) && q.job == p.job
            && (q.answer in {WriteFailed, TimedOut, ConnectionLost}
              || (p.job in s.results && q.answer == AnswerOf(s.results[p.job]))))
      && (q.Unlocking? ==>
            || q.answer == NotConnected
            || (p.Returning? && p.job < |s.jobs| && q == Unlocking(s.jobs[p.job].key, Some(p.job), p.answer)))
      && (q.Returned? ==> p.Unlocking? && q == Returned(p.key, p.finished, p.answer))
  {
    hide MaintainerStep, AnswerOf;
  }

  lemma OwnAnswerKept(s: State, step: Step)
    requires JobInv(s) && ResultInv(s) && AnswerInv(s) && BySender(step) && Apply(s, step).Some?
    ensures AnswerFor(Apply(s, step).value, SenderOf(step))
  {
    hide Apply, Confirms, Refuses;
    var x := SenderOf(step);
    SenderStepFrame(s, step);
    AnswerOrigin(s, step);
    assert AnswerFor(s, x);
    if HasJob(PhaseOf(s, x)) {
      assert PhaseOf(s, x).job < |s.jobs|;
    }
  }

  lemma PairKept(s: State, step: Step)
    requires PairInv(s) && Apply(s, step).Some?
    ensures PairInv(Apply(s, step).value)
  {
    var t := Apply(s, step).value;
    if BySender(step) {
      hide MaintainerStep;
      SenderStepFrame(s, step);
      assert HasPair(PhaseOf(t, SenderOf(step))) ==>
          Paired(t, PhaseOf(t, SenderOf(step)).conn, PhaseOf(t, SenderOf(step)).done);
      hide Apply;
    } else {
      MaintainerStepFrame(s, step);
      PairsGrow(s, step);
      hide Apply;
      assert forall x: Sender :: PhaseOf(t, x) == PhaseOf(s, x);
    }
  }

  lemma PairsGrow(s: State, step: Step)
    requires PairInv(s) && !BySender(step) && Apply(s, step).Some?
    ensures var t := Apply(s, step).value;
      && (forall d | d in s.pairs :: d in t.pairs && t.pairs[d] == s.pairs[d])
      && (t.conn.Some? ==> t.done.Some? && Paired(t, t.conn.value, t.done.value))
  {
    hide SenderStep;
    hide Judge, IsOutcome, Send;
  }

  lemma ChannelKept(s: State, step: Step)
    requires ChannelInv(s) && Apply(s, step).Some?
    ensures ChannelInv(Apply(s, step).value)
  {
    var t := Apply(s, step).value;
    if BySender(step) {
      hide MaintainerStep;
      SenderStepFrame(s, step);
      hide Apply;
    } else if step.CloseDone? {
      var d := s.maintainer.done;
      assert d in s.pairs && d !in s.closed;
    } else if step.SetConn? {
    } else {
      ServesOn(s, step);
      hide Apply;
    }
  }

  /** Every other maintainer step leaves the channels alone and keeps serving what it served. */
  lemma ServesOn(s: State, step: Step)
    requires ChannelInv(s) && Apply(s, step).Some?
    requires !BySender(step) && !step.CloseDone? && !step.SetConn?
    ensures var t := Apply(s, step).value;
      && t.closed == s.closed && t.closings == s.closings && t.pairs == s.pairs
      && (Serving(t.maintainer) <==> Serving(s.maintainer))
      && (Serving(t.maintainer) ==> t.maintainer.conn == s.maintainer.conn && t.maintainer.done == s.maintainer.done)
      && (t.conn.Some? ==> t.conn == s.conn && !t.maintainer.Closing?)
  {
    hide SenderStep;
    hide Judge, IsOutcome, Send;
  }

  lemma FreshKept(s: State, step: Step)
    requires FreshInv(s) && Apply(s, step).Some?
    ensures FreshInv(Apply(s, step).value)
  {
    if BySender(step) {
      hide MaintainerStep;
      SenderStepFrame(s, step);
      hide Apply;
    } else {
      hide Judge, IsOutcome, Send;
    }
  }

  lemma SenderHistoryKept(s: State, step: Step)
    requires JobInv(s) && HistoryInv(s) && BySender(step) && Apply(s, step).Some?
    ensures HistoryInv(Apply(s, step).value)
  {
    hide MaintainerStep;
    hide Confirms;
    var t := Apply(s, step).value;
    SenderStepFrame(s, step);
    OwnNilKept(s, step);
    hide Apply;
    forall x: Sender
      ensures NilFor(t, x)
    {
      assert NilFor(s, x);
    }
  }

  lemma OwnNilKept(s: State, step: Step)
    requires JobInv(s) && HistoryInv(s) && BySender(step) && Apply(s, step).Some?
    ensures NilFor(Apply(s, step).value, SenderOf(step))
  {
    hide Apply, Confirms;
    var x := SenderOf(step);
    SenderStepFrame(s, step);
    AnswerOrigin(s, step);
    assert NilFor(s, x);
    if HasJob(PhaseOf(s, x)) {
      assert PhaseOf(s, x).job < |s.jobs| && s.jobs[PhaseOf(s, x).job].owner == x;
    }
  }

  lemma MaintainerHistoryKept(s: State, step: Step)
    requires ResultInv(s) && HistoryInv(s) && !BySender(step) && Apply(s, step).Some?
    ensures HistoryInv(Apply(s, step).value)
  {
    hide SenderStep;
    var t := Apply(s, step).value;
    MaintainerStepFrame(s, step);
    hide MaintainerStep;
    if step.Offer? {
      OfferHistory(s);
    } else {
      OtherHistory(s, step);
    }
    hide Apply, Confirms, Backed;
    forall x: Sender
      ensures NilFor(t, x)
    {
      assert NilFor(s, x);
    }
  }

  lemma OfferEffect(s: State)
    requires Apply(s, Offer).Some?
    ensures s.maintainer.Offering?
    ensures var t, j := Apply(s, Offer).value, s.maintainer.job;
      && t.maintainer.Reading? && t.received == s.received && t.jobs == s.jobs && j < |s.jobs|
      && (|| (t.results == s.results && t.accepted == s.accepted)
          || (t.results == s.results[j := Rejected(s.maintainer.pdu)] && t.accepted == s.accepted)
          || (t.results == s.results[j := Accepted(s.maintainer.pdu)] && t.accepted == s.accepted[j := |s.received| - 1]
              && Confirms(s.maintainer.pdu, s.jobs[j].key)))
  {
    hide SenderStep, Judge, Confirms, Refuses;
    JudgeOutcome(s.maintainer.pdu, s.jobs[s.maintainer.job].key);
  }

  lemma OfferHistory(s: State)
    requires AcceptedInv(s) && Apply(s, Offer).Some?
    ensures AcceptedInv(Apply(s, Offer).value)
    ensures forall j | j in s.accepted :: j in Apply(s, Offer).value.accepted
  {
    hide Apply, Confirms;
    OfferEffect(s);
  }

  /** No answer was accepted on the way from s to t; a PDU at hand in t is the one of s or has just come in. */
  ghost predicate NothingAccepted(s: State, t: State) {
    && t.accepted == s.accepted && t.jobs == s.jobs && s.received <= t.received
    && (forall j | j in t.results && t.results[j].Accepted? :: j in s.results && s.results[j].Accepted?)
    && (t.maintainer.Loading? || t.maintainer.Offering? ==>
          || (s.maintainer.Loading? && t.received == s.received && t.maintainer.pdu == s.maintainer.pdu)
          || t.received == s.received + [t.maintainer.pdu])
  }

  lemma OtherEffect(s: State, step: Step)
    requires !BySender(step) && !step.Offer? && Apply(s, step).Some?
    ensures NothingAccepted(s, Apply(s, step).value)
  {
    hide SenderStep, OfferStep, IsOutcome;
  }

  lemma AcceptedCarried(s: State, t: State)
    requires AcceptedInv(s) && NothingAccepted(s, t)
    ensures AcceptedInv(t)
  {
    hide Confirms;
  }

  lemma OtherHistory(s: State, step: Step)
    requires AcceptedInv(s) && !BySender(step) && !step.Offer? && Apply(s, step).Some?
    ensures AcceptedInv(Apply(s, step).value)
    ensures Apply(s, step).value.accepted == s.accepted
  {
    OtherEffect(s, step);
    hide Apply, AcceptedInv;
    AcceptedCarried(s, Apply(s, step).value);
  }

  lemma InvKept(s: State, step: Step)
    requires Inv(s) && Apply(s, step).Some?
    ensures Inv(Apply(s, step).value)
  {
    hide Apply, MutexInv, JobInv, ResultInv, AnswerInv, PairInv, ChannelInv, FreshInv, HistoryInv;
    MutexKept(s, step);
    JobKept(s, step);
    ResultKept(s, step);
    AnswerKept(s, step);
    PairKept(s, step);
    ChannelKept(s, step);
    FreshKept(s, step);
    if BySender(step) {
      hide MaintainerStep;
      SenderHistoryKept(s, step);
    } else {
      MaintainerHistoryKept(s, step);
    }
  }

  /** The invariant holds after every run, whatever the interleaving. */
  lemma {:induction false} InvAlways(steps: seq<Step>)
    requires Execute(Init(), steps).Some?
    ensures Inv(Execute(Init(), steps).value)
    decreases |steps|
  {
    hide Apply, Inv;
    if steps == [] {
      InitInv();
    } else {
      InvAlways(steps[..|steps| - 1]);
      InvKept(Execute(Init(), steps[..|steps| - 1]).value, steps[|steps| - 1]);
    }
  }

  // What the invariant says

  /**
   At most one job is registered, it belongs to the sender inside the
   transaction, and a waiting sender's job is the registered one: the test
   before deregistering is always true.
   */
  lemma OneJobInFlight(steps: seq<Step>)
    requires Execute(Init(), steps).Some?
    ensures var s := Execute(Init(), steps).value;
      && (s.awaiting.Some? ==> s.awaiting.value < |s.jobs| && s.sendMu == Some(s.jobs[s.awaiting.value].owner))
      && (forall x: Sender, y: Sender | InTransaction(PhaseOf(s, x)) && InTransaction(PhaseOf(s, y)) :: x == y)
      && (forall x: Sender | HasJob(PhaseOf(s, x)) :: s.awaiting == Some(PhaseOf(s, x).job))
  {
    hide Apply, Execute;
    InvAlways(steps);
    var s := Execute(Init(), steps).value;
    OnlyHolderHasJob(s);
    assert forall x: Sender | InTransaction(PhaseOf(s, x)) :: s.sendMu == Some(x);
  }

  /**
   sendAndAwait returns nil only if a successful outcome with the very
   procedure, message identifier and serial number of that request was
   delivered to that call's own job; it reports a rejection only if the peer
   refused that procedure.
   */
  lemma NilIsEarned(steps: seq<Step>, x: Sender)
    requires Execute(Init(), steps).Some?
    ensures var s := Execute(Init(), steps).value;
      var p := PhaseOf(s, x);
      p.Returned? ==>
        && (p.answer == Nil ==>
              && p.finished.Some? && p.finished.value < |s.jobs| && s.jobs[p.finished.value] == Job(x, p.key)
              && p.finished.value in s.accepted && 0 <= s.accepted[p.finished.value] < |s.received|
              && Confirms(s.received[s.accepted[p.finished.value]], p.key))
        && (p.answer == RequestRejected ==> exists pdu | pdu in s.received :: Refuses(pdu, p.key))
  {
    hide Apply, Execute, Confirms, Refuses;
    InvAlways(steps);
    assert AnswerFor(Execute(Init(), steps).value, x);
    assert NilFor(Execute(Init(), steps).value, x);
  }

  /** One response never answers two requests: accepted jobs have response PDUs of their own. */
  lemma OneResponseOneJob(steps: seq<Step>, j: JobId, k: JobId)
    requires Execute(Init(), steps).Some?
    ensures var s := Execute(Init(), steps).value;
      j in s.accepted && k in s.accepted && j != k ==> s.accepted[j] != s.accepted[k]
  {
    hide Apply, Execute, Confirms;
    InvAlways(steps);
    assert HistoryInv(Execute(Init(), steps).value);
  }

  /** Each done channel is closed at most once, and only after its connection was given up. */
  lemma ClosedOnce(steps: seq<Step>, d: Chan)
    requires Execute(Init(), steps).Some?
    ensures var s := Execute(Init(), steps).value;
      && s.closings[d] <= 1
      && (s.maintainer.Closing? ==> s.maintainer.done !in s.closed)
      && (d in s.pairs && d !in s.closed ==> Serving(s.maintainer) && s.maintainer.done == d)
  {
    hide Apply, Execute;
    InvAlways(steps);
  }

  /** A waiting sender holds a pair made by one setConn, and that connection has no other channel. */
  lemma CapturedPair(steps: seq<Step>, x: Sender)
    requires Execute(Init(), steps).Some? && HasPair(PhaseOf(Execute(Init(), steps).value, x))
    ensures var s := Execute(Init(), steps).value;
      var p := PhaseOf(s, x);
      Paired(s, p.conn, p.done) && forall d | d in s.pairs && s.pairs[d] == p.conn :: d == p.done
  {
    hide Apply, Execute;
    InvAlways(steps);
    assert PairInv(Execute(Init(), steps).value);
  }

  /** The read loop has ended and the connection is being wound up. */
  predicate WindingUp(m: Maintainer) {
    m.Failing? || m.FailOffering? || m.Clearing? || m.Closing?
  }

  /** The maintainer's next step while winding up. */
  function NextWindUp(m: Maintainer): Step
    requires WindingUp(m)
  {
    match m
    case Failing(_, _) => LoadFailing
    case FailOffering(_, _, _) => OfferLost
    case Clearing(_, _) => ClearConn
    case Closing(_, _) => CloseDone
  }

  /** Maintainer steps left until the channel is closed. */
  function Remaining(m: Maintainer): nat {
    match m
    case Failing(_, _) => 4
    case FailOffering(_, _, _) => 3
    case Clearing(_, _) => 2
    case Closing(_, _) => 1
    case _ => 0
  }

  /**
   No waiter is stranded: either its channel is closed and it can return, or
   its connection is still being read, or the maintainer is at most four of
   its own steps, none of which can block or be undone by a sender, from
   closing that channel.
   */
  lemma NoWaiterStranded(steps: seq<Step>, x: Sender)
    requires Execute(Init(), steps).Some? && PhaseOf(Execute(Init(), steps).value, x).Waiting?
    ensures var s := Execute(Init(), steps).value;
      var d := PhaseOf(s, x).done;
      && (d in s.closed ==> Apply(s, SeeDone(x)).Some?)
      && (d !in s.closed ==> Serving(s.maintainer) && s.maintainer.done == d && s.maintainer.conn == PhaseOf(s, x).conn)
  {
    hide Execute;
    InvAlways(steps);
    assert PairInv(Execute(Init(), steps).value);
  }

  lemma WindUpProgress(s: State)
    requires WindingUp(s.maintainer)
    ensures var r := Apply(s, NextWindUp(s.maintainer));
      && r.Some?
      && (if Remaining(s.maintainer) == 1 then s.maintainer.done in r.value.closed
          else WindingUp(r.value.maintainer) && r.value.maintainer.done == s.maintainer.done
               && Remaining(r.value.maintainer) < Remaining(s.maintainer))
      && r.value.senders == s.senders
    ensures 1 <= Remaining(s.maintainer) <= 4
  {
    hide SenderStep;
    hide Send, Inv, Judge, IsOutcome;
  }

  lemma WindUpUndisturbed(s: State, step: Step)
    requires WindingUp(s.maintainer) && Apply(s, step).Some?
    ensures step == NextWindUp(s.maintainer) || (BySender(step) && Apply(s, step).value.maintainer == s.maintainer)
  {
    if BySender(step) {
      hide MaintainerStep;
      SenderStepFrame(s, step);
      hide Apply;
    }
  }

  lemma ClosedGrows(s: State, step: Step)
    requires Apply(s, step).Some?
    ensures s.closed <= Apply(s, step).value.closed
  {
    if BySender(step) {
      hide MaintainerStep;
      SenderStepFrame(s, step);
      hide Apply;
    } else {
      hide SenderStep, OfferStep;
      OfferKeepsClosed(s);
    }
  }

  lemma OfferKeepsClosed(s: State)
    ensures OfferStep(s).Some? ==> OfferStep(s).value.closed == s.closed
  {
    hide Judge, Send, Noted;
  }

  function MaintainerSteps(steps: seq<Step>): nat
    decreases |steps|
  {
    if steps == [] then 0
    else MaintainerSteps(steps[..|steps| - 1]) + if BySender(steps[|steps| - 1]) then 0 else 1
  }

  /**
   Once the read loop has ended the channel is closed within four steps of
   the maintainer, whatever the senders do in between: at every moment until
   then the maintainer's next step is possible and each of its steps uses up
   one of the four.
   */
  lemma {:induction false} ClosedWithinFourSteps(s: State, more: seq<Step>, t: State)
    requires WindingUp(s.maintainer) && Execute(s, more) == Some(t)
    ensures
      || s.maintainer.done in t.closed
      || (&& WindingUp(t.maintainer) && t.maintainer.done == s.maintainer.done
          && Remaining(t.maintainer) + MaintainerSteps(more) <= Remaining(s.maintainer)
          && Apply(t, NextWindUp(t.maintainer)).Some?)
    ensures MaintainerSteps(more) >= 4 ==> s.maintainer.done in t.closed
    decreases |more|
  {
    if more == [] {
      WindUpProgress(s);
    } else {
      var step := more[|more| - 1];
      var u := Execute(s, more[..|more| - 1]).value;
      ClosedWithinFourSteps(s, more[..|more| - 1], u);
      ClosedGrows(u, step);
      if s.maintainer.done !in u.closed {
        WindUpProgress(u);
        WindUpUndisturbed(u, step);
        if s.maintainer.done !in t.closed {
          WindUpProgress(t);
        }
      }
      hide Apply, Execute;
    }
  }

  /** A response built for a request confirms that request and no other. */
  lemma ResponseConfirmsOnly(key: Key, cause: int, other: Key)
    requires SuccessResponse(key.procedure, key.ids.messageId, key.ids.serial, cause).Success?
    ensures Confirms(SuccessResponse(key.procedure, key.ids.messageId, key.ids.serial, cause).value, other)
      <==> other == key
  {
    hide SuccessResponse, ReadHeader, ResponseIds;
    ResponseReadBack(key.procedure, key.ids.messageId, key.ids.serial, cause);
  }

  // A refusal can reach the wrong request

  lemma Advance(steps: seq<Step>, s: State, step: Step) returns (more: seq<Step>, t: State)
    requires Execute(Init(), steps) == Some(s) && Apply(s, step).Some?
    ensures more == steps + [step] && t == Apply(s, step).value && Execute(Init(), more) == Some(t)
  {
    hide Apply;
    more, t := steps + [step], Apply(s, step).value;
    assert more[..|more| - 1] == steps;
  }

  /** A sender alone with an idle association: its request is written and awaited. */
  lemma Send1(steps: seq<Step>, s: State, x: Sender, key: Key) returns (more: seq<Step>, t: State)
    requires Execute(Init(), steps) == Some(s)
    requires PhaseOf(s, x).Idle? && s.sendMu.None? && s.conn.Some? && s.done.Some?
    ensures Execute(Init(), more) == Some(t)
    ensures PhaseOf(t, x) == Waiting(|s.jobs|, s.conn.value, s.done.value) && t.jobs == s.jobs + [Job(x, key)]
    ensures t == s.(senders := t.senders, sendMu := Some(x), jobs := t.jobs, awaiting := Some(|s.jobs|))
    ensures forall y: Sender | y != x :: PhaseOf(t, y) == PhaseOf(s, y)
  {
    hide Execute;
    more, t := Advance(steps, s, Call(x, key));
    more, t := Advance(more, t, Lock(x));
    more, t := Advance(more, t, Capture(x));
    more, t := Advance(more, t, Register(x));
    more, t := Advance(more, t, WriteSucceeds(x));
  }

  lemma Finish1(steps: seq<Step>, s: State, x: Sender, job: JobId, answer: Answer) returns (more: seq<Step>, t: State)
    requires Execute(Init(), steps) == Some(s)
    requires PhaseOf(s, x) == Returning(job, answer) && job < |s.jobs| && s.awaiting == Some(job)
    ensures Execute(Init(), more) == Some(t) && steps <= more
    ensures PhaseOf(t, x) == Returned(s.jobs[job].key, Some(job), answer)
    ensures t == s.(senders := t.senders, sendMu := None, awaiting := None)
    ensures forall y: Sender | y != x :: PhaseOf(t, y) == PhaseOf(s, y)
  {
    hide Execute;
    more, t := Advance(steps, s, Deregister(x));
    more, t := Advance(more, t, Unlock(x));
  }

  /** A refusal that names the identifiers it is about. */
  lemma NamedRefusal(key: Key) returns (pdu: seq<octet>)
    requires 0 <= key.procedure <= 255
    ensures DecodePdu(pdu).Success? && CorrelationIds(DecodePdu(pdu).value.ies) == Success(key.ids)
    ensures ReadHeader(pdu) == Success(Header(OUTCOME_UNSUCCESSFUL, key.procedure))
  {
    hide EncodePdu, DecodePdu, CorrelationIds, Identifiers;
    var ies := Identifiers(key.ids.messageId, key.ids.serial);
    assert ies + [] == ies;
    FindIdentifiers(key.ids.messageId, key.ids.serial, []);
    IdentifiersEncodable(key.ids.messageId, key.ids.serial);
    EncodePduAccepts(2, key.procedure, CRIT_REJECT, ies);
    PduReadBack(2, key.procedure, CRIT_REJECT, ies);
    pdu := EncodePdu(2, key.procedure, CRIT_REJECT, ies).value;
  }

  /**
   Because an unsuccessful outcome is matched by procedure only, a late
   refusal naming one request fails another request of the same procedure:
   for any two such requests there is a run in which the second is answered
   with the refusal of the first.
   */
  lemma RefusalReachesWrongRequest(first: Key, second: Key) returns (steps: seq<Step>, pdu: seq<octet>)
    requires first.procedure == second.procedure && 0 <= first.procedure <= 255
    ensures Execute(Init(), steps).Some?
    ensures var s := Execute(Init(), steps).value;
      && s.received == [pdu] && DecodePdu(pdu).Success?
      && CorrelationIds(DecodePdu(pdu).value.ies) == Success(first.ids)
      && ReadHeader(pdu) == Success(Header(OUTCOME_UNSUCCESSFUL, first.procedure))
      && PhaseOf(s, 0) == Returned(first, Some(0), TimedOut)
      && PhaseOf(s, 1) == Returned(second, Some(1), RequestRejected)
  {
    hide Execute, Apply, DecodePdu, CorrelationIds, ReadHeader, ResponseIds;
    pdu := NamedRefusal(first);
    var s: State;
    steps, s := Connect();
    steps, s := TimedOutRequest(steps, s, first);
    steps, s := RefusedRequest(steps, s, second, pdu);
  }

  /** In some run, with a single PDU received, a refusal naming `first` is what `second` is answered with. */
  ghost predicate Misdelivered(first: Key, second: Key) {
    exists steps, pdu, x :: MisdeliveredBy(first, second, steps, pdu, x)
  }

  ghost predicate MisdeliveredBy(first: Key, second: Key, steps: seq<Step>, pdu: seq<octet>, x: Sender) {
    && Execute(Init(), steps).Some?
    && var s := Execute(Init(), steps).value;
       && s.received == [pdu]
       && ReadHeader(pdu) == Success(Header(OUTCOME_UNSUCCESSFUL, first.procedure))
       && DecodePdu(pdu).Success? && CorrelationIds(DecodePdu(pdu).value.ies) == Success(first.ids)
       && PhaseOf(s, x).Returned? && PhaseOf(s, x).key == second && PhaseOf(s, x).answer == RequestRejected
  }

  /** A refusal naming one request can be returned to another exactly when both are of the same procedure. */
  lemma MisdeliveredIffSameProcedure(first: Key, second: Key)
    requires 0 <= first.procedure <= 255
    ensures Misdelivered(first, second) <==> first.procedure == second.procedure
  {
    hide Execute, Apply, DecodePdu, CorrelationIds, ReadHeader, ResponseIds;
    if first.procedure == second.procedure {
      var steps, pdu := RefusalReachesWrongRequest(first, second);
      assert MisdeliveredBy(first, second, steps, pdu, 1);
    }
    if Misdelivered(first, second) {
      var steps, pdu, x :| MisdeliveredBy(first, second, steps, pdu, x);
      NilIsEarned(steps, x);
    }
  }

  lemma Connect() returns (steps: seq<Step>, s: State)
    ensures Execute(Init(), steps) == Some(s)
    ensures s == Init().(
      conn := Some(0), done := Some(0), maintainer := Reading(0, 0), pairs := map[0 := 0], nextConn := 1)
  {
    NoSteps();
    hide Execute;
    steps, s := Advance([], Init(), DialSucceeds);
    steps, s := Advance(steps, s, SetConn(0));
  }

  lemma TimedOutRequest(steps: seq<Step>, s: State, key: Key) returns (more: seq<Step>, t: State)
    requires Execute(Init(), steps) == Some(s)
    requires s.senders == map[] && s.sendMu.None? && s.conn.Some? && s.done.Some?
    ensures Execute(Init(), more) == Some(t)
    ensures PhaseOf(t, 0) == Returned(key, Some(|s.jobs|), TimedOut) && PhaseOf(t, 1) == Idle
    ensures t == s.(senders := t.senders, jobs := s.jobs + [Job(0, key)], awaiting := None)
  {
    hide Execute;
    more, t := Send1(steps, s, 0, key);
    assert PhaseOf(t, 1) == PhaseOf(s, 1) == Idle;
    var p := PhaseOf(t, 0);
    more, t := Advance(more, t, TimeOut(0));
    assert PhaseOf(t, 1) == Idle && PhaseOf(t, 0) == Returning(p.job, TimedOut);
    hide Apply;
    more, t := Finish1(more, t, 0, p.job, TimedOut);
  }

  lemma RefusedRequest(steps: seq<Step>, s: State, key: Key, pdu: seq<octet>) returns (more: seq<Step>, t: State)
    requires Execute(Init(), steps) == Some(s) && Refuses(pdu, key)
    requires PhaseOf(s, 1) == Idle && s.sendMu.None? && s.conn.Some? && s.done.Some?
    requires s.maintainer.Reading? && s.results == map[]
    ensures Execute(Init(), more) == Some(t)
    ensures PhaseOf(t, 1) == Returned(key, Some(|s.jobs|), RequestRejected) && PhaseOf(t, 0) == PhaseOf(s, 0)
    ensures t.received == s.received + [pdu]
  {
    hide Execute, ReadHeader, ResponseIds;
    more, t := Send1(steps, s, 1, key);
    var j := |s.jobs|;
    more, t := DeliverRefusal(more, t, j, pdu);
    more, t := Advance(more, t, TakeResult(1));
    assert PhaseOf(t, 0) == PhaseOf(s, 0) && PhaseOf(t, 1) == Returning(j, RequestRejected);
    hide Apply;
    more, t := Finish1(more, t, 1, j, RequestRejected);
  }

  lemma RefusalJudged(pdu: seq<octet>, key: Key)
    requires Refuses(pdu, key)
    ensures IsOutcome(pdu) && Judge(pdu, key) == Some(Rejected(pdu))
  {
    hide ReadHeader, Judge, Confirms;
    VerdictExactly(pdu, key);
  }

  lemma DeliverRefusal(steps: seq<Step>, s: State, j: JobId, pdu: seq<octet>) returns (more: seq<Step>, t: State)
    requires Execute(Init(), steps) == Some(s)
    requires s.maintainer.Reading? && s.awaiting == Some(j) && j < |s.jobs| && s.results == map[]
    requires Refuses(pdu, s.jobs[j].key)
    ensures Execute(Init(), more) == Some(t)
    ensures t == s.(received := s.received + [pdu], results := map[j := Rejected(pdu)])
  {
    hide Execute, Judge, IsOutcome, Refuses, Confirms;
    RefusalJudged(pdu, s.jobs[j].key);
    more, t := Advance(steps, s, Receive(pdu));
    more, t := Advance(more, t, Load);
    more, t := Advance(more, t, Offer);
  }

  lemma NoSteps()
    ensures Execute(Init(), []) == Some(Init())
  {
  }
}
