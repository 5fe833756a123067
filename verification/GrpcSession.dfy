/**
  The request/response demultiplexer of a gRPC session: many senders and one
  read loop share a map from request ids to response channels.
 */
module GrpcSession {
  import opened Basics

  type RequestID = nat
  type ChannelID = nat

  datatype Response = Response(requestID: RequestID, hasMore: bool, payload: int)

  datatype Message = FromServer(response: Response) | StreamBroken

  /** What was put into a channel so far. */
  datatype Channel = Channel(sent: seq<Message>, closed: bool)

  type ActiveRequests = map<RequestID, ChannelID>

  function Lookup(active: ActiveRequests, id: RequestID): Option<ChannelID> {
    if id in active then Some(active[id]) else None
  }

  // ---------- the state machine ----------

  /**
    A call of sendRequest: registered; sent; the send failed; it took its
    channel back; it sent STREAM_BROKEN; done.
   */
  datatype Sender = Registered | Sent | Failed | Took(found: Option<ChannelID>) | Breaking(ch: ChannelID) | Finished

  /** The read loop. It is stuck when it sends to a nil channel. From Cleaning to Stopped it holds the mutex. */
  datatype Reader =
    | Idle
    | Forward(msg: Response, to: Option<ChannelID>)
    | CloseAfter(ch: ChannelID)
    | Stuck
    | Cleaning
    | CleanSend(ch: ChannelID)
    | CleanClose(ch: ChannelID)
    | Stopped

  datatype State = State(
    nextRequestID: RequestID,
    active: ActiveRequests,
    channels: seq<Channel>,
    senders: seq<Sender>,        // by request id
    reader: Reader,
    received: seq<Response>,     // everything the stream delivered
    panicked: bool)              // a closed channel was sent to or closed

  const INIT := State(0, map[], [], [], Idle, [], false)

  datatype Step =
    | Register
    | SendOk(r: RequestID)
    | SendFail(r: RequestID)
    | TakeBack(r: RequestID)
    | SendBroken(r: RequestID)
    | CloseBroken(r: RequestID)
    | Recv(msg: Response)
    | ForwardMsg
    | CloseDone
    | RecvError
    | CleanTake(id: RequestID)
    | CleanSendMsg
    | CleanCloseChannel
    | CleanEnd

  predicate HoldsMutex(r: Reader) {
    r.Cleaning? || r.CleanSend? || r.CleanClose?
  }

  /** `ch <- m` */
  function SendTo(st: State, ch: ChannelID, m: Message): State
    requires ch < |st.channels|
  {
    if st.channels[ch].closed then st.(panicked := true)
    else st.(channels := st.channels[ch := Channel(st.channels[ch].sent + [m], false)])
  }

  /** `close(ch)` */
  function CloseOf(st: State, ch: ChannelID): State
    requires ch < |st.channels|
  {
    if st.channels[ch].closed then st.(panicked := true)
    else st.(channels := st.channels[ch := Channel(st.channels[ch].sent, true)])
  }

  /** The step can be taken now. Any message may arrive. */
  predicate Enabled(st: State, step: Step) {
    match step
    case Register => !HoldsMutex(st.reader)
    case SendOk(r) => r < |st.senders| && st.senders[r] == Registered
    case SendFail(r) => r < |st.senders| && st.senders[r] == Registered
    case TakeBack(r) => r < |st.senders| && st.senders[r] == Failed && !HoldsMutex(st.reader)
    case SendBroken(r) =>
      && r < |st.senders| && st.senders[r].Took?
      && (st.senders[r].found.Some? ==> st.senders[r].found.value < |st.channels|)
    case CloseBroken(r) => r < |st.senders| && st.senders[r].Breaking? && st.senders[r].ch < |st.channels|
    case Recv(msg) => st.reader == Idle
    case ForwardMsg => st.reader.Forward? && (st.reader.to.Some? ==> st.reader.to.value < |st.channels|)
    case CloseDone => st.reader.CloseAfter? && st.reader.ch < |st.channels|
    case RecvError => st.reader == Idle
    case CleanTake(id) => st.reader == Cleaning && id in st.active
    case CleanSendMsg => st.reader.CleanSend? && st.reader.ch < |st.channels|
    case CleanCloseChannel => st.reader.CleanClose? && st.reader.ch < |st.channels|
    case CleanEnd => st.reader == Cleaning && st.active == map[]
  }

  function Apply(st: State, step: Step): State
    requires Enabled(st, step)
  {
    match step
    case Register =>
      var rid, ch := st.nextRequestID, |st.channels|;
      st.(nextRequestID := rid + 1, active := st.active[rid := ch],
          channels := st.channels + [Channel([], false)], senders := st.senders + [Registered])
    case SendOk(r) => st.(senders := st.senders[r := Sent])
    case SendFail(r) => st.(senders := st.senders[r := Failed])
    case TakeBack(r) => st.(senders := st.senders[r := Took(Lookup(st.active, r))], active := st.active - {r})
    case SendBroken(r) =>
      var took := st.senders[r].found;
      if took.None? then st.(senders := st.senders[r := Finished])
      else SendTo(st.(senders := st.senders[r := Breaking(took.value)]), took.value, StreamBroken)
    case CloseBroken(r) => CloseOf(st.(senders := st.senders[r := Finished]), st.senders[r].ch)
    case Recv(msg) =>
      st.(reader := Forward(msg, Lookup(st.active, msg.requestID)), received := st.received + [msg],
          active := if msg.hasMore then st.active else st.active - {msg.requestID})
    case ForwardMsg =>
      var Forward(msg, ch) := st.reader;
      if ch.None? then st.(reader := Stuck)
      else SendTo(st.(reader := if msg.hasMore then Idle else CloseAfter(ch.value)), ch.value, FromServer(msg))
    case CloseDone => CloseOf(st.(reader := Idle), st.reader.ch)
    case RecvError => st.(reader := Cleaning)
    case CleanTake(id) => st.(reader := CleanSend(st.active[id]), active := st.active - {id})
    case CleanSendMsg => SendTo(st.(reader := CleanClose(st.reader.ch)), st.reader.ch, StreamBroken)
    case CleanCloseChannel => CloseOf(st.(reader := Cleaning), st.reader.ch)
    case CleanEnd => st.(reader := Stopped)
  }

  // ---------- what may arrive ----------

  predicate HasFinal(log: seq<Response>, r: RequestID) {
    log != [] && (HasFinal(log[..|log| - 1], r) || (log[|log| - 1].requestID == r && !log[|log| - 1].hasMore))
  }

  predicate HasPart(log: seq<Response>, r: RequestID) {
    log != [] && (HasPart(log[..|log| - 1], r) || (log[|log| - 1].requestID == r && log[|log| - 1].hasMore))
  }

  /** The message is for an active request and, unless it is the final answer, for one that was sent. */
  predicate Harmless(st: State, msg: Response) {
    && msg.requestID in st.active && msg.requestID < |st.senders|
    && (msg.hasMore ==> st.senders[msg.requestID] == Sent)
  }

  /** Messages that arrive are harmless. */
  predicate Tame(st: State, step: Step) {
    step.Recv? ==> Harmless(st, step.msg)
  }

  /** What the server promises: it answers only requests that were sent, and nothing after a final answer. */
  predicate ServerObeys(st: State, step: Step) {
    step.Recv? ==>
      var r := step.msg.requestID;
      r < |st.senders| && st.senders[r] == Sent && !HasFinal(st.received, r)
  }

  /** The responses for request r, in arrival order. */
  function Responses(log: seq<Response>, r: RequestID): seq<Message> {
    if log == [] then [] else
    var front, last := Responses(log[..|log| - 1], r), log[|log| - 1];
    if last.requestID == r then front + [FromServer(last)] else front
  }

  /** The responses the read loop has passed on. */
  function Forwarded(st: State): seq<Response> {
    if st.reader.Forward? && st.received != [] then st.received[..|st.received| - 1] else st.received
  }

  // ---------- invariant ----------

  /** The read loop alone may close channel r. */
  predicate ReaderOwns(rd: Reader, r: ChannelID) {
    match rd
    case Forward(msg, ch) => ch == Some(r) && !msg.hasMore
    case CloseAfter(ch) => ch == r
    case CleanSend(ch) => ch == r
    case CleanClose(ch) => ch == r
    case _ => false
  }

  /** The sender alone may close its channel. */
  predicate SenderOwns(s: Sender) {
    (s.Took? && s.found.Some?) || s.Breaking?
  }

  /** Exactly one party can still use channel r, or it is closed. */
  ghost predicate OneOwner(st: State, r: nat)
    requires r < |st.channels| && r < |st.senders|
  {
    var act, rd, sd, cl := r in st.active, ReaderOwns(st.reader, r), SenderOwns(st.senders[r]), st.channels[r].closed;
    && (act || rd || sd || cl)
    && (act ==> !rd && !sd && !cl) && (rd ==> !sd && !cl) && (sd ==> !cl)
  }

  /** Nobody has broken channel r off yet. */
  predicate Unbroken(st: State, r: nat)
    requires r < |st.senders|
  {
    || r in st.active
    || (ReaderOwns(st.reader, r) && !st.reader.CleanClose?)
    || (SenderOwns(st.senders[r]) && !st.senders[r].Breaking?)
  }

  /** Channel r carries its own responses in arrival order, optionally followed by one STREAM_BROKEN. */
  ghost predicate LogOk(st: State, r: nat)
    requires r < |st.channels| && r < |st.senders|
  {
    var log, own := st.channels[r].sent, Responses(Forwarded(st), r);
    if st.channels[r].closed then log == own + [StreamBroken] || (log == own && HasFinal(Forwarded(st), r))
    else if Unbroken(st, r) then log == own
    else log == own + [StreamBroken]
  }

  predicate Waiting(s: Sender) {
    s.Registered? || s.Sent? || s.Failed?
  }

  predicate Reading(rd: Reader) {
    rd.Idle? || rd.Forward? || rd.CloseAfter?
  }

  ghost predicate InvAt(st: State, r: nat)
    requires r < |st.channels| && r < |st.senders|
  {
    && OneOwner(st, r)
    && LogOk(st, r)
    && (st.senders[r] != Sent ==> !HasPart(st.received, r))
    && (st.senders[r].Took? && st.senders[r].found.Some? ==> st.senders[r].found.value == r)
    && (st.senders[r].Breaking? ==> st.senders[r].ch == r)
    && (r in st.active ==> Waiting(st.senders[r]) && !HasFinal(st.received, r))
    && (Reading(st.reader) && Waiting(st.senders[r]) && !HasFinal(st.received, r) ==> r in st.active)
  }

  ghost predicate ReaderOk(st: State) {
    match st.reader
    case Forward(msg, ch) =>
      && msg.requestID < |st.senders| && ch == Some(msg.requestID)
      && st.received != [] && st.received[|st.received| - 1] == msg
      && (msg.hasMore ==> msg.requestID in st.active && st.senders[msg.requestID] == Sent)
    case CloseAfter(ch) => ch < |st.channels| && HasFinal(st.received, ch)
    case Stuck => false
    case CleanSend(ch) => ch < |st.channels|
    case CleanClose(ch) => ch < |st.channels|
    case Cleaning => true
    case Stopped => true
    case Idle => true
  }

  ghost predicate Inv(st: State) {
    && st.nextRequestID == |st.channels| == |st.senders|
    && (forall id :: id in st.active ==> id < |st.channels| && st.active[id] == id)
    && !st.panicked
    && ReaderOk(st)
    && forall r :: 0 <= r < |st.channels| ==> InvAt(st, r)
  }

  lemma SenderStepKeepsAt(st: State, step: Step, r: nat)
    requires Inv(st) && Enabled(st, step) && r < |st.channels|
    requires step.Register? || step.SendOk? || step.SendFail? || step.TakeBack?
    ensures var st' := Apply(st, step); r < |st'.channels| && r < |st'.senders| && InvAt(st', r)
  {
    assert InvAt(st, r);
    if step.SendOk? || step.SendFail? || step.TakeBack? {
      assert InvAt(st, step.r);
    }
  }

  lemma BreakStepKeepsAt(st: State, step: Step, r: nat)
    requires Inv(st) && Enabled(st, step) && r < |st.channels|
    requires step.SendBroken? || step.CloseBroken?
    ensures var st' := Apply(st, step); r < |st'.channels| && r < |st'.senders| && InvAt(st', r)
  {
    assert InvAt(st, r);
    assert InvAt(st, step.r);
  }

  lemma LogGrows(log: seq<Response>, msg: Response, log': seq<Response>, r: RequestID)
    requires log' == log + [msg]
    ensures log'[..|log|] == log
    ensures HasPart(log', r) <==> HasPart(log, r) || (msg.requestID == r && msg.hasMore)
    ensures HasFinal(log', r) <==> HasFinal(log, r) || (msg.requestID == r && !msg.hasMore)
  {
    assert log'[..|log|] == log;
  }

  lemma RecvKeepsAt(st: State, step: Step, r: nat)
    requires Inv(st) && Enabled(st, step) && Tame(st, step) && r < |st.channels| && step.Recv?
    ensures var st' := Apply(st, step); r < |st'.channels| && r < |st'.senders| && InvAt(st', r)
  {
    var st' := Apply(st, step);
    LogGrows(st.received, step.msg, st'.received, r);
    assert InvAt(st, r) && InvAt(st, step.msg.requestID);
    assert Forwarded(st') == st.received == Forwarded(st);
    RecvKeepsLog(st, step.msg, r, st');
  }

  lemma RecvKeepsLog(st: State, msg: Response, r: nat, st': State)
    requires r < |st.channels| == |st.senders| && LogOk(st, r) && OneOwner(st, r) && st.reader == Idle
    requires Forwarded(st') == Forwarded(st) && st'.channels == st.channels && st'.senders == st.senders
    requires st'.reader == Forward(msg, Some(msg.requestID))
    requires st'.active == if msg.hasMore then st.active else st.active - {msg.requestID}
    requires msg.requestID in st.active
    ensures LogOk(st', r) && OneOwner(st', r)
  {
  }

  lemma ForwardKeepsAt(st: State, step: Step, r: nat)
    requires Inv(st) && Enabled(st, step) && r < |st.channels| && (step.ForwardMsg? || step.CloseDone?)
    ensures var st' := Apply(st, step); r < |st'.channels| && r < |st'.senders| && InvAt(st', r)
  {
    assert InvAt(st, r);
    assert step.ForwardMsg? ==> InvAt(st, st.reader.msg.requestID);
    assert step.CloseDone? ==> InvAt(st, st.reader.ch);
  }

  lemma CleanKeepsAt(st: State, step: Step, r: nat)
    requires Inv(st) && Enabled(st, step) && r < |st.channels|
    requires step.RecvError? || step.CleanTake? || step.CleanSendMsg? || step.CleanCloseChannel? || step.CleanEnd?
    ensures var st' := Apply(st, step); r < |st'.channels| && r < |st'.senders| && InvAt(st', r)
  {
    assert InvAt(st, r);
    assert step.CleanSendMsg? || step.CleanCloseChannel? ==> InvAt(st, st.reader.ch);
  }

  lemma StepKeepsAt(st: State, step: Step, r: nat)
    requires Inv(st) && Enabled(st, step) && Tame(st, step) && r < |st.channels|
    ensures var st' := Apply(st, step); r < |st'.channels| && r < |st'.senders| && InvAt(st', r)
  {
    if step.Register? || step.SendOk? || step.SendFail? || step.TakeBack? {
      SenderStepKeepsAt(st, step, r);
    } else if step.SendBroken? || step.CloseBroken? {
      BreakStepKeepsAt(st, step, r);
    } else if step.Recv? {
      RecvKeepsAt(st, step, r);
    } else if step.ForwardMsg? || step.CloseDone? {
      ForwardKeepsAt(st, step, r);
    } else {
      CleanKeepsAt(st, step, r);
    }
  }

  /** No response for a request that does not exist yet. */
  lemma {:induction false} NothingReceivedYet(log: seq<Response>, r: RequestID)
    requires forall i :: 0 <= i < |log| ==> log[i].requestID < r
    ensures !HasPart(log, r) && !HasFinal(log, r) && Responses(log, r) == []
  {
    if log != [] {
      NothingReceivedYet(log[..|log| - 1], r);
    }
  }

  lemma NewChannelOk(st: State)
    requires Inv(st) && Enabled(st, Register) && KnownIDs(st)
    ensures InvAt(Apply(st, Register), |st.channels|)
  {
    NothingReceivedYet(st.received, |st.channels|);
    NothingReceivedYet(Forwarded(st), |st.channels|);
  }

  /** All responses received are for requests made. */
  ghost predicate KnownIDs(st: State) {
    forall i :: 0 <= i < |st.received| ==> st.received[i].requestID < |st.senders|
  }

  ghost predicate Sound(st: State) {
    Inv(st) && KnownIDs(st)
  }

  lemma StepKeepsShape(st: State, step: Step)
    requires Inv(st) && Enabled(st, step) && Tame(st, step)
    ensures var st' := Apply(st, step);
            && st'.nextRequestID == |st'.channels| == |st'.senders|
            && (forall id :: id in st'.active ==> id < |st'.channels| && st'.active[id] == id)
            && !st'.panicked
  {
    if step.SendBroken? || step.CloseBroken? {
      assert InvAt(st, step.r);
    } else if step.ForwardMsg? {
      assert InvAt(st, st.reader.msg.requestID);
    } else if step.CloseDone? || step.CleanSendMsg? || step.CleanCloseChannel? {
      assert InvAt(st, st.reader.ch);
    }
  }

  predicate IsSenderStep(step: Step) {
    step.Register? || step.SendOk? || step.SendFail? || step.TakeBack? || step.SendBroken? || step.CloseBroken?
  }

  lemma SenderStepKeepsReader(st: State, step: Step)
    requires Inv(st) && Enabled(st, step) && IsSenderStep(step)
    ensures ReaderOk(Apply(st, step))
  {
    if step.TakeBack? {
      assert InvAt(st, step.r);
    }
  }

  lemma ReaderStepKeepsReader(st: State, step: Step)
    requires Inv(st) && Enabled(st, step) && Tame(st, step) && !IsSenderStep(step)
    ensures ReaderOk(Apply(st, step))
  {
    if step.Recv? {
      assert InvAt(st, step.msg.requestID);
    }
  }

  /** Every step of every sender and of the read loop keeps the invariant, if what arrives is harmless. */
  lemma StepKeepsInv(st: State, step: Step)
    requires Sound(st) && Enabled(st, step) && Tame(st, step)
    ensures Sound(Apply(st, step))
  {
    var st' := Apply(st, step);
    StepKeepsShape(st, step);
    if IsSenderStep(step) {
      SenderStepKeepsReader(st, step);
    } else {
      ReaderStepKeepsReader(st, step);
    }
    forall r | 0 <= r < |st'.channels|
      ensures InvAt(st', r)
    {
      if r < |st.channels| {
        StepKeepsAt(st, step, r);
      } else {
        NewChannelOk(st);
      }
    }
  }

  // ---------- runs ----------

  /** `states` is a run: each state follows from the one before by an enabled step. */
  ghost predicate IsRun(states: seq<State>, steps: seq<Step>) {
    && |states| == |steps| + 1 && states[0] == INIT
    && forall i :: 0 <= i < |steps| ==> Enabled(states[i], steps[i]) && states[i + 1] == Apply(states[i], steps[i])
  }

  /** Only harmless messages arrive during the run. */
  ghost predicate AllTame(states: seq<State>, steps: seq<Step>)
    requires |states| == |steps| + 1
  {
    forall i :: 0 <= i < |steps| ==> Tame(states[i], steps[i])
  }

  lemma {:induction false} RunsKeepInv(states: seq<State>, steps: seq<Step>, i: nat)
    requires IsRun(states, steps) && AllTame(states, steps) && i < |states|
    ensures Sound(states[i])
  {
    if i > 0 {
      RunsKeepInv(states, steps, i - 1);
      StepKeepsInv(states[i - 1], steps[i - 1]);
    }
  }

  /**
    In every run nothing is sent to a closed channel, no channel is closed
    twice, and the read loop never gets stuck.
   */
  lemma NoPanic(states: seq<State>, steps: seq<Step>, i: nat)
    requires IsRun(states, steps) && AllTame(states, steps) && i < |states|
    ensures !states[i].panicked && !states[i].reader.Stuck?
  {
    RunsKeepInv(states, steps, i);
  }

  /** In every run each request has an id and a channel of its own. */
  lemma RequestIDsAreUnique(states: seq<State>, steps: seq<Step>, i: nat)
    requires IsRun(states, steps) && AllTame(states, steps) && i < |states|
    ensures states[i].nextRequestID == |states[i].channels| && states[i].nextRequestID !in states[i].active
    ensures forall p, q :: p in states[i].active && q in states[i].active && p != q ==>
              states[i].active[p] != states[i].active[q]
  {
    RunsKeepInv(states, steps, i);
  }

  /**
    In every run the channel of a request carries exactly its responses in
    order, optionally followed by one STREAM_BROKEN.
   */
  lemma ChannelsCarryTheirOwn(states: seq<State>, steps: seq<Step>, i: nat, r: RequestID)
    requires IsRun(states, steps) && AllTame(states, steps) && i < |states| && r < states[i].nextRequestID
    ensures r < |states[i].channels| && (r in states[i].active ==> states[i].active[r] == r)
    ensures var log, own := states[i].channels[r].sent, Responses(Forwarded(states[i]), r);
            && (log == own || log == own + [StreamBroken])
            && (states[i].channels[r].closed ==>
                  || log == own + [StreamBroken]
                  || exists k ::
                    && 0 <= k < |Forwarded(states[i])|
                    && Forwarded(states[i])[k].requestID == r && !Forwarded(states[i])[k].hasMore)
  {
    RunsKeepInv(states, steps, i);
    assert InvAt(states[i], r);
    AnswersExactly(Forwarded(states[i]), r);
  }

  lemma {:induction false} AnswersExactly(log: seq<Response>, r: RequestID)
    ensures HasFinal(log, r) <==> exists k :: 0 <= k < |log| && log[k].requestID == r && !log[k].hasMore
    ensures HasPart(log, r) <==> exists k :: 0 <= k < |log| && log[k].requestID == r && log[k].hasMore
  {
    if log != [] {
      var n := |log| - 1;
      AnswersExactly(log[..n], r);
      assert forall k :: 0 <= k < n ==> log[..n][k] == log[k];
    }
  }

  /** The responses for a request are its messages, each once, in the order of arrival. */
  lemma {:induction false} ResponsesInOrder(log: seq<Response>, r: RequestID, k: nat)
    requires k < |log|
    ensures Responses([], r) == []
    ensures var own := if log[k].requestID == r then [FromServer(log[k])] else [];
            Responses(log, r) == Responses(log[..k], r) + own + Responses(log[k + 1..], r)
  {
    var n := |log| - 1;
    if k < n {
      ResponsesInOrder(log[..n], r, k);
      assert log[..n][..k] == log[..k] && log[..n][k + 1..] == log[k + 1..][..n - k - 1];
    } else {
      assert log[k + 1..] == [];
    }
  }

  // ---------- the cleanup ----------

  /** What holds from a receive error on, when n requests had been made: the map is cleared before the loop stops. */
  ghost predicate CleaningUp(st: State, n: nat) {
    && (HoldsMutex(st.reader) || st.reader.Stopped?)
    && n <= |st.channels| && (HoldsMutex(st.reader) ==> n == |st.channels|)
    && (st.reader.Stopped? ==> forall r :: r in st.active ==> n <= r)
  }

  lemma CleaningUpGoesOn(st: State, step: Step, n: nat)
    requires Sound(st) && Enabled(st, step) && CleaningUp(st, n)
    ensures CleaningUp(Apply(st, step), n)
  {
  }

  lemma {:induction false} CleaningUpSince(states: seq<State>, steps: seq<Step>, i: nat, j: nat)
    requires IsRun(states, steps) && AllTame(states, steps) && i < j < |states| && steps[i] == RecvError
    ensures CleaningUp(states[j], |states[i].channels|)
  {
    RunsKeepInv(states, steps, j - 1);
    if j > i + 1 {
      CleaningUpSince(states, steps, i, j - 1);
      CleaningUpGoesOn(states[j - 1], steps[j - 1], |states[i].channels|);
    }
  }

  /**
    When the read loop has stopped after a receive error, every request made
    before the error is off the map, and its channel is closed or about to be
    closed by its sender.
   */
  lemma CleanupReachesAll(states: seq<State>, steps: seq<Step>, i: nat, j: nat, r: RequestID)
    requires IsRun(states, steps) && AllTame(states, steps) && i < j < |states| && steps[i] == RecvError
    requires states[j].reader.Stopped? && r < |states[i].channels|
    ensures r < |states[j].channels| && r < |states[j].senders| && r !in states[j].active
    ensures states[j].channels[r].closed || SenderOwns(states[j].senders[r])
  {
    CleaningUpSince(states, steps, i, j);
    RunsKeepInv(states, steps, j);
    assert InvAt(states[j], r);
  }

  /** How many steps the cleanup still takes. */
  ghost function CleanWork(st: State): nat {
    match st.reader
    case Cleaning => 3 * |st.active| + 1
    case CleanSend(_) => 3 * |st.active| + 3
    case CleanClose(_) => 3 * |st.active| + 2
    case _ => 0
  }

  predicate IsCleanStep(step: Step) {
    step.CleanTake? || step.CleanSendMsg? || step.CleanCloseChannel? || step.CleanEnd?
  }

  ghost function CleanSteps(steps: seq<Step>, i: nat, j: nat): nat
    requires i <= j <= |steps|
  {
    if i == j then 0 else CleanSteps(steps, i, j - 1) + if IsCleanStep(steps[j - 1]) then 1 else 0
  }

  lemma CleanWorkFalls(st: State, step: Step)
    requires Enabled(st, step) && (HoldsMutex(st.reader) || st.reader.Stopped?)
    ensures CleanWork(Apply(st, step)) == CleanWork(st) - if IsCleanStep(step) then 1 else 0
  {
    if IsCleanStep(step) {
      CleanStepWorks(st, step);
    } else {
      OtherStepsWait(st, step);
    }
  }

  lemma CleanStepWorks(st: State, step: Step)
    requires Enabled(st, step) && IsCleanStep(step)
    ensures CleanWork(Apply(st, step)) == CleanWork(st) - 1
  {
    if step.CleanTake? {
      OneRequestLess(st.active, step.id);
    }
  }

  lemma OtherStepsWait(st: State, step: Step)
    requires Enabled(st, step) && !IsCleanStep(step) && (HoldsMutex(st.reader) || st.reader.Stopped?)
    ensures Apply(st, step).reader == st.reader && (HoldsMutex(st.reader) ==> Apply(st, step).active == st.active)
  {
  }

  lemma OneRequestLess(active: ActiveRequests, id: RequestID)
    requires id in active
    ensures |active - {id}| == |active| - 1
  {
    assert active == (active - {id})[id := active[id]];
  }

  /** Nobody else can hold the cleanup up: one of its steps can always be taken. */
  lemma CleanupNeverBlocks(st: State) returns (step: Step)
    requires Sound(st) && HoldsMutex(st.reader)
    ensures IsCleanStep(step) && Enabled(st, step)
  {
    if st.reader.CleanSend? {
      step := CleanSendMsg;
    } else if st.reader.CleanClose? {
      step := CleanCloseChannel;
    } else if st.active == map[] {
      step := CleanEnd;
    } else {
      var id :| id in st.active;
      step := CleanTake(id);
    }
  }

  lemma CleanupStarts(states: seq<State>, steps: seq<Step>, i: nat)
    requires IsRun(states, steps) && i < |steps| && steps[i] == RecvError
    ensures CleanWork(states[i + 1]) == 3 * |states[i].active| + 1
  {
    assert Enabled(states[i], steps[i]) && states[i + 1] == Apply(states[i], steps[i]);
  }

  /** The cleanup steps taken since step i and those to come. */
  ghost function CleanTotal(states: seq<State>, steps: seq<Step>, i: nat, j: nat): nat
    requires |states| == |steps| + 1 && i < j < |states|
  {
    CleanSteps(steps, i + 1, j) + CleanWork(states[j])
  }

  lemma CleanTotalStays(states: seq<State>, steps: seq<Step>, i: nat, j: nat)
    requires IsRun(states, steps) && AllTame(states, steps) && i + 1 < j < |states| && steps[i] == RecvError
    ensures CleanTotal(states, steps, i, j) == CleanTotal(states, steps, i, j - 1)
  {
    RunsKeepInv(states, steps, j - 1);
    CleaningUpSince(states, steps, i, j - 1);
    CleanWorkFalls(states[j - 1], steps[j - 1]);
  }

  lemma {:induction false} CleanTotalIs(states: seq<State>, steps: seq<Step>, i: nat, j: nat)
    requires |states| == |steps| + 1 && i < j < |states|
    requires forall k :: i + 1 < k <= j ==> CleanTotal(states, steps, i, k) == CleanTotal(states, steps, i, k - 1)
    ensures CleanTotal(states, steps, i, j) == CleanWork(states[i + 1])
  {
    if j > i + 1 {
      CleanTotalIs(states, steps, i, j - 1);
    }
  }

  /**
    After a receive error the read loop stops after exactly three steps for each
    request on the map and one more, whatever senders do in between.
   */
  lemma CleanupEndsExactly(states: seq<State>, steps: seq<Step>, i: nat, j: nat)
    requires IsRun(states, steps) && AllTame(states, steps) && i < j < |states| && steps[i] == RecvError
    ensures CleanSteps(steps, i + 1, j) <= 3 * |states[i].active| + 1
    ensures states[j].reader.Stopped? <==> CleanSteps(steps, i + 1, j) == 3 * |states[i].active| + 1
  {
    forall k | i + 1 < k <= j
      ensures CleanTotal(states, steps, i, k) == CleanTotal(states, steps, i, k - 1)
    {
      CleanTotalStays(states, steps, i, k);
    }
    CleanTotalIs(states, steps, i, j);
    CleanupStarts(states, steps, i);
    CleaningUpSince(states, steps, i, j);
  }

  /** A sender or the read loop can take its next step, unless it waits for the mutex, a message, or is done. */
  lemma NoDeadlock(states: seq<State>, steps: seq<Step>, i: nat, r: RequestID, msg: Response)
    requires IsRun(states, steps) && AllTame(states, steps) && i < |states|
    ensures var st := states[i];
            var free := !(st.reader.Cleaning? || st.reader.CleanSend? || st.reader.CleanClose?);
            && (free ==> Enabled(st, Register))
            && (st.reader.Idle? ==> Enabled(st, Recv(msg)) && Enabled(st, RecvError))
            && (st.reader.Forward? ==> Enabled(st, ForwardMsg))
            && (st.reader.CloseAfter? ==> Enabled(st, CloseDone))
            && (r < |st.senders| ==>
                  && (st.senders[r].Registered? ==> Enabled(st, SendOk(r)) && Enabled(st, SendFail(r)))
                  && (st.senders[r].Failed? && free ==> Enabled(st, TakeBack(r)))
                  && (st.senders[r].Took? ==> Enabled(st, SendBroken(r)))
                  && (st.senders[r].Breaking? ==> Enabled(st, CloseBroken(r))))
  {
    RunsKeepInv(states, steps, i);
    if r < |states[i].senders| {
      assert InvAt(states[i], r);
    }
  }

  // ---------- the server's promise ----------

  /** A server that keeps its promise sends harmless messages only. */
  lemma PromiseIsTame(st: State, step: Step)
    requires Inv(st) && Enabled(st, step) && ServerObeys(st, step)
    ensures Tame(st, step)
  {
    if step.Recv? {
      assert InvAt(st, step.msg.requestID);
    }
  }

  ghost predicate Promised(states: seq<State>, steps: seq<Step>)
    requires |states| == |steps| + 1
  {
    forall i :: 0 <= i < |steps| ==> ServerObeys(states[i], steps[i])
  }

  lemma {:induction false} PromisedRunsKeepInv(states: seq<State>, steps: seq<Step>, i: nat)
    requires IsRun(states, steps) && Promised(states, steps) && i < |states|
    ensures Sound(states[i])
  {
    if i > 0 {
      PromisedRunsKeepInv(states, steps, i - 1);
      PromiseIsTame(states[i - 1], steps[i - 1]);
      StepKeepsInv(states[i - 1], steps[i - 1]);
    }
  }

  /** So all that is shown for runs with harmless messages holds for every run with such a server. */
  lemma PromisedRunsAreTame(states: seq<State>, steps: seq<Step>)
    requires IsRun(states, steps) && Promised(states, steps)
    ensures AllTame(states, steps)
  {
    forall i | 0 <= i < |steps|
      ensures Tame(states[i], steps[i])
    {
      PromisedRunsKeepInv(states, steps, i);
      PromiseIsTame(states[i], steps[i]);
    }
  }

  // ---------- harmless messages are exactly those that can do no harm ----------

  /** A closed channel was sent to or closed, or the read loop is blocked for good. */
  predicate Flawed(st: State) {
    st.panicked || st.reader.Stuck?
  }

  /** The steps can be taken one after the other from st, and end in a flawed state. */
  ghost predicate Leads(st: State, steps: seq<Step>)
    decreases |steps|
  {
    if steps == [] then Flawed(st) else Enabled(st, steps[0]) && Leads(Apply(st, steps[0]), steps[1..])
  }

  lemma LeadsVia(st: State, step: Step, st': State, rest: seq<Step>)
    requires Enabled(st, step) && st' == Apply(st, step) && Leads(st', rest)
    ensures Leads(st, [step] + rest)
  {
    assert ([step] + rest)[1..] == rest;
  }

  ghost predicate NothingArrives(steps: seq<Step>) {
    forall i :: 0 <= i < |steps| ==> !steps[i].Recv?
  }

  /** The message alone can do harm: with no other message after it, some schedule ends in a flawed state. */
  ghost predicate Endangers(st: State, msg: Response) {
    exists rest :: NothingArrives(rest) && Leads(st, [Recv(msg)] + rest)
  }

  lemma {:induction false} NoFlawWithoutArrivals(st: State, steps: seq<Step>)
    requires Sound(st) && NothingArrives(steps)
    ensures !Leads(st, steps)
    decreases |steps|
  {
    if steps != [] && Enabled(st, steps[0]) {
      StepKeepsInv(st, steps[0]);
      NoFlawWithoutArrivals(Apply(st, steps[0]), steps[1..]);
    }
  }

  /** A sender that took its channel back closes it under the read loop. */
  lemma ClosedUnderReader(st: State, r: RequestID) returns (steps: seq<Step>)
    requires r < |st.senders| == |st.channels| && st.senders[r] == Took(Some(r)) && !st.channels[r].closed
    requires st.reader.Forward? && st.reader.to == Some(r) && st.reader.msg.hasMore
    ensures Leads(st, steps) && NothingArrives(steps)
  {
    var log := st.channels[r].sent + [StreamBroken];
    var s1 := st.(senders := st.senders[r := Breaking(r)], channels := st.channels[r := Channel(log, false)]);
    var s2 := s1.(senders := s1.senders[r := Finished], channels := s1.channels[r := Channel(log, true)]);
    var s3 := s2.(reader := Idle, panicked := true);
    LeadsVia(s2, ForwardMsg, s3, []);
    LeadsVia(s1, CloseBroken(r), s2, [ForwardMsg] + []);
    LeadsVia(st, SendBroken(r), s1, [CloseBroken(r)] + ([ForwardMsg] + []));
    steps := [SendBroken(r)] + ([CloseBroken(r)] + ([ForwardMsg] + []));
  }

  /** While a partial answer is under way to a request whose Send failed, its sender takes the channel back. */
  lemma FailedUnderReader(st: State, r: RequestID) returns (steps: seq<Step>)
    requires r < |st.senders| == |st.channels| && st.senders[r] == Failed && !st.channels[r].closed
    requires st.reader.Forward? && st.reader.to == Some(r) && st.reader.msg.hasMore
    requires r in st.active && st.active[r] == r
    ensures Leads(st, steps) && NothingArrives(steps)
  {
    var st' := st.(senders := st.senders[r := Took(Some(r))], active := st.active - {r});
    var rest := ClosedUnderReader(st', r);
    LeadsVia(st, TakeBack(r), st', rest);
    steps := [TakeBack(r)] + rest;
  }

  /** A partial answer to a request that was not sent, or not yet, can be sent to a closed channel. */
  lemma PartialAnswerEndangers(st: State, msg: Response)
    requires Inv(st) && st.reader == Idle && msg.requestID in st.active && msg.hasMore
    requires st.senders[msg.requestID] != Sent
    ensures Endangers(st, msg)
  {
    var r := msg.requestID;
    assert InvAt(st, r);
    var s1 := st.(reader := Forward(msg, Some(r)), received := st.received + [msg]);
    var s2 := s1.(senders := st.senders[r := Failed]);
    var rest := FailedUnderReader(s2, r);
    if st.senders[r] == Registered {
      LeadsVia(s1, SendFail(r), s2, rest);
      rest := [SendFail(r)] + rest;
    } else {
      assert s1 == s2;
    }
    LeadsVia(st, Recv(msg), s1, rest);
    assert NothingArrives(rest);
  }

  /** A message for a request that is not active blocks the read loop for good. */
  lemma AnswerToInactiveRequestEndangers(st: State, msg: Response)
    requires st.reader == Idle && msg.requestID !in st.active
    ensures Endangers(st, msg)
  {
    var s1 := Apply(st, Recv(msg));
    LeadsVia(s1, ForwardMsg, Apply(s1, ForwardMsg), []);
    LeadsVia(st, Recv(msg), s1, [ForwardMsg] + []);
    assert NothingArrives([ForwardMsg] + []);
  }

  /**
    In every state that can be reached with harmless messages, the next one can
    do harm exactly if it is not harmless.
   */
  lemma HarmlessExactly(st: State, msg: Response)
    requires Sound(st) && st.reader == Idle
    ensures Endangers(st, msg) <==> !Harmless(st, msg)
  {
    if Harmless(st, msg) {
      var st' := Apply(st, Recv(msg));
      StepKeepsInv(st, Recv(msg));
      forall rest | NothingArrives(rest)
        ensures !Leads(st, [Recv(msg)] + rest)
      {
        assert ([Recv(msg)] + rest)[1..] == rest;
        NoFlawWithoutArrivals(st', rest);
      }
    } else if msg.requestID in st.active {
      PartialAnswerEndangers(st, msg);
    } else {
      AnswerToInactiveRequestEndangers(st, msg);
    }
  }

  // ---------- the object ----------

  /** The session object; `st` is the state of the system of senders and read loop that it serves. */
  class InnerSession {
    var nextRequestID: RequestID
    var activeRequests: ActiveRequests
    ghost var st: State

    ghost predicate Valid()
      reads this
    {
      nextRequestID == st.nextRequestID && activeRequests == st.active
    }

    constructor ()
      ensures Valid() && st == INIT && Sound(st)
    {
      nextRequestID, activeRequests, st := 0, map[], INIT;
    }

    /** The first section of sendRequest: allocates an id and registers the channel made for it. */
    method RegisterRequest(ch: ChannelID) returns (rid: RequestID)
      requires Valid() && Enabled(st, Register) && ch == |st.channels|
      modifies this
      ensures Valid() && st == Apply(old(st), Register)
      ensures Sound(old(st)) ==> Sound(st) && rid !in old(activeRequests) && rid == ch
    {
      if Sound(st) {
        StepKeepsInv(st, Register);
      }
      rid := nextRequestID;
      nextRequestID := nextRequestID + 1;
      activeRequests := activeRequests[rid := ch];
      st := Apply(st, Register);
    }

    /** The section of readLoop: finds the channel of a message, and forgets it when no more messages follow. */
    method Dispatch(msg: Response) returns (ch: Option<ChannelID>)
      requires Valid() && Enabled(st, Recv(msg))
      modifies this
      ensures Valid() && st == Apply(old(st), Recv(msg)) && st.reader == Forward(msg, ch)
      ensures Sound(old(st)) && Harmless(old(st), msg) ==> Sound(st) && ch == Some(msg.requestID)
    {
      if Sound(st) && Harmless(st, msg) {
        StepKeepsInv(st, Recv(msg));
      }
      ch := if msg.requestID in activeRequests then Some(activeRequests[msg.requestID]) else None;
      if !msg.hasMore {
        activeRequests := activeRequests - {msg.requestID};
      }
      st := Apply(st, Recv(msg));
    }

    /** getAndDeleteResponseChannelLocked */
    method GetAndDelete(rid: RequestID) returns (ch: Option<ChannelID>)
      modifies this`activeRequests
      ensures ch == Lookup(old(activeRequests), rid) && activeRequests == old(activeRequests) - {rid}
    {
      ch := if rid in activeRequests then Some(activeRequests[rid]) else None;
      activeRequests := activeRequests - {rid};
    }

    /** ... by a sender whose Send failed. */
    method TakeBackChannel(rid: RequestID) returns (ch: Option<ChannelID>)
      requires Valid() && Enabled(st, TakeBack(rid))
      modifies this
      ensures Valid() && st == Apply(old(st), TakeBack(rid)) && st.senders[rid] == Took(ch)
      ensures Sound(old(st)) ==> Sound(st) && (ch.Some? ==> ch.value == rid && !st.channels[rid].closed)
    {
      if Sound(st) {
        StepKeepsInv(st, TakeBack(rid));
        assert InvAt(st, rid);
      }
      ch := GetAndDelete(rid);
      st := Apply(st, TakeBack(rid));
    }

    /** ... by the read loop when it ends. */
    method CleanUpChannel(rid: RequestID) returns (ch: Option<ChannelID>)
      requires Valid() && Enabled(st, CleanTake(rid))
      modifies this
      ensures Valid() && st == Apply(old(st), CleanTake(rid)) && ch.Some? && st.reader == CleanSend(ch.value)
      ensures Sound(old(st)) ==> Sound(st) && ch.value == rid && !st.channels[rid].closed
    {
      if Sound(st) {
        StepKeepsInv(st, CleanTake(rid));
        assert InvAt(st, rid);
      }
      ch := GetAndDelete(rid);
      st := Apply(st, CleanTake(rid));
    }
  }
}
