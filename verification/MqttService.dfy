// The firmware's MQTT service: a telemetry producer and a session task that share a bounded queue and a drop counter.
// Network outcomes are arbitrary; every step is what one task does between two points where the other may run.
module MqttService {
  import opened Wrappers
  import opened MachineInts
  import MqttBackoff

  const OUTBOUND_DEPTH := 4

  datatype ConnectionState =
    | Disabled | WaitingForNetwork | ResolvingBroker | ConnectingTransport | AuthenticatingTransport
    | ConnectingSession | Connected | Resumed | BackingOff

  datatype ErrorKind = Configuration | Capacity | Transport | Protocol | Disconnected | NotReady

  datatype Snapshot = Snapshot(
    state: ConnectionState,
    connections: u32,
    resumptions: u32,
    failures: u32,
    publishes: u32,
    received: u32,
    queueDrops: u32,
    lastError: Option<ErrorKind>)
  {
    function Transition(next: ConnectionState): Snapshot {
      this.(state := next)
    }

    function RecordConnected(): Snapshot {
      this.(state := Connected, connections := SaturatingAddU32(connections, 1), lastError := None)
    }

    function RecordResumed(): Snapshot {
      this.(state := Resumed, resumptions := SaturatingAddU32(resumptions, 1), lastError := None)
    }

    function RecordFailure(kind: ErrorKind): Snapshot {
      this.(state := BackingOff, failures := SaturatingAddU32(failures, 1), lastError := Some(kind))
    }

    function RecordPublish(): Snapshot {
      this.(publishes := SaturatingAddU32(publishes, 1))
    }

    function RecordReceive(): Snapshot {
      this.(received := SaturatingAddU32(received, 1))
    }

    function RecordQueueDrops(count: u32): Snapshot {
      this.(queueDrops := SaturatingAddU32(queueDrops, count))
    }
  }

  /** Of the errors of a live session, only these are recorded as failures. */
  predicate Observed(kind: ErrorKind) {
    kind == Transport || kind == Protocol || kind == Disconnected
  }

  /** The adapter's errors and the category each is reported under. */
  datatype AdapterError =
    | SessionNotReady | SessionDisconnected | InvalidRequest | Peer | Resource | TransportError
    | WriteZero | PayloadTooLarge | Backend

  function KindOf(error: AdapterError): ErrorKind {
    match error
    case SessionNotReady => NotReady
    case SessionDisconnected => Disconnected
    case InvalidRequest => Configuration
    case Peer => Protocol
    case Resource => Capacity
    case PayloadTooLarge => Capacity
    case TransportError => Transport
    case WriteZero => Transport
    case Backend => Protocol
  }

  /* ---------- state ---------- */

  type Message = nat

  /** Where the session task is; `Waiting` is the retry timer. */
  datatype Phase =
    | AwaitingNetwork
    | AwaitingIpLoss
    | Resolving
    | Dialling
    | Handshaking
    | Subscribing
    | SwappingDrops
    | HoldingDrops(count: u32)
    | Selecting
    | Publishing(message: Message)
    | Waiting

  datatype Service = Service(
    queue: seq<Message>,
    pendingDrops: u32,
    producerDropping: bool,
    phase: Phase,
    snapshot: Snapshot,
    attempts: u8)

  const INITIAL := Service([], 0, false, AwaitingNetwork, Snapshot(WaitingForNetwork, 0, 0, 0, 0, 0, 0, None), 0)

  /* ---------- events ---------- */

  datatype NetworkOutcome = StateError | ReadyWithDns | ReadyWithoutDns

  datatype ConnectOutcome = Established(resumed: bool) | Refused(error: AdapterError) | TimedOut

  /** How an operation of a live session ends; losing the network drops it wherever it waits. */
  datatype SessionOutcome = Done | Failed(error: AdapterError) | NetworkLost

  datatype Event =
    | Send(message: Message)
    | CountDrop
    | AwaitNetwork(network: NetworkOutcome)
    | LoseIp
    | Resolve(ok: bool)
    | Dial(ok: bool)
    | Handshake(connect: ConnectOutcome)
    | Subscribe(outcome: SessionOutcome)
    | SwapDrops
    | RecordDrops
    | Receive(outcome: SessionOutcome)
    | TakeOutbound
    | Publish(outcome: SessionOutcome)
    | RetryTimer

  predicate Enabled(s: Service, e: Event) {
    match e
    case Send(_) => !s.producerDropping
    case CountDrop => s.producerDropping
    case AwaitNetwork(_) => s.phase == AwaitingNetwork
    case LoseIp => s.phase == AwaitingIpLoss
    case Resolve(_) => s.phase == Resolving
    case Dial(_) => s.phase == Dialling
    case Handshake(_) => s.phase == Handshaking
    case Subscribe(_) => s.phase == Subscribing
    case SwapDrops => s.phase == SwappingDrops
    case RecordDrops => s.phase.HoldingDrops?
    case Receive(_) => s.phase == Selecting
    case TakeOutbound => s.phase == Selecting && s.queue != []
    case Publish(_) => s.phase.Publishing?
    case RetryTimer => s.phase.Waiting?
  }

  /** The next delay is drawn, and the timer runs. */
  function Backoff(s: Service): Service {
    s.(attempts := Min(s.attempts + 1, 255), phase := Waiting)
  }

  function FailOutside(s: Service, kind: ErrorKind): Service {
    Backoff(s.(snapshot := s.snapshot.RecordFailure(kind)))
  }

  function FailInSession(s: Service, kind: ErrorKind): Service {
    if Observed(kind) then FailOutside(s, kind) else Backoff(s)
  }

  function Restart(s: Service): Service {
    s.(phase := AwaitingNetwork, snapshot := s.snapshot.Transition(WaitingForNetwork))
  }

  function EndOperation(s: Service, outcome: SessionOutcome, done: Service): Service {
    match outcome
    case Done => done
    case Failed(error) => FailInSession(s, KindOf(error))
    case NetworkLost => Restart(s)
  }

  /** What an event does; one that is not possible where the tasks stand does nothing. */
  function Step(s: Service, e: Event): Service {
    if Enabled(s, e) then Apply(s, e) else s
  }

  function Apply(s: Service, e: Event): Service
    requires Enabled(s, e)
  {
    match e
    case Send(m) => if |s.queue| < OUTBOUND_DEPTH then s.(queue := s.queue + [m]) else s.(producerDropping := true)
    case CountDrop => s.(producerDropping := false, pendingDrops := WrappingAddU32(s.pendingDrops, 1))
    case AwaitNetwork(StateError) => Restart(s)
    case AwaitNetwork(ReadyWithDns) => s.(phase := Resolving, snapshot := s.snapshot.Transition(ResolvingBroker))
    case AwaitNetwork(ReadyWithoutDns) => s.(phase := AwaitingIpLoss)
    case LoseIp => Restart(s)
    case Resolve(ok) =>
      if ok then s.(phase := Dialling, snapshot := s.snapshot.Transition(ConnectingTransport))
      else FailOutside(s, Transport)
    case Dial(ok) =>
      if ok then s.(phase := Handshaking, snapshot := s.snapshot.Transition(ConnectingSession))
      else FailOutside(s, Transport)
    case Handshake(Established(resumed)) =>
      s.(phase := if resumed then SwappingDrops else Subscribing,
         snapshot := if resumed then s.snapshot.RecordResumed() else s.snapshot.RecordConnected(),
         attempts := 0)
    case Handshake(Refused(error)) => FailOutside(s, KindOf(error))
    case Handshake(TimedOut) => FailOutside(s, Transport)
    case Subscribe(outcome) => EndOperation(s, outcome, s.(phase := SwappingDrops))
    case SwapDrops => s.(phase := HoldingDrops(s.pendingDrops), pendingDrops := 0)
    case RecordDrops => s.(phase := Selecting, snapshot := s.snapshot.RecordQueueDrops(s.phase.count))
    case Receive(outcome) =>
      EndOperation(s, outcome, s.(phase := SwappingDrops, snapshot := s.snapshot.RecordReceive()))
    case TakeOutbound => s.(phase := Publishing(s.queue[0]), queue := s.queue[1..])
    case Publish(outcome) =>
      EndOperation(s, outcome, s.(phase := SwappingDrops, snapshot := s.snapshot.RecordPublish()))
    case RetryTimer => Restart(s)
  }

  /* ---------- runs ---------- */

  datatype Trace = Start | Then(past: Trace, event: Event)

  function Run(t: Trace): Service {
    match t
    case Start => INITIAL
    case Then(past, e) => Step(Run(past), e)
  }

  /** Every event of the trace was possible when it happened. */
  predicate Legal(t: Trace) {
    t.Then? ==> Legal(t.past) && Enabled(Run(t.past), t.event)
  }

  /* ---------- what one event adds to the record of a run ---------- */

  function AcceptedBy(s: Service, e: Event): seq<Message> {
    if e.Send? && |s.queue| < OUTBOUND_DEPTH then [e.message] else []
  }

  function TakenBy(s: Service, e: Event): seq<Message>
    requires Enabled(s, e)
  {
    if e.TakeOutbound? then [s.queue[0]] else []
  }

  function PublishedBy(s: Service, e: Event): seq<Message>
    requires Enabled(s, e)
  {
    if e.Publish? && e.outcome.Done? then [s.phase.message] else []
  }

  predicate OpensSession(e: Event) {
    e.Handshake? && e.connect.Established?
  }

  predicate DeliversInbound(e: Event) {
    e.Receive? && e.outcome.Done?
  }

  /** An error that makes the service wait: its kind, and whether a live session ran into it. */
  datatype Cause = Cause(kind: ErrorKind, inSession: bool) {
    predicate Recorded() {
      !inSession || Observed(kind)
    }
  }

  function CauseOf(e: Event): Option<Cause> {
    match e
    case Resolve(ok) => if ok then None else Some(Cause(Transport, false))
    case Dial(ok) => if ok then None else Some(Cause(Transport, false))
    case Handshake(Refused(error)) => Some(Cause(KindOf(error), false))
    case Handshake(TimedOut) => Some(Cause(Transport, false))
    case Subscribe(Failed(error)) => Some(Cause(KindOf(error), true))
    case Receive(Failed(error)) => Some(Cause(KindOf(error), true))
    case Publish(Failed(error)) => Some(Cause(KindOf(error), true))
    case _ => None
  }

  predicate StartsWait(e: Event) {
    CauseOf(e).Some?
  }

  /** The errors of a live session that leave no trace in the snapshot. */
  predicate Unrecorded(e: Event) {
    StartsWait(e) && !CauseOf(e).value.Recorded()
  }

  /* ---------- the record of a run ---------- */

  function Count(b: bool): nat {
    if b then 1 else 0
  }

  /** How many messages the producer has tried to send. */
  function Attempted(t: Trace): nat {
    if t.Start? then 0 else Attempted(t.past) + Count(t.event.Send?)
  }

  function Accepted(t: Trace): seq<Message> {
    if t.Start? then [] else Accepted(t.past) + AcceptedBy(Run(t.past), t.event)
  }

  function Taken(t: Trace): seq<Message>
    requires Legal(t)
  {
    if t.Start? then [] else Taken(t.past) + TakenBy(Run(t.past), t.event)
  }

  function Published(t: Trace): seq<Message>
    requires Legal(t)
  {
    if t.Start? then [] else Published(t.past) + PublishedBy(Run(t.past), t.event)
  }

  function Sessions(t: Trace): nat {
    if t.Start? then 0 else Sessions(t.past) + Count(OpensSession(t.event))
  }

  function InboundMessages(t: Trace): nat {
    if t.Start? then 0 else InboundMessages(t.past) + Count(DeliversInbound(t.event))
  }

  /** How often the task has gone into its backoff. */
  function Waits(t: Trace): nat {
    if t.Start? then 0 else Waits(t.past) + Count(StartsWait(t.event))
  }

  /** The latest error that made the service wait. */
  function WaitCause(t: Trace): Option<Cause> {
    if t.Start? then None else Latest(WaitCause(t.past), t.event)
  }

  function Latest(cause: Option<Cause>, e: Event): Option<Cause> {
    if StartsWait(e) then CauseOf(e) else cause
  }

  /** Whether the latest session was resumed, if there has been one. */
  function LastSession(t: Trace): Option<bool> {
    if t.Start? then None else LatestSession(LastSession(t.past), t.event)
  }

  function LatestSession(session: Option<bool>, e: Event): Option<bool> {
    if OpensSession(e) then Some(e.connect.resumed) else session
  }

  function FreshSessions(t: Trace): nat {
    if t.Start? then 0 else FreshSessions(t.past) + Count(t.event == Handshake(Established(false)))
  }

  function ResumedSessions(t: Trace): nat {
    if t.Start? then 0 else ResumedSessions(t.past) + Count(t.event == Handshake(Established(true)))
  }

  /** A subscription has succeeded since the latest session was established. */
  predicate Subscribed(t: Trace) {
    t.Then? && !OpensSession(t.event) && (t.event == Subscribe(Done) || Subscribed(t.past))
  }

  /** The latest event of the session task. */
  function LastStep(t: Trace): Option<Event> {
    if t.Start? then None
    else if t.event.Send? || t.event.CountDrop? then LastStep(t.past)
    else Some(t.event)
  }

  function UnrecordedErrors(t: Trace): nat {
    if t.Start? then 0 else UnrecordedErrors(t.past) + Count(Unrecorded(t.event))
  }

  function WaitsSinceConnect(t: Trace): nat {
    if t.Start? || OpensSession(t.event) then 0 else WaitsSinceConnect(t.past) + Count(StartsWait(t.event))
  }

  /* ---------- messages ---------- */

  function DropsInHand(s: Service): nat {
    Count(s.producerDropping) + if s.phase.HoldingDrops? then s.phase.count else 0
  }

  /** Everything but the messages taken: queued ones, and drops wherever they are on their way into the snapshot. */
  function Outstanding(s: Service): nat {
    |s.queue| + s.pendingDrops + DropsInHand(s) + s.snapshot.queueDrops
  }

  lemma {:induction false} QueueIsBounded(t: Trace)
    ensures |Run(t).queue| <= OUTBOUND_DEPTH
  {
    if t.Then? {
      QueueIsBounded(t.past);
    }
  }

  lemma StepConserves(s: Service, e: Event)
    requires Enabled(s, e) && |s.queue| <= OUTBOUND_DEPTH && Outstanding(s) + Count(e.Send?) <= U32_MAX
    ensures |Apply(s, e).queue| <= OUTBOUND_DEPTH
    ensures Outstanding(Apply(s, e)) + |TakenBy(s, e)| == Outstanding(s) + Count(e.Send?)
  {
  }

  /**
    * Nothing is lost track of: what the producer tried to send is in the queue, or was taken by the session
    * task, or is a drop that is being counted, is pending, is in hand or is recorded.
    */
  lemma {:induction false} SendsAreConserved(t: Trace)
    requires Legal(t) && Attempted(t) <= U32_MAX
    ensures var s := Run(t);
      && |s.queue| <= OUTBOUND_DEPTH
      && Attempted(t) == |s.queue| + |Taken(t)| + s.pendingDrops + DropsInHand(s) + s.snapshot.queueDrops
  {
    if t.Then? {
      SendsAreConserved(t.past);
      StepConserves(Run(t.past), t.event);
    }
  }

  predicate IsSubsequence(a: seq<Message>, b: seq<Message>) {
    a == [] ||
    (b != [] && (
      (a[|a| - 1] == b[|b| - 1] && IsSubsequence(a[..|a| - 1], b[..|b| - 1])) ||
      IsSubsequence(a, b[..|b| - 1])))
  }

  lemma SubsequenceGrows(a: seq<Message>, b: seq<Message>, x: Message)
    requires IsSubsequence(a, b)
    ensures IsSubsequence(a, b + [x]) && IsSubsequence(a + [x], b + [x])
  {
    assert (b + [x])[..|b|] == b && (a + [x])[..|a|] == a;
  }

  function InFlight(s: Service): seq<Message> {
    if s.phase.Publishing? then [s.phase.message] else []
  }

  lemma StepKeepsOrder(s: Service, e: Event)
    requires Enabled(s, e)
    ensures s.queue + AcceptedBy(s, e) == TakenBy(s, e) + Apply(s, e).queue
    ensures InFlight(Apply(s, e)) == TakenBy(s, e) || (!e.Publish? && TakenBy(s, e) == [] && InFlight(Apply(s, e)) == InFlight(s))
    ensures TakenBy(s, e) != [] ==> InFlight(s) == []
    ensures e.Publish? ==> TakenBy(s, e) == [] && InFlight(Apply(s, e)) == [] && InFlight(s) == [s.phase.message]
    ensures InFlight(s) != [] && !e.Publish? ==> InFlight(Apply(s, e)) == InFlight(s)
  {
  }

  /** The messages taken whose publication has been settled, one way or the other. */
  function Settled(t: Trace): seq<Message>
    requires Legal(t)
  {
    if t.Start? then []
    else Settled(t.past) + if t.event.Publish? then [Run(t.past).phase.message] else []
  }

  lemma PassesThrough(taken: seq<Message>, queue: seq<Message>, more: seq<Message>, next: seq<Message>, left: seq<Message>)
    requires queue + more == next + left
    ensures (taken + queue) + more == (taken + next) + left
  {
    assert (taken + queue) + more == taken + (queue + more);
  }

  /** First in, first out: what was accepted was taken in order or still waits. */
  lemma {:induction false} QueueIsFifo(t: Trace)
    requires Legal(t)
    ensures Accepted(t) == Taken(t) + Run(t).queue
  {
    if t.Then? {
      QueueIsFifo(t.past);
      var s := Run(t.past);
      StepKeepsOrder(s, t.event);
      PassesThrough(Taken(t.past), s.queue, AcceptedBy(s, t.event), TakenBy(s, t.event), Run(t).queue);
    }
  }

  /** What was published is a subsequence of what was taken, and only the message in flight is still open. */
  lemma {:induction false} PublishedInOrder(t: Trace)
    requires Legal(t)
    ensures Taken(t) == Settled(t) + InFlight(Run(t))
    ensures IsSubsequence(Published(t), Settled(t))
  {
    if t.Then? {
      PublishedInOrder(t.past);
      var s := Run(t.past);
      StepKeepsOrder(s, t.event);
      if t.event.Publish? {
        SubsequenceGrows(Published(t.past), Settled(t.past), s.phase.message);
        assert PublishedBy(s, t.event) == [s.phase.message] || Published(t) == Published(t.past);
      } else {
        assert Settled(t) == Settled(t.past) && Published(t) == Published(t.past);
      }
    }
  }

  predicate InSession(p: Phase) {
    p.Subscribing? || p.SwappingDrops? || p.HoldingDrops? || p.Selecting? || p.Publishing?
  }

  lemma StepLosesOnlyAtEnd(s: Service, e: Event)
    requires Enabled(s, e)
    ensures var s' := Apply(s, e);
      |TakenBy(s, e)| + |InFlight(s)| + Count(InSession(s'.phase))
      <= |PublishedBy(s, e)| + |InFlight(s')| + Count(OpensSession(e)) + Count(InSession(s.phase))
    ensures |PublishedBy(s, e)| + |InFlight(Apply(s, e))| <= |TakenBy(s, e)| + |InFlight(s)|
  {
  }

  /** A session loses at most the one message it was publishing when it ended. */
  lemma {:induction false} LossesBoundedBySessions(t: Trace)
    requires Legal(t)
    ensures |Published(t)| + |InFlight(Run(t))| <= |Taken(t)|
    ensures |Taken(t)| + Count(InSession(Run(t).phase)) <= |Published(t)| + |InFlight(Run(t))| + Sessions(t)
  {
    if t.Then? {
      LossesBoundedBySessions(t.past);
      StepLosesOnlyAtEnd(Run(t.past), t.event);
    }
  }

  lemma StepCounts(s: Service, e: Event)
    requires Enabled(s, e)
    ensures var c, c' := s.snapshot, Apply(s, e).snapshot;
      && c'.publishes == Min(c.publishes + |PublishedBy(s, e)|, U32_MAX)
      && c'.received == Min(c.received + Count(DeliversInbound(e)), U32_MAX)
      && c'.failures == Min(c.failures + Count(StartsWait(e)) - Count(Unrecorded(e)), U32_MAX)
    ensures Unrecorded(e) ==> StartsWait(e)
  {
  }

  /** The snapshot's counters are the true counts, up to saturation. */
  lemma {:induction false} CountersSaturate(t: Trace)
    requires Legal(t)
    ensures var c := Run(t).snapshot;
      && c.publishes == Min(|Published(t)|, U32_MAX)
      && c.received == Min(InboundMessages(t), U32_MAX)
      && UnrecordedErrors(t) <= Waits(t)
      && c.failures == Min(Waits(t) - UnrecordedErrors(t), U32_MAX)
  {
    if t.Then? {
      CountersSaturate(t.past);
      StepCounts(Run(t.past), t.event);
    }
  }

  /** Connections count the fresh sessions and resumptions the resumed ones, each up to saturation. */
  lemma {:induction false} SessionsAreCounted(t: Trace)
    requires Legal(t)
    ensures Run(t).snapshot.connections == Min(FreshSessions(t), 0xFFFF_FFFF)
    ensures Run(t).snapshot.resumptions == Min(ResumedSessions(t), 0xFFFF_FFFF)
    ensures FreshSessions(t) + ResumedSessions(t) == Sessions(t)
  {
    if t.Then? {
      SessionsAreCounted(t.past);
      StepCountsSessions(Run(t.past), t.event);
    }
  }

  lemma StepCountsSessions(s: Service, e: Event)
    requires Enabled(s, e)
    ensures var c, c' := s.snapshot, Apply(s, e).snapshot;
      && c'.connections == Min(c.connections + Count(e == Handshake(Established(false))), U32_MAX)
      && c'.resumptions == Min(c.resumptions + Count(e == Handshake(Established(true))), U32_MAX)
  {
  }

  /** Before saturation, taken messages that were not published are at most as many as connections and resumptions. */
  lemma UnpublishedBoundedByCounters(t: Trace)
    requires Legal(t) && Sessions(t) <= U32_MAX
    ensures |Taken(t)| - |Published(t)| <= Run(t).snapshot.connections + Run(t).snapshot.resumptions
  {
    LossesBoundedBySessions(t);
    SessionsAreCounted(t);
    assert |InFlight(Run(t))| <= Count(InSession(Run(t).phase));
  }

  /* ---------- retries ---------- */

  lemma StepAttempts(s: Service, e: Event)
    requires Enabled(s, e)
    ensures Apply(s, e).attempts ==
      if OpensSession(e) then 0 else if StartsWait(e) then Min(s.attempts + 1, 255) else s.attempts
    ensures OpensSession(e) ==> !StartsWait(e)
  {
  }

  /** The attempt counter counts the waits since the last session, up to its saturation. */
  lemma {:induction false} AttemptsCountWaits(t: Trace)
    requires Legal(t)
    ensures Run(t).attempts == Min(WaitsSinceConnect(t), 255)
  {
    if t.Then? {
      AttemptsCountWaits(t.past);
      StepAttempts(Run(t.past), t.event);
    }
  }

  /**
    * The published state for each place of the session task, after the given cause of its last wait and the
    * given last session, which was resumed or not.
    */
  predicate StateFits(s: Service, cause: Option<Cause>, session: Option<bool>) {
    var state := s.snapshot.state;
    match s.phase
    case AwaitingNetwork => state == WaitingForNetwork
    case AwaitingIpLoss => state == WaitingForNetwork
    case Resolving => state == ResolvingBroker
    case Dialling => state == ConnectingTransport
    case Handshaking => state == ConnectingSession
    case Waiting =>
      cause.Some? &&
      if cause.value.Recorded() then state == BackingOff && s.snapshot.lastError == Some(cause.value.kind)
      else ShowsSession(s.snapshot, session)
    case _ => ShowsSession(s.snapshot, session)
  }

  /** The snapshot is that of a live session: resumed if and only if the session is. */
  predicate ShowsSession(c: Snapshot, session: Option<bool>) {
    session.Some? && c.state == (if session.value then Resumed else Connected) && c.lastError == None
  }

  lemma StepFits(s: Service, e: Event, cause: Option<Cause>, session: Option<bool>)
    requires Enabled(s, e) && StateFits(s, cause, session)
    ensures StateFits(Apply(s, e), Latest(cause, e), LatestSession(session, e))
  {
  }

  /** The last step of the session task that leads to each place. */
  predicate ArrivedBy(p: Phase, step: Option<Event>) {
    match p
    case AwaitingNetwork =>
      step in {None, Some(AwaitNetwork(StateError)), Some(LoseIp), Some(RetryTimer),
               Some(Subscribe(NetworkLost)), Some(Receive(NetworkLost)), Some(Publish(NetworkLost))}
    case AwaitingIpLoss => step == Some(AwaitNetwork(ReadyWithoutDns))
    case Resolving => step == Some(AwaitNetwork(ReadyWithDns))
    case Dialling => step == Some(Resolve(true))
    case Handshaking => step == Some(Dial(true))
    case Subscribing => step == Some(Handshake(Established(false)))
    case SwappingDrops =>
      step in {Some(Handshake(Established(true))), Some(Subscribe(Done)), Some(Receive(Done)), Some(Publish(Done))}
    case HoldingDrops(_) => step == Some(SwapDrops)
    case Selecting => step == Some(RecordDrops)
    case Publishing(_) => step == Some(TakeOutbound)
    case Waiting => step.Some? && StartsWait(step.value)
  }

  /**
    * Where the session task stands is decided by its own last step, however the producer runs in between: the
    * task subscribes only right after a fresh session, and selects only right after it has recorded the drops.
    */
  lemma {:induction false} PlaceTellsLastStep(t: Trace)
    requires Legal(t)
    ensures ArrivedBy(Run(t).phase, LastStep(t))
  {
    if t.Then? {
      PlaceTellsLastStep(t.past);
      StepArrives(Run(t.past), t.event);
    }
  }

  lemma StepArrives(s: Service, e: Event)
    requires Enabled(s, e)
    ensures if e.Send? || e.CountDrop? then Apply(s, e).phase == s.phase else ArrivedBy(Apply(s, e).phase, Some(e))
  {
  }

  /** In a live session, a fresh one has subscribed unless it is about to, and a resumed one never does. */
  lemma {:induction false} FreshSessionsSubscribe(t: Trace)
    requires Legal(t) && InSession(Run(t).phase)
    ensures LastSession(t).Some? && ShowsSession(Run(t).snapshot, LastSession(t))
    ensures Run(t).phase.Subscribing? <==> !LastSession(t).value && !Subscribed(t)
    ensures Subscribed(t) ==> !LastSession(t).value
  {
    StateAlwaysFits(t);
    if !OpensSession(t.event) {
      StepStaysInSession(Run(t.past), t.event);
      FreshSessionsSubscribe(t.past);
    }
  }

  lemma StepStaysInSession(s: Service, e: Event)
    requires Enabled(s, e) && !OpensSession(e) && InSession(Apply(s, e).phase)
    ensures InSession(s.phase)
    ensures Apply(s, e).phase.Subscribing? <==> s.phase.Subscribing? && e != Subscribe(Done)
    ensures e == Subscribe(Done) ==> s.phase.Subscribing?
  {
  }

  lemma {:induction false} StateAlwaysFits(t: Trace)
    requires Legal(t)
    ensures StateFits(Run(t), WaitCause(t), LastSession(t))
  {
    if t.Then? {
      StateAlwaysFits(t.past);
      StepFits(Run(t.past), t.event, WaitCause(t.past), LastSession(t.past));
    }
  }

  /** A connected state carries no error, and a backing-off one carries the error that caused it. */
  lemma ErrorFitsState(t: Trace)
    requires Legal(t)
    ensures var c := Run(t).snapshot;
      && (c.state == Connected || c.state == Resumed ==> c.lastError == None)
      && (c.state == BackingOff ==> c.lastError.Some?)
  {
    StateAlwaysFits(t);
  }

  /**
    * A service that waits for its retry says so, and why, unless a live session ran into an error of kind
    * capacity, not ready or configuration; then it still claims to be connected, with no error.
    * It never says so when it does not wait.
    */
  lemma WaitingIsVisibleIff(t: Trace)
    requires Legal(t)
    ensures Run(t).snapshot.state == BackingOff ==> Run(t).phase.Waiting?
    ensures Run(t).phase.Waiting? ==>
      var c, cause := Run(t).snapshot, WaitCause(t);
      && cause.Some?
      && (c.state == BackingOff <==>
          !(cause.value.inSession && cause.value.kind in {Capacity, NotReady, Configuration}))
      && (c.state == BackingOff ==> c.lastError == Some(cause.value.kind))
      && (c.state != BackingOff ==> ShowsSession(c, LastSession(t)))
  {
    StateAlwaysFits(t);
  }

  /** What a waiting service shows after each error of a live session. */
  lemma SessionErrorsShow(t: Trace, error: AdapterError)
    requires Legal(t) && t.Then?
    requires t.event in {Subscribe(Failed(error)), Receive(Failed(error)), Publish(Failed(error))}
    ensures Run(t).phase == Waiting
    ensures Run(t).snapshot.state == BackingOff <==>
            error in {SessionDisconnected, Peer, TransportError, WriteZero, AdapterError.Backend}
    ensures Run(t).snapshot.lastError == match error
      case SessionDisconnected => Some(Disconnected)
      case Peer => Some(Protocol)
      case Backend => Some(Protocol)
      case TransportError => Some(Transport)
      case WriteZero => Some(Transport)
      case _ => None
  {
    StateAlwaysFits(t);
    PlaceTellsLastStep(t);
  }

  /** And after each error with which a broker or transport refuses a session. */
  lemma RefusalsShow(t: Trace, error: AdapterError)
    requires Legal(t) && t.Then? && t.event == Handshake(Refused(error))
    ensures Run(t).phase == Waiting && Run(t).snapshot.state == BackingOff
    ensures Run(t).snapshot.lastError == Some(match error
      case SessionNotReady => NotReady
      case SessionDisconnected => Disconnected
      case InvalidRequest => Configuration
      case Resource => Capacity
      case PayloadTooLarge => Capacity
      case TransportError => Transport
      case WriteZero => Transport
      case _ => Protocol)
  {
    StateAlwaysFits(t);
    PlaceTellsLastStep(t);
  }

  /* ---------- no place is a dead end ---------- */

  /** The later trace goes on from t with steps of the session task alone. */
  predicate GoesOn(later: Trace, t: Trace) {
    later == t || (later.Then? && !later.event.Send? && !later.event.CountDrop? && GoesOn(later.past, t))
  }

  lemma OneMore(later: Trace, t: Trace, e: Event) returns (u: Trace)
    requires GoesOn(later, t) && Legal(later) && Enabled(Run(later), e) && !e.Send? && !e.CountDrop?
    ensures u == Then(later, e) && GoesOn(u, t) && Legal(u) && Run(u) == Apply(Run(later), e)
  {
    u := Then(later, e);
  }

  /** Wherever the session task is, it can get back to waiting for the network with its queue as it is. */
  lemma ToNetworkWait(t: Trace) returns (u: Trace)
    requires Legal(t)
    ensures GoesOn(u, t) && Legal(u) && Run(u).phase == AwaitingNetwork && Run(u).queue == Run(t).queue
  {
    u := t;
    match Run(t).phase {
      case AwaitingNetwork =>
      case AwaitingIpLoss => u := OneMore(u, t, LoseIp);
      case Waiting => u := OneMore(u, t, RetryTimer);
      case Subscribing => u := OneMore(u, t, Subscribe(NetworkLost));
      case Publishing(_) => u := OneMore(u, t, Publish(NetworkLost));
      case Resolving =>
        u := OneMore(u, t, Resolve(false));
        u := OneMore(u, t, RetryTimer);
      case Dialling =>
        u := OneMore(u, t, Dial(false));
        u := OneMore(u, t, RetryTimer);
      case Handshaking =>
        u := OneMore(u, t, Handshake(TimedOut));
        u := OneMore(u, t, RetryTimer);
      case _ => u := LeaveSession(t);
    }
  }

  lemma LeaveSession(t: Trace) returns (u: Trace)
    requires Legal(t)
    requires Run(t).phase.SwappingDrops? || Run(t).phase.HoldingDrops? || Run(t).phase.Selecting?
    ensures GoesOn(u, t) && Legal(u) && Run(u).phase == AwaitingNetwork && Run(u).queue == Run(t).queue
  {
    u := t;
    if Run(u).phase.SwappingDrops? {
      u := OneMore(u, t, SwapDrops);
    }
    if Run(u).phase.HoldingDrops? {
      u := OneMore(u, t, RecordDrops);
    }
    u := OneMore(u, t, Receive(NetworkLost));
  }

  lemma Reconnect(t: Trace, later: Trace, resumed: bool) returns (u: Trace)
    requires GoesOn(later, t) && Legal(later) && Run(later).phase == AwaitingNetwork
    ensures GoesOn(u, t) && Legal(u) && u.Then? && u.event == Handshake(Established(resumed))
    ensures Run(u).queue == Run(later).queue && Run(u).phase == if resumed then SwappingDrops else Subscribing
  {
    u := OneMore(later, t, AwaitNetwork(ReadyWithDns));
    u := OneMore(u, t, Resolve(true));
    u := OneMore(u, t, Dial(true));
    u := OneMore(u, t, Handshake(Established(resumed)));
  }

  /**
    * No reachable state is a dead end: without any help of the producer the service can establish a fresh or a
    * resumed session again, and can then publish the oldest message of its queue.
    */
  lemma CanPublishAgain(t: Trace, resumed: bool)
    requires Legal(t)
    ensures exists u :: GoesOn(u, t) && Legal(u) && u.Then? && u.event == Handshake(Established(resumed))
    ensures Run(t).queue != [] ==>
      exists u :: GoesOn(u, t) && Legal(u) && u.Then? && PublishedBy(Run(u.past), u.event) == [Run(t).queue[0]]
  {
    var u := ToNetworkWait(t);
    u := Reconnect(t, u, resumed);
    if Run(t).queue != [] {
      if !resumed {
        u := OneMore(u, t, Subscribe(Done));
      }
      u := OneMore(u, t, SwapDrops);
      u := OneMore(u, t, RecordDrops);
      u := OneMore(u, t, TakeOutbound);
      u := OneMore(u, t, Publish(Done));
      assert PublishedBy(Run(u.past), u.event) == [Run(t).queue[0]];
    }
  }

  /** Up to its first telemetry message being published, nothing has gone wrong. */
  function FirstSession(m: Message): Trace {
    Then(Then(Then(Then(Then(Start, Send(m)), AwaitNetwork(ReadyWithDns)), Resolve(true)), Dial(true)), Handshake(Established(false)))
  }

  function FirstPublish(m: Message): Trace {
    Then(Then(Then(Then(FirstSession(m), Subscribe(Done)), SwapDrops), RecordDrops), TakeOutbound)
  }

  lemma Extends(t: Trace, e: Event, s: Service)
    requires Legal(t) && Run(t) == s && Enabled(s, e)
    ensures Legal(Then(t, e)) && Run(Then(t, e)) == Apply(s, e)
  {
  }

  lemma FirstSessionRuns(m: Message)
    ensures Legal(FirstSession(m))
    ensures Run(FirstSession(m)) == Service([m], 0, false, Subscribing, Snapshot(Connected, 1, 0, 0, 0, 0, 0, None), 0)
  {
    var t5 := FirstSession(m);
    var t4 := t5.past; var t3 := t4.past; var t2 := t3.past; var t1 := t2.past;
    Extends(Start, t1.event, INITIAL);
    var s := INITIAL.(queue := [m]);
    Extends(t1, t2.event, s);
    s := s.(phase := Resolving, snapshot := s.snapshot.(state := ResolvingBroker));
    Extends(t2, t3.event, s);
    s := s.(phase := Dialling, snapshot := s.snapshot.(state := ConnectingTransport));
    Extends(t3, t4.event, s);
    s := s.(phase := Handshaking, snapshot := s.snapshot.(state := ConnectingSession));
    Extends(t4, t5.event, s);
  }

  lemma FirstPublishRuns(m: Message)
    ensures Legal(FirstPublish(m))
    ensures Run(FirstPublish(m)) == Service([], 0, false, Publishing(m), Snapshot(Connected, 1, 0, 0, 0, 0, 0, None), 0)
  {
    FirstSessionRuns(m);
    var t4 := FirstPublish(m);
    var t3 := t4.past; var t2 := t3.past; var t1 := t2.past;
    var s := Run(FirstSession(m));
    Extends(FirstSession(m), t1.event, s);
    s := s.(phase := SwappingDrops);
    Extends(t1, t2.event, s);
    s := s.(phase := HoldingDrops(0));
    Extends(t2, t3.event, s);
    s := s.(phase := Selecting);
    Extends(t3, t4.event, s);
  }

  /** Such a run: the payload does not fit its packet, and the service waits while its snapshot says connected. */
  lemma WaitingWhileConnected(m: Message)
    ensures var t := Then(FirstPublish(m), Publish(Failed(PayloadTooLarge)));
      Legal(t) && Run(t).phase.Waiting? && Run(t).snapshot.state == Connected
  {
    FirstPublishRuns(m);
  }

  /** After twenty-nine failures in a row the service retries within a quarter of a second. */
  lemma RetriesCollapse(t: Trace, entropy: u32)
    requires Legal(t) && WaitsSinceConnect(t) >= 29
    ensures MqttBackoff.Delay(MqttBackoff.DEFAULT_POLICY, Run(t).attempts, entropy) <= 250
  {
    AttemptsCountWaits(t);
    MqttBackoff.DefaultDelayCollapses(Run(t).attempts, entropy);
  }
}
