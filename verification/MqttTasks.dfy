// The two MQTT tasks over their shared state, updated in place; one method for each stretch without an await.
module MqttTasks {
  import opened Wrappers
  import opened MachineInts
  import opened MqttService

  class Tasks {
    var outbound: seq<Message>
    var queueDrops: u32
    var producerDropping: bool
    var phase: Phase
    var snapshot: Snapshot
    var attempts: u8
    ghost var trace: Trace

    ghost function View(): Service
      reads this
    {
      Service(outbound, queueDrops, producerDropping, phase, snapshot, attempts)
    }

    /** The fields are what the trace of both tasks' steps leads to. */
    ghost predicate Valid()
      reads this
    {
      Legal(trace) && View() == Run(trace)
    }

    ghost predicate CanDo(e: Event)
      reads this
    {
      Valid() && Enabled(View(), e)
    }

    constructor ()
      ensures Valid() && trace == Start
    {
      outbound, queueDrops, producerDropping, attempts := [], 0, false, 0;
      phase := AwaitingNetwork;
      snapshot := Snapshot(WaitingForNetwork, 0, 0, 0, 0, 0, 0, None);
      trace := Start;
    }

    /** What the fields keep whatever the network does and however the tasks interleave. */
    lemma Keeps()
      requires Valid()
      ensures |outbound| <= 4 && Accepted(trace) == Taken(trace) + outbound
      ensures attempts == Min(WaitsSinceConnect(trace), 255)
      ensures StateFits(View(), WaitCause(trace), LastSession(trace)) && ArrivedBy(phase, LastStep(trace))
      ensures snapshot.publishes == Min(|Published(trace)|, U32_MAX)
      ensures |Taken(trace)| <= |Published(trace)| + Sessions(trace)
      ensures Attempted(trace) <= U32_MAX ==>
        Attempted(trace) == |outbound| + |Taken(trace)| + queueDrops + DropsInHand(View()) + snapshot.queueDrops
    {
      QueueIsBounded(trace);
      QueueIsFifo(trace);
      AttemptsCountWaits(trace);
      StateAlwaysFits(trace);
      PlaceTellsLastStep(trace);
      CountersSaturate(trace);
      LossesBoundedBySessions(trace);
      assert |InFlight(View())| <= Count(InSession(phase));
      if Attempted(trace) <= U32_MAX {
        SendsAreConserved(trace);
      }
    }

    /* ---------- the producer task ---------- */

    method TrySend(message: Message) returns (accepted: bool)
      requires CanDo(Send(message))
      modifies this
      ensures Valid() && trace == Then(old(trace), Send(message))
      ensures accepted == (|old(outbound)| < 4)
      ensures outbound == if accepted then old(outbound) + [message] else old(outbound)
    {
      accepted := |outbound| < OUTBOUND_DEPTH;
      if accepted {
        outbound := outbound + [message];
      } else {
        producerDropping := true;
      }
      trace := Then(trace, Send(message));
    }

    method CountQueueDrop()
      requires CanDo(CountDrop)
      modifies this
      ensures Valid() && trace == Then(old(trace), CountDrop)
    {
      queueDrops := WrappingAddU32(queueDrops, 1);
      producerDropping := false;
      trace := Then(trace, CountDrop);
    }

    /* ---------- the session task ---------- */

    method StartBackoff()
      modifies this`attempts, this`phase
      ensures View() == Backoff(old(View()))
    {
      attempts := Min(attempts + 1, 255);
      phase := Waiting;
    }

    method RecordExternalFailure(kind: ErrorKind)
      modifies this`attempts, this`phase, this`snapshot
      ensures View() == FailOutside(old(View()), kind)
    {
      snapshot := snapshot.RecordFailure(kind);
      StartBackoff();
    }

    /** An error of the live session: observed by the adapter, then waited for. */
    method FailSession(error: AdapterError)
      modifies this`attempts, this`phase, this`snapshot
      ensures View() == FailInSession(old(View()), KindOf(error))
    {
      var kind := KindOf(error);
      if kind == Transport || kind == Protocol || kind == Disconnected {
        snapshot := snapshot.RecordFailure(kind);
      }
      StartBackoff();
    }

    method ReturnToNetworkWait()
      modifies this`phase, this`snapshot
      ensures View() == Restart(old(View()))
    {
      snapshot := snapshot.Transition(WaitingForNetwork);
      phase := AwaitingNetwork;
    }

    method WaitIpReady(outcome: NetworkOutcome)
      requires CanDo(AwaitNetwork(outcome))
      modifies this
      ensures Valid() && trace == Then(old(trace), AwaitNetwork(outcome))
    {
      match outcome {
        case StateError => ReturnToNetworkWait();
        case ReadyWithoutDns => phase := AwaitingIpLoss;
        case ReadyWithDns =>
          snapshot := snapshot.Transition(ResolvingBroker);
          phase := Resolving;
      }
      trace := Then(trace, AwaitNetwork(outcome));
    }

    method WaitIpDown()
      requires CanDo(LoseIp)
      modifies this
      ensures Valid() && trace == Then(old(trace), LoseIp)
    {
      ReturnToNetworkWait();
      trace := Then(trace, LoseIp);
    }

    method ResolveBroker(ok: bool)
      requires CanDo(Resolve(ok))
      modifies this
      ensures Valid() && trace == Then(old(trace), Resolve(ok))
    {
      if ok {
        snapshot := snapshot.Transition(ConnectingTransport);
        phase := Dialling;
      } else {
        RecordExternalFailure(Transport);
      }
      trace := Then(trace, Resolve(ok));
    }

    method ConnectSocket(ok: bool)
      requires CanDo(Dial(ok))
      modifies this
      ensures Valid() && trace == Then(old(trace), Dial(ok))
    {
      if ok {
        snapshot := snapshot.Transition(ConnectingSession);
        phase := Handshaking;
      } else {
        RecordExternalFailure(Transport);
      }
      trace := Then(trace, Dial(ok));
    }

    method ConnectClient(outcome: ConnectOutcome)
      requires CanDo(Handshake(outcome))
      modifies this
      ensures Valid() && trace == Then(old(trace), Handshake(outcome))
    {
      match outcome {
        case Established(resumed) =>
          if resumed {
            snapshot := snapshot.RecordResumed();
            phase := SwappingDrops;
          } else {
            snapshot := snapshot.RecordConnected();
            phase := Subscribing;
          }
          attempts := 0;
        case Refused(error) => RecordExternalFailure(KindOf(error));
        case TimedOut => RecordExternalFailure(Transport);
      }
      trace := Then(trace, Handshake(outcome));
    }

    method SubscribeCommands(outcome: SessionOutcome)
      requires CanDo(Subscribe(outcome))
      modifies this
      ensures Valid() && trace == Then(old(trace), Subscribe(outcome))
    {
      match outcome {
        case Done => phase := SwappingDrops;
        case Failed(error) => FailSession(error);
        case NetworkLost => ReturnToNetworkWait();
      }
      trace := Then(trace, Subscribe(outcome));
    }

    method SwapQueueDrops()
      requires CanDo(SwapDrops)
      modifies this
      ensures Valid() && trace == Then(old(trace), SwapDrops)
    {
      var dropped := queueDrops;
      queueDrops := 0;
      phase := HoldingDrops(dropped);
      trace := Then(trace, SwapDrops);
    }

    method RecordQueueDrops()
      requires CanDo(RecordDrops)
      modifies this
      ensures Valid() && trace == Then(old(trace), RecordDrops)
    {
      snapshot := snapshot.RecordQueueDrops(phase.count);
      phase := Selecting;
      trace := Then(trace, RecordDrops);
    }

    method ReceiveInbound(outcome: SessionOutcome)
      requires CanDo(Receive(outcome))
      modifies this
      ensures Valid() && trace == Then(old(trace), Receive(outcome))
    {
      match outcome {
        case Done =>
          snapshot := snapshot.RecordReceive();
          phase := SwappingDrops;
        case Failed(error) => FailSession(error);
        case NetworkLost => ReturnToNetworkWait();
      }
      trace := Then(trace, Receive(outcome));
    }

    method TakeMessage() returns (message: Message)
      requires CanDo(TakeOutbound)
      modifies this
      ensures Valid() && trace == Then(old(trace), TakeOutbound)
      ensures old(outbound) == [message] + outbound
    {
      message := outbound[0];
      outbound := outbound[1..];
      phase := Publishing(message);
      trace := Then(trace, TakeOutbound);
    }

    method PublishMessage(outcome: SessionOutcome)
      requires CanDo(Publish(outcome))
      modifies this
      ensures Valid() && trace == Then(old(trace), Publish(outcome))
    {
      match outcome {
        case Done =>
          snapshot := snapshot.RecordPublish();
          phase := SwappingDrops;
        case Failed(error) => FailSession(error);
        case NetworkLost => ReturnToNetworkWait();
      }
      trace := Then(trace, Publish(outcome));
    }

    method RetryElapsed()
      requires CanDo(RetryTimer)
      modifies this
      ensures Valid() && trace == Then(old(trace), RetryTimer)
    {
      ReturnToNetworkWait();
      trace := Then(trace, RetryTimer);
    }
  }
}
