/**
  The transmit half of the serial port in the form the source gives it: a fixed
  transmit buffer that is filled in place, a packet queue shared with producers,
  and a task that repacks packets into writes of at most 330 bytes.

  Every method keeps `Valid`, which says that the concrete fields are what the
  step machine of SppPipeline computes from the recorded `trace`.  What is proved
  there about all runs therefore holds of this code under every interleaving.
 */
module SppTransmitter {
  import opened Sequences
  import opened SppPipeline

  /** The results of the queueing routine. */
  datatype Status = OK | FAIL

  /** How the sends of a run ended, in order. */
  function Outcomes(events: seq<Event>): seq<Outcome> {
    if events == [] then []
    else
      var last := events[|events| - 1];
      Outcomes(events[..|events| - 1]) + if last.Write? then [last.outcome] else []
  }

  /** The step of the machine that tops the buffer up from a packet that does not fit. */
  lemma HeadStep(s: State)
    requires s.pc.Waiting? && s.queue != [] && |s.buffer| <= TX_MAX < |s.buffer| + |s.queue[0]|
    ensures var packet, room := s.queue[0], TX_MAX - |s.buffer|;
            Step(s, Advance) == s.(queue := s.queue[1..], taken := s.taken + [packet],
                                   buffer := s.buffer + packet[..room], pc := SendingFull(packet[room..]))
  {}

  class Transmitter {
    const connection: nat -> Outcome  // how send number n will end
    const txBuffer: array<byte>
    var sends: nat
    var txBufferLen: nat
    var txQueue: seq<Packet>
    ghost var trace: seq<Event>

    ghost predicate Valid()
      reads this, txBuffer
    {
      && txBuffer.Length == TX_MAX
      && txBufferLen <= TX_MAX
      && txQueue == Model().queue
      && txBuffer[..txBufferLen] == Model().buffer
      && |Outcomes(trace)| == sends
      && forall i | 0 <= i < sends :: Outcomes(trace)[i] == connection(i)
    }

    ghost function Model(): State
      reads this
    {
      Run(trace)
    }

    constructor (connection: nat -> Outcome)
      ensures Valid() && fresh(txBuffer) && trace == []
    {
      this.connection := connection;
      sends := 0;
      txBuffer := new byte[TX_MAX](_ => 0);
      txBufferLen := 0;
      txQueue := [];
      trace := [];
    }

    ghost method Log(e: Event)
      modifies this`trace
      ensures trace == old(trace) + [e] && Model() == Step(old(Model()), e)
      ensures Outcomes(trace) == Outcomes(old(trace)) + if e.Write? then [e.outcome] else []
    {
      var _ := ExtendRun(trace, e);
      assert (trace + [e])[..|trace|] == trace;
      trace := trace + [e];
    }

    /** Copies `data` into the buffer at `at`, as memcpy does. */
    method CopyIn(at: nat, data: seq<byte>)
      requires txBuffer.Length == TX_MAX && at + |data| <= TX_MAX
      modifies txBuffer
      ensures txBuffer[..at + |data|] == old(txBuffer[..at]) + data
    {
      for i := 0 to |data|
        invariant txBuffer[..at] == old(txBuffer[..at])
        invariant txBuffer[at..at + i] == data[..i]
      {
        txBuffer[at + i] := data[i];
      }
      assert txBuffer[..at + |data|] == txBuffer[..at] + txBuffer[at..at + |data|];
    }

    /**
      A producer hands over `data`.  Nothing to send is a success without effect;
      an allocation failure or a full queue is a failure without effect.
     */
    method QueuePacket(data: Packet, mallocOk: bool) returns (status: Status)
      requires Valid()
      modifies this`txQueue, this`trace
      ensures Valid()
      ensures status == (if data == [] || (mallocOk && |old(txQueue)| < TX_QUEUE_SIZE) then OK else FAIL)
      ensures txQueue == (if status.OK? && data != [] then old(txQueue) + [data] else old(txQueue))
      ensures trace == (if status.OK? && data != [] then old(trace) + [Enqueue(data)] else old(trace))
      ensures Model().pc == old(Model().pc) && Model().taken == old(Model().taken)
      ensures Model().accepted == old(Model().accepted) + (if status.OK? && data != [] then [data] else [])
    {
      if data == [] {
        return OK;
      }
      if !mallocOk || |txQueue| >= TX_QUEUE_SIZE {
        return FAIL;
      }
      txQueue := txQueue + [data];
      Log(Enqueue(data));
      return OK;
    }

    /** The connection callback accepts a client. */
    method AcceptClient()
      requires Valid()
      modifies this`txBufferLen, this`trace
      ensures Valid() && txBufferLen == 0
      ensures trace == old(trace) + [NewClient]
    {
      txBufferLen := 0;
      Log(NewClient);
    }

    /** Other tasks run: producers queue packets and clients may come and go. */
    method Interference()
      requires Valid()
      modifies this`txBufferLen, this`txQueue, this`trace
      ensures Valid() && old(trace) <= trace
      ensures Model().pc == old(Model().pc)
      ensures Model().taken == old(Model().taken) && old(Model().accepted) <= Model().accepted
      ensures old(txQueue) <= txQueue && txBufferLen <= old(txBufferLen)
    {
      var arrivals: seq<Packet> := *;
      var reset: bool := *;
      if reset {
        AcceptClient();
      }
      for i := 0 to |arrivals|
        invariant Valid() && old(trace) <= trace
        invariant Model().pc == old(Model().pc)
        invariant Model().taken == old(Model().taken) && old(Model().accepted) <= Model().accepted
        invariant old(txQueue) <= txQueue && txBufferLen <= old(txBufferLen)
      {
        var _ := QueuePacket(arrivals[i], true);
      }
    }

    /**
      Sends the buffer.  The connection may be congested or gone, the write may fail,
      and the acknowledgement may be missing although the bytes have left.
     */
    method SendBuffer() returns (ok: bool)
      requires Valid() && Sending(Model().pc)
      modifies this`txBufferLen, this`sends, this`trace
      ensures Valid() && sends == old(sends) + 1
      ensures trace == old(trace) + [Write(connection(old(sends)))]
      ensures Model() == StepWrite(old(Model()), connection(old(sends)))
      ensures ok <==> connection(old(sends)).Sent?
      ensures txBufferLen ==
        if connection(old(sends)).Sent? || connection(old(sends)).AckTimeout? then 0 else old(txBufferLen)
    {
      var outcome := connection(sends);
      sends := sends + 1;
      Log(Write(outcome));
      if outcome.Congested? {
        return false;
      }
      if outcome.ClientGone? {
        return false;
      }
      if outcome.WriteError? {
        return false;
      }
      txBufferLen := 0;
      if outcome.AckTimeout? {
        return false;
      }
      return true;
    }

    /**
      One round of the transmit task: it takes the first packet off the queue and
      returns to waiting, having taken exactly that packet, whatever else happened.
     */
    method TaskRound()
      requires Valid() && Model().pc.Waiting? && txQueue != []
      modifies this, txBuffer
      ensures Valid() && old(trace) + [Advance] <= trace
      ensures Model().pc.Waiting?
      ensures Model().taken == old(Model().taken) + [old(txQueue)[0]]
    {
      RunConsistent(trace);
      var packet := txQueue[0];
      if |packet| <= TX_MAX - txBufferLen {
        AppendWhole(packet);
      } else {
        SendInPieces(packet);
      }
    }

    /** A packet that fits joins the buffer, which is sent if full or if nothing follows. */
    method AppendWhole(packet: Packet)
      requires Valid() && Model().pc.Waiting? && txQueue != [] && packet == txQueue[0]
      requires |packet| <= TX_MAX - txBufferLen
      modifies this, txBuffer
      ensures Valid() && old(trace) + [Advance] <= trace
      ensures Model().pc.Waiting?
      ensures Model().taken == old(Model().taken) + [packet]
    {
      txQueue := txQueue[1..];
      CopyIn(txBufferLen, packet);
      txBufferLen := txBufferLen + |packet|;
      Log(Advance);
      SendUnlessMoreComes(true);
    }

    /**
      The end of a round: the buffer goes out if nothing is left to join it, and
      after a packet that fitted also when it happens to be full.
     */
    method SendUnlessMoreComes(whole: bool)
      requires Valid() && Model().pc == (if whole then CheckFit else CheckTail)
      modifies this`txBufferLen, this`txQueue, this`sends, this`trace
      ensures Valid() && old(trace) <= trace
      ensures Model().pc.Waiting?
      ensures Model().taken == old(Model().taken)
    {
      hide Run, Outcomes;
      Interference();
      var send := (whole && TX_MAX == txBufferLen) || |txQueue| == 0;
      Log(Advance);
      if send {
        Interference();
        var _ := SendBuffer();
      }
    }

    method SendInPieces(packet: Packet)
      requires Valid() && Model().pc.Waiting? && txQueue != [] && packet == txQueue[0]
      requires |packet| > TX_MAX - txBufferLen
      modifies this, txBuffer
      ensures Valid() && old(trace) + [Advance] <= trace
      ensures Model().pc.Waiting?
      ensures Model().taken == old(Model().taken) + [packet]
    {
      var toSend := TX_MAX - txBufferLen;
      var ok := SendHead(packet, toSend);
      var data := if ok then packet[toSend..] else [];
      while |data| >= TX_MAX
        invariant Valid() && old(trace) + [Advance] <= trace
        invariant Model().pc == Remainder(data) && (data != [] ==> txBufferLen == 0)
        invariant Model().taken == old(Model().taken) + [packet]
      {
        ok := SendFull(data);
        data := if ok then data[TX_MAX..] else [];
      }
      SendTail(data);
    }

    /** Tops the buffer up with the head of the packet and sends it. */
    method SendHead(packet: Packet, toSend: nat) returns (ok: bool)
      requires Valid() && Model().pc.Waiting? && txQueue != [] && packet == txQueue[0]
      requires |packet| > TX_MAX - txBufferLen == toSend
      modifies this, txBuffer
      ensures Valid() && old(trace) + [Advance] <= trace
      ensures Model().pc == Remainder(if ok then packet[toSend..] else [])
      ensures ok ==> txBufferLen == 0
      ensures Model().taken == old(Model().taken) + [packet]
    {
      hide Run, Outcomes, Step, Receive;
      HeadStep(Model());
      txQueue := txQueue[1..];
      CopyIn(txBufferLen, packet[..toSend]);
      txBufferLen := TX_MAX;
      Log(Advance);
      Interference();
      ok := SendBuffer();
    }

    /** Fills the whole buffer from `data` and sends it. */
    method SendFull(data: seq<byte>) returns (ok: bool)
      requires Valid() && Model().pc == Remainder(data) && |data| >= TX_MAX && txBufferLen == 0
      modifies this, txBuffer
      ensures Valid() && old(trace) <= trace
      ensures Model().pc == Remainder(if ok then data[TX_MAX..] else [])
      ensures ok ==> txBufferLen == 0
      ensures Model().taken == old(Model().taken)
    {
      hide Run, Outcomes, Receive;
      Interference();
      CopyIn(0, data[..TX_MAX]);
      txBufferLen := TX_MAX;
      Log(Advance);
      Interference();
      ok := SendBuffer();
    }

    /** The last piece stays in the buffer unless the queue is empty. */
    method SendTail(data: seq<byte>)
      requires Valid() && Model().pc == Remainder(data) && |data| < TX_MAX
      requires data != [] ==> txBufferLen == 0
      modifies this, txBuffer
      ensures Valid() && old(trace) <= trace
      ensures Model().pc.Waiting?
      ensures Model().taken == old(Model().taken)
    {
      hide Run, Outcomes, Receive, StepWrite;
      Interference();
      if data != [] {
        CopyIn(0, data);
        txBufferLen := txBufferLen + |data|;
        Log(Advance);
        SendUnlessMoreComes(false);
      } else {
        Log(Advance);
      }
    }
  }
}
