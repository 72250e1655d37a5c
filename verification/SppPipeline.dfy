/**
  The transmit pipeline of the Bluetooth serial port as a step machine.

  The machine has one step for every point at which the transmit task can be
  interleaved with the rest of the system: producers queueing packets and the
  connection callback emptying the transmit buffer for a new client.  `chunks`,
  `taken` and `accepted` are histories; everything else is the task's own state.
 */
module SppPipeline {
  import opened Sequences

  const TX_MAX := 330
  const TX_QUEUE_SIZE := 32

  type Packet = seq<byte>

  /** How one call of the send routine ends; only the last two let the bytes out. */
  datatype Outcome = Congested | ClientGone | WriteError | Sent | AckTimeout

  /**
    Where the task stands.  `rest` is the part of the packet in hand that has not
    been copied to the transmit buffer yet.
   */
  datatype Pc =
    | Waiting                          // blocked on the queue
    | CheckFit                         // the whole packet went into the buffer
    | SendingFull(rest: Packet)        // sending a buffer filled from a larger packet
    | Remainder(rest: Packet)          // back from that send
    | CheckTail                        // the tail of a larger packet is in the buffer
    | SendingLast                      // sending what there is at the end of a round

  datatype State = State(
    pc: Pc,
    queue: seq<Packet>,
    buffer: seq<byte>,
    chunks: seq<seq<byte>>,
    taken: seq<Packet>,
    accepted: seq<Packet>)

  datatype Event =
    | Enqueue(packet: Packet)  // a producer calls the queueing routine
    | Advance                  // the task runs up to its next interaction
    | Write(outcome: Outcome)  // the send routine returns
    | NewClient                // a client connects: the buffer is emptied

  const INIT := State(Waiting, [], [], [], [], [])

  predicate Sending(pc: Pc) {
    pc.SendingFull? || pc.SendingLast?
  }

  predicate WentOut(o: Outcome) {
    o.Sent? || o.AckTimeout?
  }

  /** A step that is not enabled leaves the state alone. */
  function Step(s: State, e: Event): State {
    match e
    case Enqueue(packet) =>
      if packet == [] || |s.queue| >= TX_QUEUE_SIZE then s
      else s.(queue := s.queue + [packet], accepted := s.accepted + [packet])
    case Advance => StepTask(s)
    case Write(outcome) => if Sending(s.pc) then StepWrite(s, outcome) else s
    case NewClient => s.(buffer := [])
  }

  function StepTask(s: State): State {
    match s.pc
    case Waiting => if s.queue == [] then s else Receive(s)
    case CheckFit => CheckBuffer(s)
    case CheckTail =>
      if s.queue == [] then s.(pc := SendingLast) else s.(pc := Waiting)
    case Remainder(rest) =>
      if |rest| >= TX_MAX then s.(buffer := rest[..TX_MAX], pc := SendingFull(rest[TX_MAX..]))
      else if rest != [] then s.(buffer := rest, pc := CheckTail)
      else s.(pc := Waiting)
    case _ => s
  }

  function Receive(s: State): State
    requires s.queue != []
  {
    var packet := s.queue[0];
    var s := s.(queue := s.queue[1..], taken := s.taken + [packet]);
    if |packet| <= TX_MAX - |s.buffer| then
      s.(buffer := s.buffer + packet, pc := CheckFit)
    else
      var room := if |s.buffer| <= TX_MAX then TX_MAX - |s.buffer| else 0;
      s.(buffer := s.buffer + packet[..room], pc := SendingFull(packet[room..]))
  }

  function CheckBuffer(s: State): State {
    if |s.buffer| == TX_MAX || s.queue == [] then s.(pc := SendingLast)
    else s.(pc := Waiting)
  }

  function StepWrite(s: State, o: Outcome): State
    requires Sending(s.pc)
  {
    var after := if WentOut(o) then s.(buffer := [], chunks := s.chunks + [s.buffer]) else s;
    match s.pc
    case SendingFull(rest) => after.(pc := Remainder(if o.Sent? then rest else []))
    case _ => after.(pc := Waiting)
  }

  function Run(events: seq<Event>): State {
    if events == [] then INIT
    else Step(Run(events[..|events| - 1]), events[|events| - 1])
  }

  /** Everything that has left the packets: written, or waiting in the buffer. */
  function Out(s: State): seq<byte> {
    Flatten(s.chunks) + s.buffer
  }

  function InHand(pc: Pc): seq<byte> {
    if pc.SendingFull? || pc.Remainder? then pc.rest else []
  }

  // ---------------------------------------------------------------------------
  // What holds in every run
  // ---------------------------------------------------------------------------

  ghost predicate Consistent(s: State) {
    && |s.buffer| <= 330
    && |s.queue| <= 32
    && s.accepted == s.taken + s.queue
    && (forall i | 0 <= i < |s.queue| :: s.queue[i] != [])
    && (s.pc.Remainder? && s.pc.rest != [] ==> s.buffer == [])
  }

  lemma ConsistentReceive(s: State)
    requires Consistent(s) && s.queue != []
    ensures Consistent(Receive(s))
  {
    assert s.taken + [s.queue[0]] + s.queue[1..] == s.taken + s.queue;
  }

  lemma ConsistentStep(s: State, e: Event)
    requires Consistent(s)
    ensures Consistent(Step(s, e))
  {
    hide Receive;
    if e.Advance? && s.pc.Waiting? && s.queue != [] {
      ConsistentReceive(s);
    }
  }

  /** Packets leave the queue in the order in which they were accepted. */
  lemma {:induction false} RunConsistent(events: seq<Event>)
    ensures Consistent(Run(events))
  {
    if events != [] {
      var n := |events| - 1;
      RunConsistent(events[..n]);
      ConsistentStep(Run(events[..n]), events[n]);
    }
  }

  // ---------------------------------------------------------------------------
  // Arbitrary send failures: each packet is delivered up to a cut
  // ---------------------------------------------------------------------------

  /** No client connects in a state with the property `bad`. */
  ghost predicate NoResetWhen(bad: State -> bool, events: seq<Event>) {
    forall i | 0 <= i < |events| && events[i].NewClient? :: !bad(Run(events[..i]))
  }

  /**
    The buffer holds bytes of the packet in hand while the rest of that packet is
    still to be copied.
   */
  predicate CutsPacket(s: State) {
    && s.pc.SendingFull? && s.pc.rest != [] && s.buffer != []
    && s.taken != [] && |s.pc.rest| < |s.taken[|s.taken| - 1]|
  }

  ghost predicate PrefixOfEach(cuts: seq<Packet>, packets: seq<Packet>) {
    |cuts| == |packets| && forall i | 0 <= i < |cuts| :: cuts[i] <= packets[i]
  }

  ghost predicate Covers(cuts: seq<Packet>, s: State) {
    && PrefixOfEach(cuts, s.taken)
    && Out(s) == Flatten(cuts)
    && (InHand(s.pc) != [] ==>
          cuts != [] && cuts[|cuts| - 1] + InHand(s.pc) == s.taken[|cuts| - 1])
  }

  /** Cutting the tail off a concatenation of prefixes leaves one. */
  lemma {:induction false} Truncate(cuts: seq<Packet>, packets: seq<Packet>, kept: seq<byte>)
    returns (shorter: seq<Packet>)
    requires PrefixOfEach(cuts, packets) && kept <= Flatten(cuts)
    ensures PrefixOfEach(shorter, packets) && Flatten(shorter) == kept
  {
    if cuts == [] {
      shorter := [];
    } else {
      var n := |cuts| - 1;
      var front := Flatten(cuts[..n]);
      if |kept| <= |front| {
        var init := Truncate(cuts[..n], packets[..n], kept);
        shorter := init + [[]];
        FlattenSnoc(init, []);
      } else {
        shorter := cuts[..n] + [kept[|front|..]];
        FlattenSnoc(cuts[..n], kept[|front|..]);
        assert kept[|front|..] <= cuts[n];
      }
    }
  }

  /** A send moves the buffer to the written bytes and may give up the packet in hand. */
  lemma WritePending(s: State, o: Outcome)
    requires Sending(s.pc)
    ensures var t := StepWrite(s, o);
            var left := o.Sent? || o.AckTimeout?;
            && Out(t) == Out(s)
            && t.buffer == (if left then [] else s.buffer)
            && Flatten(t.chunks) == (if left then Out(s) else Flatten(s.chunks))
            && InHand(t.pc) == (if o.Sent? then InHand(s.pc) else [])
  {
    if WentOut(o) {
      FlattenSnoc(s.chunks, s.buffer);
    }
  }

  lemma CoversReceive(s: State, cuts: seq<Packet>) returns (cuts': seq<Packet>)
    requires Consistent(s) && Covers(cuts, s) && s.pc.Waiting? && s.queue != []
    ensures Covers(cuts', Receive(s))
  {
    hide Flatten;
    var t := Receive(s);
    var copied := t.buffer[|s.buffer|..];
    cuts' := cuts + [copied];
    FlattenSnoc(cuts, copied);
    assert t.buffer == s.buffer + copied;
    Reassociate(Flatten(s.chunks), s.buffer, copied);
    assert copied + InHand(t.pc) == s.queue[0];
  }

  lemma CoversRemainder(s: State, cuts: seq<Packet>) returns (cuts': seq<Packet>)
    requires Consistent(s) && Covers(cuts, s) && s.pc.Remainder? && s.pc.rest != []
    ensures Covers(cuts', StepTask(s))
  {
    hide Flatten;
    var t := StepTask(s);
    var n := |cuts| - 1;
    cuts' := cuts[..n] + [cuts[n] + t.buffer];
    assert cuts == cuts[..n] + [cuts[n]];
    FlattenGrowLast(cuts[..n], cuts[n], t.buffer);
    assert t.buffer + InHand(t.pc) == s.pc.rest;
    Reassociate(cuts[n], t.buffer, InHand(t.pc));
    assert Out(s) == Flatten(s.chunks);
  }

  lemma CoversTaskStep(s: State, cuts: seq<Packet>) returns (cuts': seq<Packet>)
    requires Consistent(s) && Covers(cuts, s)
    ensures Covers(cuts', StepTask(s))
  {
    hide Flatten;
    if s.pc.Waiting? && s.queue != [] {
      cuts' := CoversReceive(s, cuts);
    } else if s.pc.Remainder? && s.pc.rest != [] {
      cuts' := CoversRemainder(s, cuts);
    } else {
      cuts' := cuts;
    }
  }

  lemma SameOut(s: State, t: State)
    requires s.chunks == t.chunks && s.buffer == t.buffer
    ensures Out(s) == Out(t)
  {}

  lemma CoversReset(s: State, cuts: seq<Packet>) returns (cuts': seq<Packet>)
    requires Consistent(s) && Covers(cuts, s) && !CutsPacket(s)
    ensures Covers(cuts', s.(buffer := []))
  {
    hide Flatten;
    if InHand(s.pc) == [] {
      cuts' := Truncate(cuts, s.taken, Flatten(s.chunks));
    } else if s.buffer == [] {
      cuts' := cuts;
    } else {
      var n := |cuts| - 1;
      assert |cuts[n] + s.pc.rest| == |s.taken[n]|;
      assert cuts[n] == [];
      FlattenSnoc(cuts[..n], []);
      assert cuts == cuts[..n] + [[]];
      assert Flatten(s.chunks) <= Out(s) == Flatten(cuts[..n]);
      var front := Truncate(cuts[..n], s.taken[..n], Flatten(s.chunks));
      cuts' := front + [[]];
      FlattenSnoc(front, []);
      assert cuts'[n] + s.pc.rest == s.taken[n];
    }
  }

  lemma CoversStep(s: State, e: Event, cuts: seq<Packet>) returns (cuts': seq<Packet>)
    requires Consistent(s) && Covers(cuts, s)
    requires e.NewClient? ==> !CutsPacket(s)
    ensures Covers(cuts', Step(s, e))
  {
    hide Flatten, StepTask, Consistent, Out, CutsPacket;
    cuts' := cuts;
    match e
    case Enqueue(_) => SameOut(s, Step(s, e));
    case Advance => cuts' := CoversTaskStep(s, cuts);
    case Write(o) => if Sending(s.pc) { WritePending(s, o); }
    case NewClient => cuts' := CoversReset(s, cuts);
  }

  lemma {:induction false} RunCovers(events: seq<Event>) returns (cuts: seq<Packet>)
    requires NoResetWhen(CutsPacket, events)
    ensures Covers(cuts, Run(events))
  {
    if events == [] {
      cuts := [];
    } else {
      var n := |events| - 1;
      assert forall i | 0 <= i < n :: events[..n][..i] == events[..i];
      var before := RunCovers(events[..n]);
      RunConsistent(events[..n]);
      cuts := CoversStep(Run(events[..n]), events[n], before);
    }
  }

  /** The stream is one prefix of each packet taken from the queue, in queue order. */
  ghost predicate StreamOfPrefixes(stream: seq<byte>, packets: seq<Packet>) {
    exists cuts: seq<Packet> :: PrefixOfEach(cuts, packets) && stream == Flatten(cuts)
  }

  /**
    Whatever the sends do, the bytes written so far followed by the bytes still in
    the buffer are one prefix of each packet taken from the queue, in queue order,
    as long as no reset cuts a packet.  `SppResets` shows that this is needed.
   */
  lemma StreamIsPrefixes(events: seq<Event>)
    requires NoResetWhen(CutsPacket, events)
    ensures StreamOfPrefixes(Out(Run(events)), Run(events).taken)
    ensures Run(events).taken <= Run(events).accepted
  {
    hide Run, Flatten, Out;
    var cuts := RunCovers(events);
    RunConsistent(events);
    assert Run(events).accepted == Run(events).taken + Run(events).queue;
  }

  lemma ExtendRun(events: seq<Event>, e: Event) returns (s: State)
    ensures s == Run(events + [e]) == Step(Run(events), e)
  {
    assert (events + [e])[..|events|] == events;
    s := Run(events + [e]);
  }

  // ---------------------------------------------------------------------------
  // Arbitrary failures and arbitrary resets: nothing repeated, nothing reordered
  // ---------------------------------------------------------------------------

  function Pending(s: State): seq<byte> {
    Out(s) + InHand(s.pc)
  }

  lemma Regroup(a: seq<byte>, b: seq<byte>, c: seq<byte>, d: seq<byte>)
    ensures a + (b + c) + d == (a + b) + (c + d)
  {}

  lemma ReceivePending(s: State)
    requires Consistent(s) && s.pc.Waiting? && s.queue != []
    ensures Receive(s).taken == s.taken + [s.queue[0]]
    ensures Pending(Receive(s)) == Pending(s) + s.queue[0]
  {
    var t, packet, w := Receive(s), s.queue[0], Flatten(s.chunks);
    var room := if |packet| <= TX_MAX - |s.buffer| then |packet| else TX_MAX - |s.buffer|;
    assert packet[..room] + packet[room..] == packet;
    assert t.buffer == s.buffer + packet[..room] && InHand(t.pc) == packet[room..];
    Regroup(w, s.buffer, packet[..room], packet[room..]);
    assert Pending(s) == w + s.buffer;
  }

  lemma RemainderPending(s: State)
    requires Consistent(s) && s.pc.Remainder?
    ensures Pending(StepTask(s)) == Pending(s)
  {
    var t := StepTask(s);
    if s.pc.rest != [] {
      assert t.buffer + InHand(t.pc) == s.pc.rest;
      assert Pending(t) == Flatten(s.chunks) + (t.buffer + InHand(t.pc));
    }
  }

  /** A step of the task only ever adds the packet it takes from the queue. */
  lemma TaskStepPending(s: State)
    requires Consistent(s)
    ensures var t := StepTask(s);
            if s.pc.Waiting? && s.queue != []
            then t.taken == s.taken + [s.queue[0]] && Pending(t) == Pending(s) + s.queue[0]
            else t.taken == s.taken && Pending(t) == Pending(s)
  {
    if s.pc.Waiting? && s.queue != [] {
      ReceivePending(s);
    } else if s.pc.Remainder? {
      RemainderPending(s);
    }
  }

  lemma SubsequenceTaskStep(s: State)
    requires Consistent(s) && Subsequence(Pending(s), Flatten(s.taken))
    ensures var t := StepTask(s); Subsequence(Pending(t), Flatten(t.taken))
  {
    hide Pending, Subsequence, Flatten, StepTask, Consistent;
    TaskStepPending(s);
    if s.pc.Waiting? && s.queue != [] {
      FlattenSnoc(s.taken, s.queue[0]);
      SubsequenceAppend(Pending(s), Flatten(s.taken), s.queue[0]);
    }
  }

  lemma SubsequenceWriteStep(s: State, o: Outcome)
    requires Sending(s.pc) && Subsequence(Pending(s), Flatten(s.taken))
    ensures var t := StepWrite(s, o); Subsequence(Pending(t), Flatten(t.taken))
  {
    hide Subsequence, Flatten, Out;
    WritePending(s, o);
    if !o.Sent? {
      assert Pending(s) == Out(s) + InHand(s.pc) + [];
      SubsequenceDrop(Out(s), InHand(s.pc), [], Flatten(s.taken));
    }
  }

  lemma SubsequenceReset(s: State)
    requires Subsequence(Pending(s), Flatten(s.taken))
    ensures Subsequence(Pending(s.(buffer := [])), Flatten(s.taken))
  {
    hide Subsequence, Flatten;
    SubsequenceDrop(Flatten(s.chunks), s.buffer, InHand(s.pc), Flatten(s.taken));
    assert Pending(s.(buffer := [])) == Flatten(s.chunks) + InHand(s.pc);
  }

  lemma SubsequenceStep(s: State, e: Event)
    requires Consistent(s) && Subsequence(Pending(s), Flatten(s.taken))
    ensures var t := Step(s, e); Subsequence(Pending(t), Flatten(t.taken))
  {
    hide Subsequence, Flatten, StepTask, StepWrite, Consistent;
    match e
    case Enqueue(_) =>
    case Advance => SubsequenceTaskStep(s);
    case Write(o) => if Sending(s.pc) { SubsequenceWriteStep(s, o); }
    case NewClient => SubsequenceReset(s);
  }

  lemma {:induction false} RunSubsequence(events: seq<Event>)
    ensures var s := Run(events); Subsequence(Pending(s), Flatten(s.taken))
  {
    if events != [] {
      var n := |events| - 1;
      RunSubsequence(events[..n]);
      RunConsistent(events[..n]);
      SubsequenceStep(Run(events[..n]), events[n]);
    }
  }

  /**
    In every run, with failures and resets at any point whatever, the delivered
    bytes are the accepted bytes with some deleted: no byte is sent twice and no
    two bytes change places.
   */
  lemma NothingRepeatedOrReordered(events: seq<Event>)
    ensures var s := Run(events); Subsequence(Flatten(s.chunks), Flatten(s.taken))
  {
    hide Subsequence, Flatten, Run;
    var s := Run(events);
    RunSubsequence(events);
    var written, rest := Flatten(s.chunks), s.buffer + InHand(s.pc);
    assert Pending(s) == written + rest + [];
    SubsequenceDrop(written, rest, [], Flatten(s.taken));
    assert written + [] == written;
  }

  // ---------------------------------------------------------------------------
  // Runs without failures
  // ---------------------------------------------------------------------------

  ghost predicate Harmless(e: Event) {
    !e.NewClient? && (e.Write? ==> e.outcome.Sent?)
  }

  ghost predicate NoFailures(events: seq<Event>) {
    forall i | 0 <= i < |events| :: Harmless(events[i])
  }

  ghost predicate Lossless(s: State) {
    && Pending(s) == Flatten(s.taken)
    && (s.pc.Waiting? && s.buffer != [] ==> s.queue != [])
    && (s.pc.Remainder? ==> s.buffer == [])
    && (s.pc.Waiting? || s.pc.CheckTail? ==> |s.buffer| < 330)
  }

  lemma LosslessTaskStep(s: State)
    requires Consistent(s) && Lossless(s)
    ensures Lossless(StepTask(s))
  {
    hide Pending, Out, Flatten;
    TaskStepPending(s);
    if s.pc.Waiting? && s.queue != [] {
      FlattenSnoc(s.taken, s.queue[0]);
    }
  }

  lemma LosslessStep(s: State, e: Event)
    requires Consistent(s) && Lossless(s) && Harmless(e)
    ensures Lossless(Step(s, e))
  {
    hide Flatten, Out, StepTask, Consistent;
    match e
    case Advance => LosslessTaskStep(s);
    case Write(o) => if Sending(s.pc) { WritePending(s, o); }
    case Enqueue(_) => SameOut(s, Step(s, e));
  }

  lemma {:induction false} RunLossless(events: seq<Event>)
    requires NoFailures(events)
    ensures Lossless(Run(events))
  {
    if events != [] {
      var n := |events| - 1;
      RunLossless(events[..n]);
      RunConsistent(events[..n]);
      assert Harmless(events[n]);
      LosslessStep(Run(events[..n]), events[n]);
    }
  }

  /**
    Without failures every byte is accounted for at all times.  The task never goes
    back to waiting with a full buffer, and whenever it blocks on an empty queue
    every accepted byte has been written.
   */
  lemma AllBytesDelivered(events: seq<Event>)
    requires NoFailures(events)
    ensures var s := Run(events);
            && Pending(s) == Flatten(s.taken)
            && (s.pc.Waiting? ==> |s.buffer| < 330)
            && (s.pc.Waiting? && s.queue == [] ==>
                  s.buffer == [] && Flatten(s.chunks) == Flatten(s.accepted))
  {
    var s := Run(events);
    RunLossless(events);
    RunConsistent(events);
    if s.pc.Waiting? && s.queue == [] {
      assert Pending(s) == Flatten(s.chunks);
      assert s.accepted == s.taken;
    }
  }

  // ---------------------------------------------------------------------------
  // Progress
  // ---------------------------------------------------------------------------

  function Cost(queue: seq<Packet>): nat {
    if queue == [] then 0 else 2 * |queue[0]| + 5 + Cost(queue[1..])
  }

  /** Steps the task can still take on its own before it blocks on an empty queue. */
  function Remaining(s: State): nat {
    Cost(s.queue) +
    match s.pc
    case Waiting => 0
    case CheckFit => 2
    case CheckTail => 2
    case SendingLast => 1
    case SendingFull(rest) => 2 * |rest| + 4
    case Remainder(rest) => 2 * |rest| + 3
  }

  predicate Blocked(s: State) {
    s.pc.Waiting? && s.queue == []
  }

  function NextOfTask(s: State): Event {
    if Sending(s.pc) then Write(Sent) else Advance
  }

  lemma TaskMakesProgress(s: State)
    requires !Blocked(s)
    ensures Remaining(Step(s, NextOfTask(s))) < Remaining(s)
    ensures Step(s, NextOfTask(s)).accepted == s.accepted
  {
    if s.pc.Waiting? {
      assert Cost(s.queue) == 2 * |s.queue[0]| + 5 + Cost(s.queue[1..]);
    }
  }

  ghost predicate OnlyTask(events: seq<Event>) {
    forall i | 0 <= i < |events| :: !events[i].Enqueue? && Harmless(events[i])
  }

  lemma {:induction false} TaskDrains(events: seq<Event>) returns (more: seq<Event>)
    ensures OnlyTask(more) && Blocked(Run(events + more))
    ensures Run(events + more).accepted == Run(events).accepted
    decreases Remaining(Run(events))
  {
    var s := Run(events);
    if Blocked(s) {
      more := [];
      assert events + more == events;
    } else {
      TaskMakesProgress(s);
      var _ := ExtendRun(events, NextOfTask(s));
      var later := TaskDrains(events + [NextOfTask(s)]);
      more := [NextOfTask(s)] + later;
      Reassociate(events, [NextOfTask(s)], later);
    }
  }

  /**
    As long as sends succeed, the task on its own always gets rid of everything
    that was accepted: no interleaving with producers leaves bytes stranded.
   */
  lemma EverythingIsEventuallyWritten(events: seq<Event>) returns (more: seq<Event>)
    requires NoFailures(events)
    ensures OnlyTask(more) && Blocked(Run(events + more))
    ensures Flatten(Run(events + more).chunks) == Flatten(Run(events).accepted)
  {
    more := TaskDrains(events);
    assert NoFailures(events + more);
    AllBytesDelivered(events + more);
  }
}
