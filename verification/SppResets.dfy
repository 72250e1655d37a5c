/**
  Which resets of the transmit buffer do harm.

  A client that connects empties the transmit buffer, at whatever point the task has
  reached.  This file gives the exact states in which that can break the prefix
  property, and proves both directions.
 */
module SppResets {
  import opened Sequences
  import opened SppPipeline

  ghost predicate NoResets(events: seq<Event>) {
    forall i | 0 <= i < |events| :: !events[i].NewClient?
  }

  /** Going on without resets adds no reset to a run. */
  lemma NoResetWhenExtends(bad: State -> bool, events: seq<Event>, more: seq<Event>)
    requires NoResetWhen(bad, events) && NoResets(more) && !bad(Run(events))
    ensures NoResetWhen(bad, events + [NewClient] + more)
  {
    var all := events + [NewClient] + more;
    forall i | 0 <= i < |all| && all[i].NewClient? ensures !bad(Run(all[..i])) {
      if i <= |events| {
        assert all[..i] == events[..i];
        assert i == |events| ==> events[..i] == events;
      }
    }
  }

  // ---------------------------------------------------------------------------
  // Runs that differ in the contents of their packets
  // ---------------------------------------------------------------------------

  predicate SameKind(e: Event, f: Event) {
    if e.Enqueue? && f.Enqueue? then |e.packet| == |f.packet| else e == f
  }

  /** The same events, apart from the contents of packets. */
  ghost predicate SameShape(a: seq<Event>, b: seq<Event>) {
    |a| == |b| && forall i | 0 <= i < |a| :: SameKind(a[i], b[i])
  }

  ghost predicate SameLengths(a: seq<Packet>, b: seq<Packet>) {
    |a| == |b| && forall i | 0 <= i < |a| :: |a[i]| == |b[i]|
  }

  predicate SamePc(p: Pc, q: Pc) {
    match p
    case SendingFull(rest) => q.SendingFull? && |rest| == |q.rest|
    case Remainder(rest) => q.Remainder? && |rest| == |q.rest|
    case _ => p == q
  }

  ghost predicate Alike(s: State, t: State) {
    && SamePc(s.pc, t.pc) && |s.buffer| == |t.buffer|
    && SameLengths(s.queue, t.queue) && SameLengths(s.taken, t.taken)
  }

  lemma AlikeReceive(s: State, t: State)
    requires Alike(s, t) && s.queue != []
    ensures Alike(Receive(s), Receive(t))
  {
    var a, b := Receive(s), Receive(t);
    assert |s.queue[0]| == |t.queue[0]|;
    forall i | 0 <= i < |a.taken| ensures |a.taken[i]| == |b.taken[i]| {}
  }

  lemma AlikeStep(s: State, t: State, e: Event, f: Event)
    requires Alike(s, t) && SameKind(e, f)
    ensures Alike(Step(s, e), Step(t, f))
  {
    hide Receive;
    if e.Advance? && s.pc.Waiting? && s.queue != [] {
      AlikeReceive(s, t);
    }
  }

  lemma {:induction false} RunAlike(a: seq<Event>, b: seq<Event>)
    requires SameShape(a, b)
    ensures Alike(Run(a), Run(b))
  {
    if a != [] {
      var n := |a| - 1;
      RunAlike(a[..n], b[..n]);
      AlikeStep(Run(a[..n]), Run(b[..n]), a[n], b[n]);
    }
  }

  lemma AlikeCuts(a: seq<Event>, b: seq<Event>)
    requires SameShape(a, b)
    ensures CutsPacket(Run(a)) <==> CutsPacket(Run(b))
  {
    hide Run;
    RunAlike(a, b);
  }

  lemma SameShapeResets(a: seq<Event>, b: seq<Event>)
    requires SameShape(a, b) && NoResetWhen(CutsPacket, a)
    ensures NoResetWhen(CutsPacket, b)
  {
    hide Run, CutsPacket;
    forall i | 0 <= i < |b| && b[i].NewClient? ensures !CutsPacket(Run(b[..i])) {
      assert SameKind(a[i], b[i]);
      AlikeCuts(a[..i], b[..i]);
    }
  }

  /** A packet of zeros; packet number `k` has `c` ones and twos behind them. */
  function Painted(k: nat, c: nat, number: nat, length: nat): (p: Packet)
    ensures |p| == length
    ensures forall x | 0 <= x < length :: p[x] == if number != k then 0 else if x < c then 1 else 2
  {
    seq(length, x => if number != k then 0 else if x < c then 1 else 2)
  }

  function PaintEvent(k: nat, c: nat, number: nat, e: Event): Event {
    if e.Enqueue? then Enqueue(Painted(k, c, number, |e.packet|)) else e
  }

  /** The same run with painted packets. */
  function Paint(k: nat, c: nat, events: seq<Event>): seq<Event> {
    if events == [] then []
    else
      var front := Paint(k, c, events[..|events| - 1]);
      front + [PaintEvent(k, c, |Run(front).accepted|, events[|events| - 1])]
  }

  lemma {:induction false} PaintKeepsShape(k: nat, c: nat, events: seq<Event>)
    ensures SameShape(events, Paint(k, c, events))
  {
    hide Run;
    if events != [] {
      PaintKeepsShape(k, c, events[..|events| - 1]);
    }
  }

  ghost predicate IsPainted(k: nat, c: nat, packets: seq<Packet>) {
    forall i | 0 <= i < |packets| :: packets[i] == Painted(k, c, i, |packets[i]|)
  }

  lemma {:induction false} PaintedRun(k: nat, c: nat, events: seq<Event>)
    ensures IsPainted(k, c, Run(Paint(k, c, events)).accepted)
  {
    if events != [] {
      hide Run, StepTask, StepWrite;
      var n := |events| - 1;
      var front := Paint(k, c, events[..n]);
      PaintedRun(k, c, events[..n]);
      var _ := ExtendRun(front, PaintEvent(k, c, |Run(front).accepted|, events[n]));
      StepAccepted(Run(front), PaintEvent(k, c, |Run(front).accepted|, events[n]));
    } else {
      assert Run([]) == INIT;
    }
  }

  lemma StepAccepted(s: State, e: Event)
    ensures Step(s, e).accepted == s.accepted ||
            (e.Enqueue? && Step(s, e).accepted == s.accepted + [e.packet])
  {}

  // ---------------------------------------------------------------------------
  // The packet in hand
  // ---------------------------------------------------------------------------

  /**
    What is still to be copied is the end of the packet taken last, and a buffer
    with bytes of that packet ends just before it.
   */
  ghost predicate HandMatches(s: State) {
    InHand(s.pc) != [] ==>
      && s.taken != []
      && EndOf(s.taken[|s.taken| - 1], InHand(s.pc))
      && (s.pc.SendingFull? ==> JustBefore(s.taken[|s.taken| - 1], InHand(s.pc), s.buffer))
  }

  predicate EndOf(p: Packet, rest: Packet) {
    |rest| <= |p| && p[|p| - |rest|..] == rest
  }

  predicate JustBefore(p: Packet, rest: Packet, buffer: seq<byte>) {
    buffer != [] && |rest| < |p| ==> buffer[|buffer| - 1] == p[|p| - |rest| - 1]
  }

  lemma HandMatchesReceive(s: State)
    requires Consistent(s) && s.queue != []
    ensures HandMatches(Receive(s))
  {
    var t, packet := Receive(s), s.queue[0];
    assert t.taken[|t.taken| - 1] == packet;
    if InHand(t.pc) != [] {
      var room := TX_MAX - |s.buffer|;
      assert t.buffer == s.buffer + packet[..room] && InHand(t.pc) == packet[room..];
    }
  }

  /** Filling a buffer from the rest of a packet. */
  lemma NextPiece(p: Packet, rest: Packet, n: nat)
    requires EndOf(p, rest) && 0 < n <= |rest|
    ensures EndOf(p, rest[n..]) && JustBefore(p, rest[n..], rest[..n])
  {
    var c := |p| - |rest|;
    assert p[c..][n..] == p[c + n..];
    assert p[c..][n - 1] == p[c + n - 1];
  }

  lemma HandMatchesPiece(s: State)
    requires HandMatches(s) && s.pc.Remainder? && |s.pc.rest| >= TX_MAX
    ensures HandMatches(s.(buffer := s.pc.rest[..TX_MAX], pc := SendingFull(s.pc.rest[TX_MAX..])))
  {
    hide EndOf, JustBefore;
    NextPiece(s.taken[|s.taken| - 1], s.pc.rest, TX_MAX);
  }

  lemma HandMatchesRemainder(s: State)
    requires HandMatches(s) && s.pc.Remainder?
    ensures HandMatches(StepTask(s))
  {
    hide HandMatches;
    if |s.pc.rest| >= TX_MAX {
      HandMatchesPiece(s);
    } else {
      NoHand(StepTask(s));
    }
  }

  lemma NoHand(s: State)
    requires InHand(s.pc) == []
    ensures HandMatches(s)
  {}

  lemma HandMatchesStep(s: State, e: Event)
    requires Consistent(s) && HandMatches(s)
    ensures HandMatches(Step(s, e))
  {
    hide Receive, Consistent;
    if e.Advance? && s.pc.Waiting? && s.queue != [] {
      HandMatchesReceive(s);
    } else if e.Advance? && s.pc.Remainder? {
      HandMatchesRemainder(s);
    }
  }

  lemma {:induction false} RunHandMatches(events: seq<Event>)
    ensures HandMatches(Run(events))
  {
    if events != [] {
      var n := |events| - 1;
      RunHandMatches(events[..n]);
      RunConsistent(events[..n]);
      HandMatchesStep(Run(events[..n]), events[n]);
    }
  }

  // ---------------------------------------------------------------------------
  // Counting the painted bytes
  // ---------------------------------------------------------------------------

  lemma {:induction false} SubsequenceCounts(part: seq<byte>, whole: seq<byte>, x: byte)
    requires Subsequence(part, whole)
    ensures multiset(part)[x] <= multiset(whole)[x]
    decreases |whole|
  {
    if part != [] {
      var p, w := |part| - 1, |whole| - 1;
      assert whole == whole[..w] + [whole[w]] && part == part[..p] + [part[p]];
      if Subsequence(part, whole[..w]) {
        SubsequenceCounts(part, whole[..w], x);
      } else {
        SubsequenceCounts(part[..p], whole[..w], x);
      }
    }
  }

  /** Prefixes of packets of zeros are zeros. */
  lemma {:induction false} ZeroCuts(k: nat, c: nat, cuts: seq<Packet>, packets: seq<Packet>)
    requires PrefixOfEach(cuts, packets) && IsPainted(k, c, packets) && |packets| <= k
    ensures forall i | 0 <= i < |Flatten(cuts)| :: Flatten(cuts)[i] == 0
  {
    if cuts != [] {
      var n := |cuts| - 1;
      ZeroCuts(k, c, cuts[..n], packets[..n]);
      assert cuts[n] <= packets[n] == Painted(k, c, n, |packets[n]|);
    }
  }

  lemma {:induction false} OnesOfCut(k: nat, c: nat, length: nat, cut: Packet)
    requires cut <= Painted(k, c, k, length)
    ensures multiset(cut)[1] == if |cut| < c then |cut| else c
  {
    if cut != [] {
      var n := |cut| - 1;
      OnesOfCut(k, c, length, cut[..n]);
      assert cut == cut[..n] + [cut[n]];
    }
  }

  /** Prefixes that reach a two have all the ones. */
  lemma OnesOfCuts(k: nat, c: nat, cuts: seq<Packet>, packets: seq<Packet>)
    requires PrefixOfEach(cuts, packets) && IsPainted(k, c, packets) && |packets| == k + 1
    ensures multiset(Flatten(cuts))[1] == if |cuts[k]| < c then |cuts[k]| else c
    ensures 2 in Flatten(cuts) ==> |cuts[k]| > c
  {
    hide Flatten;
    var front := Flatten(cuts[..k]);
    ZeroCuts(k, c, cuts[..k], packets[..k]);
    assert cuts == cuts[..k] + [cuts[k]];
    FlattenSnoc(cuts[..k], cuts[k]);
    assert packets[k] == Painted(k, c, k, |packets[k]|);
    OnesOfCut(k, c, |packets[k]|, cuts[k]);
    assert multiset(front)[1] == 0;
    if 2 in Flatten(cuts) {
      var i :| 0 <= i < |Flatten(cuts)| && Flatten(cuts)[i] == 2;
      assert i >= |front|;
      assert cuts[k][i - |front|] == 2;
    }
  }

  // ---------------------------------------------------------------------------
  // The prefix property
  // ---------------------------------------------------------------------------

  /**
    With some contents of the same packets, a reset now and some continuation
    without further resets, the stream is not made of prefixes.
   */
  ghost predicate ResetCanBreakStream(events: seq<Event>) {
    exists other: seq<Event>, more: seq<Event> :: SameShape(events, other) && NoResets(more)
      && Broken(Run(other + [NewClient] + more))
  }

  ghost predicate Broken(s: State) {
    !StreamOfPrefixes(Out(s), s.taken)
  }

  /** The state two steps after a reset during the send of a full buffer. */
  lemma AfterCut(events: seq<Event>) returns (more: seq<Event>, resumed: seq<byte>)
    requires CutsPacket(Run(events))
    ensures NoResets(more) && resumed != [] && resumed <= Run(events).pc.rest
    ensures var s, t := Run(events), Run(events + [NewClient] + more);
            t.taken == s.taken && Out(t) == Flatten(s.chunks) + resumed
  {
    hide Run;
    var s := Run(events);
    var t1 := ExtendRun(events, NewClient);
    var t2 := ExtendRun(events + [NewClient], Write(Sent));
    var t3 := ExtendRun(events + [NewClient] + [Write(Sent)], Advance);
    more := [Write(Sent), Advance];
    assert events + [NewClient] + more == events + [NewClient] + [Write(Sent)] + [Advance];
    resumed := t3.buffer;
    WritePending(t1, Sent);
    assert Out(t2) == Out(t1) == Flatten(s.chunks);
    assert t2.buffer == [] && t3.chunks == t2.chunks;
  }

  /** The buffer holds a one, and only twos are still to come. */
  lemma PaintedHand(k: nat, c: nat, events: seq<Event>)
    requires var s := Run(events);
             && CutsPacket(s) && IsPainted(k, c, s.taken) && |s.taken| == k + 1
             && c == |s.taken[k]| - |s.pc.rest|
    ensures multiset(Run(events).buffer)[1] > 0
    ensures forall i | 0 <= i < |Run(events).pc.rest| :: Run(events).pc.rest[i] == 2
  {
    hide Run;
    var s := Run(events);
    RunHandMatches(events);
    assert s.taken[k] == Painted(k, c, k, |s.taken[k]|);
    assert s.buffer[|s.buffer| - 1] == 1;
  }

  /** Fewer ones than the packet has are left in front of its twos. */
  lemma LostOnes(k: nat, c: nat, events: seq<Event>)
    requires var s := Run(events);
             && CutsPacket(s) && IsPainted(k, c, s.taken) && |s.taken| == k + 1
             && c == |s.taken[k]| - |s.pc.rest|
    ensures multiset(Flatten(Run(events).chunks))[1] < c
    ensures forall i | 0 <= i < |Run(events).pc.rest| :: Run(events).pc.rest[i] == 2
  {
    hide Run, Flatten, Subsequence, Painted;
    var s := Run(events);
    RunSubsequence(events);
    SubsequenceCounts(Pending(s), Flatten(s.taken), 1);
    OnesOfCuts(k, c, s.taken, s.taken);
    PaintedHand(k, c, events);
    assert multiset(Pending(s)) == multiset(Flatten(s.chunks)) + multiset(s.buffer) + multiset(s.pc.rest);
  }

  lemma PaintedCutBreaks(k: nat, c: nat, events: seq<Event>) returns (more: seq<Event>)
    requires var s := Run(events);
             && CutsPacket(s) && IsPainted(k, c, s.taken) && |s.taken| == k + 1
             && c == |s.taken[k]| - |s.pc.rest|
    ensures NoResets(more) && Broken(Run(events + [NewClient] + more))
  {
    hide Run, Flatten, Out;
    var s := Run(events);
    var resumed;
    more, resumed := AfterCut(events);
    LostOnes(k, c, events);
    var stream := Flatten(s.chunks) + resumed;
    assert resumed[0] == 2 && stream[|Flatten(s.chunks)|] == 2;
    assert multiset(resumed)[1] == 0;
    assert multiset(stream) == multiset(Flatten(s.chunks)) + multiset(resumed);
    forall cuts: seq<Packet> | PrefixOfEach(cuts, s.taken) ensures stream != Flatten(cuts) {
      OnesOfCuts(k, c, cuts, s.taken);
    }
  }

  lemma CutCanBreak(events: seq<Event>)
    requires CutsPacket(Run(events))
    ensures ResetCanBreakStream(events)
  {
    hide Run, Broken;
    var s := Run(events);
    var k := |s.taken| - 1;
    var c := |s.taken[k]| - |s.pc.rest|;
    var other := Paint(k, c, events);
    PaintKeepsShape(k, c, events);
    RunAlike(events, other);
    AlikeCuts(events, other);
    PaintedRun(k, c, events);
    RunConsistent(other);
    var u := Run(other);
    assert forall i | 0 <= i < |u.taken| :: u.taken[i] == u.accepted[i];
    var more := PaintedCutBreaks(k, c, other);
  }

  /**
    A reset in a reachable state can break the prefix property, for some contents
    and some continuation, if and only if the buffer being sent holds bytes of the
    packet in hand and the rest of that packet is still to come.
   */
  lemma ResetBreaksStreamIff(events: seq<Event>)
    requires NoResetWhen(CutsPacket, events)
    ensures ResetCanBreakStream(events) <==> CutsPacket(Run(events))
  {
    hide Run, CutsPacket, StreamOfPrefixes, Out;
    if CutsPacket(Run(events)) {
      CutCanBreak(events);
    } else {
      forall other: seq<Event>, more: seq<Event> | SameShape(events, other) && NoResets(more)
        ensures !Broken(Run(other + [NewClient] + more))
      {
        SameShapeResets(events, other);
        AlikeCuts(events, other);
        NoResetWhenExtends(CutsPacket, other, more);
        StreamIsPrefixes(other + [NewClient] + more);
      }
    }
  }

  /**
    An example: the client that connects while the first 330 bytes of a packet are
    being sent receives the tail of that packet.
   */
  lemma ResetInsidePacketLeavesGap()
    returns (events: seq<Event>)
    ensures !NoResetWhen(CutsPacket, events)
    ensures !StreamOfPrefixes(Out(Run(events)), Run(events).taken)
  {
    var head: Packet, tail: Packet := seq(TX_MAX, i => 0), [1];
    var packet := head + tail;
    events := [Enqueue(packet)];
    var s1 := INIT.(queue := [packet], accepted := [packet]);
    assert Run(events) == s1 by { assert events[..0] == []; assert Run([]) == INIT; }
    var s2 := ExtendRun(events, Advance);
    events := events + [Advance];
    assert packet[TX_MAX..] == tail;
    assert s2.pc == SendingFull(tail) && s2.taken == [packet] && s2.chunks == [];
    var cut := events;
    var s3 := ExtendRun(events, NewClient);
    events := events + [NewClient];
    var s4 := ExtendRun(events, Write(Sent));
    events := events + [Write(Sent)];
    assert s4.pc == Remainder(tail);
    var s5 := ExtendRun(events, Advance);
    events := events + [Advance];
    assert s5.buffer == tail && s5.taken == [packet];
    assert events[..2] == cut && events[2] == NewClient;
    assert Flatten(s4.chunks) == [] by {
      assert s4.chunks == [[]] && s4.chunks[..0] == [];
      assert Flatten(s4.chunks[..0]) == [];
    }
    forall cuts: seq<Packet> | PrefixOfEach(cuts, s5.taken) ensures Out(s5) != Flatten(cuts) {
      assert cuts == [] + [cuts[0]];
      FlattenSnoc([], cuts[0]);
      assert cuts[0] <= packet;
      assert Flatten(cuts) == cuts[0];
      assert packet[0] == 0 && tail[0] == 1;
      assert Out(s5) == tail;
    }
  }
}
