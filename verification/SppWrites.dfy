/**
  When the transmit task writes, and how much: full buffers, or what there is once
  no packet is left to join it.  What the task knew when it decided to write is
  read off the run itself.
 */
module SppWrites {
  import opened Sequences
  import opened SppPipeline
  import opened SppResets

  /** Event number `i` is a move of the task, other than the end of a send. */
  ghost predicate Moves(events: seq<Event>, i: nat)
    requires i < |events|
  {
    events[i].Advance? && Run(events[..i + 1]) != Run(events[..i])
  }

  /**
    When the task last moved, the queue was empty: it has looked at the queue then,
    and has done nothing since but wait for the send to end.
   */
  ghost predicate SawEmptyQueue(events: seq<Event>) {
    exists i: nat :: i < |events| && LastMove(events, i) && Run(events[..i]).queue == []
  }

  ghost predicate LastMove(events: seq<Event>, i: nat)
    requires i < |events|
  {
    Moves(events, i) && forall j: nat | i < j < |events| :: !Moves(events, j)
  }

  lemma MovesEarlier(events: seq<Event>, e: Event, i: nat)
    requires i < |events|
    ensures Moves(events + [e], i) <==> Moves(events, i)
  {
    var all := events + [e];
    assert all[..i] == events[..i] && all[..i + 1] == events[..i + 1];
  }

  lemma MovesNow(events: seq<Event>, e: Event)
    ensures Moves(events + [e], |events|) <==> e.Advance? && Step(Run(events), e) != Run(events)
  {
    var all := events + [e];
    var _ := ExtendRun(events, e);
    assert all[..|events|] == events && all[..|events| + 1] == all;
  }

  /** A look at an empty queue is the last move until the task moves again. */
  lemma SawEmptyQueueStep(events: seq<Event>, e: Event)
    requires e.Advance? && Step(Run(events), e) != Run(events) ==> Run(events).queue == []
    requires SawEmptyQueue(events) || (e.Advance? && Step(Run(events), e) != Run(events))
    ensures SawEmptyQueue(events + [e])
  {
    hide Run, Step, Moves;
    var all, n := events + [e], |events|;
    MovesNow(events, e);
    if Moves(all, n) {
      assert all[..n] == events;
      assert LastMove(all, n);
    } else {
      var i: nat :| i < n && LastMove(events, i) && Run(events[..i]).queue == [];
      MovesEarlier(events, e, i);
      forall j: nat | i < j < |all| ensures !Moves(all, j) {
        if j < n {
          MovesEarlier(events, e, j);
        }
      }
      assert all[..i] == events[..i] && LastMove(all, i);
    }
  }

  /** Event number `n` is a send whose bytes leave. */
  ghost predicate Writes(events: seq<Event>, n: nat)
    requires n < |events|
  {
    Run(events[..n + 1]).chunks != Run(events[..n]).chunks
  }

  /** The bytes that leave with it. */
  ghost function WrittenAt(events: seq<Event>, n: nat): seq<byte>
    requires n < |events| && Writes(events, n)
  {
    var chunks := Run(events[..n + 1]).chunks;
    if chunks == [] then [] else chunks[|chunks| - 1]
  }

  lemma WriteStep(s: State, e: Event)
    requires Step(s, e).chunks != s.chunks
    ensures Sending(s.pc) && Step(s, e).chunks == s.chunks + [s.buffer]
  {}

  /** A full buffer, or nothing, or what there is after a look at an empty queue. */
  ghost predicate WellSized(events: seq<Event>, data: seq<byte>) {
    |data| <= 330 && (0 < |data| < 330 ==> SawEmptyQueue(events))
  }

  /** The task decides to send less than a full buffer only over an empty queue. */
  lemma ShortSendOverEmptyQueue(s: State)
    requires Consistent(s) && !Sending(s.pc) && Sending(Step(s, Advance).pc)
    ensures |Step(s, Advance).buffer| == 330 || s.queue == []
  {}

  /** While a send goes on nothing moves, and the buffer is only ever emptied. */
  lemma DuringSend(s: State, e: Event)
    requires Sending(s.pc) && Sending(Step(s, e).pc)
    ensures Step(s, e).buffer == s.buffer || Step(s, e).buffer == []
    ensures e.Advance? ==> Step(s, e) == s
  {}

  lemma StartOfSend(s: State, e: Event)
    requires !Sending(s.pc) && Sending(Step(s, e).pc)
    ensures e.Advance?
  {}

  lemma {:induction false} RunSendsWellSized(events: seq<Event>)
    ensures Sending(Run(events).pc) ==> WellSized(events, Run(events).buffer)
  {
    if events != [] {
      var n := |events| - 1;
      var before, e, s := events[..n], events[n], Run(events[..n]);
      assert events == before + [e] && Run(events) == Step(s, e);
      RunSendsWellSized(before);
      RunConsistent(before);
      RunConsistent(events);
      hide Run, Step, SawEmptyQueue;
      var t := Run(events);
      if Sending(t.pc) && 0 < |t.buffer| < 330 {
        if Sending(s.pc) {
          DuringSend(s, e);
        } else {
          StartOfSend(s, e);
          ShortSendOverEmptyQueue(s);
        }
        SawEmptyQueueStep(before, e);
      }
    }
  }

  /**
    Whatever happens in a run: each write has 330 bytes, or none because a reset has
    just emptied the buffer, or less because the queue was empty when the task last
    moved.
   */
  lemma WritesFollowTheQueue(events: seq<Event>, n: nat)
    requires n < |events| && Writes(events, n)
    ensures WellSized(events[..n], WrittenAt(events, n))
  {
    assert events[..n + 1][..n] == events[..n];
    WriteStep(Run(events[..n]), events[n]);
    RunSendsWellSized(events[..n]);
  }

  // ---------------------------------------------------------------------------
  // Resets that empty a write
  // ---------------------------------------------------------------------------

  ghost predicate NoEmptyWrite(s: State) {
    forall i | 0 <= i < |s.chunks| :: s.chunks[i] != []
  }

  /** The task is sending, or about to send without another look at the buffer. */
  predicate EmptiesWrite(s: State) {
    Sending(s.pc) || ((s.pc.CheckFit? || s.pc.CheckTail?) && s.queue == [])
  }

  ghost predicate Filled(s: State) {
    && NoEmptyWrite(s)
    && (s.pc.CheckFit? || s.pc.CheckTail? ==> s.buffer != [] || s.queue != [])
    && (Sending(s.pc) ==> s.buffer != [])
  }

  lemma FilledStep(s: State, e: Event)
    requires Consistent(s) && Filled(s) && (e.NewClient? ==> !EmptiesWrite(s))
    ensures Filled(Step(s, e))
  {}

  lemma {:induction false} RunFilled(events: seq<Event>)
    requires NoResetWhen(EmptiesWrite, events)
    ensures Filled(Run(events))
  {
    if events != [] {
      var n := |events| - 1;
      assert forall i | 0 <= i < n :: events[..n][..i] == events[..i];
      RunFilled(events[..n]);
      RunConsistent(events[..n]);
      FilledStep(Run(events[..n]), events[n]);
    }
  }

  /**
    Failures or not, unless a reset empties a buffer on its way out: every write has
    between 1 and 330 bytes, and a shorter one follows a look at an empty queue.
   */
  lemma WritesAreFull(events: seq<Event>, n: nat)
    requires NoResetWhen(EmptiesWrite, events) && n < |events| && Writes(events, n)
    ensures var size := |WrittenAt(events, n)|;
            1 <= size <= 330 && (size < 330 ==> SawEmptyQueue(events[..n]))
  {
    WritesFollowTheQueue(events, n);
    assert forall i | 0 <= i < n :: events[..n + 1][..i] == events[..i];
    assert events[..n + 1][..n] == events[..n];
    RunFilled(events[..n + 1]);
    WriteStep(Run(events[..n]), events[n]);
    var chunks := Run(events[..n + 1]).chunks;
    assert chunks[|chunks| - 1] != [];
  }

  ghost predicate ResetCanEmptyWrite(events: seq<Event>) {
    exists more: seq<Event> :: NoResets(more) && !NoEmptyWrite(Run(events + [NewClient] + more))
  }

  /** A buffer emptied at such a point is written with no bytes. */
  lemma EmptiedWrite(events: seq<Event>)
    requires EmptiesWrite(Run(events))
    ensures ResetCanEmptyWrite(events)
  {
    hide Run;
    var before := events + [NewClient];
    var s := ExtendRun(events, NewClient);
    var more: seq<Event>;
    if Sending(s.pc) {
      more := [Write(Sent)];
      var t := ExtendRun(before, Write(Sent));
      assert t.chunks[|s.chunks|] == [];
    } else {
      more := [Advance, Write(Sent)];
      var t1 := ExtendRun(before, Advance);
      var t2 := ExtendRun(before + [Advance], Write(Sent));
      assert before + more == before + [Advance] + [Write(Sent)];
      assert t2.chunks[|s.chunks|] == [];
    }
  }

  /** A reset can cause an empty write if and only if it empties a buffer on its way out. */
  lemma ResetBreaksWritesIff(events: seq<Event>)
    requires NoResetWhen(EmptiesWrite, events)
    ensures ResetCanEmptyWrite(events) <==> EmptiesWrite(Run(events))
  {
    hide Run, EmptiesWrite;
    if EmptiesWrite(Run(events)) {
      EmptiedWrite(events);
    } else {
      forall more: seq<Event> | NoResets(more) ensures NoEmptyWrite(Run(events + [NewClient] + more)) {
        NoResetWhenExtends(EmptiesWrite, events, more);
        RunFilled(events + [NewClient] + more);
      }
    }
  }
}
