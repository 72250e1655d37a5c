/**
  The receive path of AsyncUDP in the form the source gives it: loops that relink
  `next`, post to a shared queue, and raise or drop reference counts.

  `Valid` says that the counts, the queue and the handler flag are what the machine
  of UdpPbufs computes from `trace`, and that only fragments still held by the
  receive callback are linked to one another.
 */
module UdpStack {
  import opened Sequences
  import opened UdpPbufs

  /** `pb` is the head of the list `chain` in the links `next`. */
  ghost predicate Linked(next: map<PbufId, Option<PbufId>>, pb: Option<PbufId>, chain: seq<PbufId>)
    decreases |chain|
  {
    if chain == [] then pb.None?
    else pb == Some(chain[0]) && chain[0] in next && Linked(next, next[chain[0]], chain[1..])
  }

  ghost function ChainOf(net: Net): seq<PbufId> {
    if net.NetIdle? then [] else net.chain
  }

  lemma {:induction false} LinkedFrame(next: map<PbufId, Option<PbufId>>, next': map<PbufId, Option<PbufId>>,
                    pb: Option<PbufId>, chain: seq<PbufId>)
    requires Linked(next, pb, chain)
    requires LinksKept(next, next', chain)
    ensures Linked(next', pb, chain)
    decreases |chain|
  {
    if chain != [] {
      var first := chain[0];
      assert first in chain && first in next;
      assert forall p | p in chain[1..] :: p in chain;
      LinkedFrame(next, next', next[chain[0]], chain[1..]);
    }
  }

  /** Fragments of the chain are still there, linked as before. */
  ghost predicate LinksKept(next: map<PbufId, Option<PbufId>>, next': map<PbufId, Option<PbufId>>, chain: seq<PbufId>) {
    forall p | p in chain && p in next :: p in next' && next'[p] == next[p]
  }

  lemma LinkedEnds(next: map<PbufId, Option<PbufId>>, pb: Option<PbufId>, chain: seq<PbufId>)
    requires Linked(next, pb, chain)
    ensures pb.None? <==> chain == []
  {}

  /** What a handler can do leaves both threads and all histories alone. */
  ghost predicate SameButCounts(s: State, t: State) {
    t == s.(heap := t.heap, copies := t.copies, freed := t.freed, fault := t.fault)
  }

  /** The fragment being posted is live and is not linked behind itself. */
  lemma PosterHolds(events: seq<Event>)
    requires Run(events).net.Posting?
    ensures var s := Run(events);
            s.net.pb in s.heap && s.heap[s.net.pb] > 0 && s.net.pb !in s.net.chain
  {
    hide Run, Owners;
    var s := Run(events);
    RunSound(events);
    ChainIsExclusive(events);
    PosterIsOwner(s);
    assert s.net.pb in NetOwns(s.net);
    PosterNotLinked(s);
    assert Owners(s)[s.net.pb] == HeapCount(s.heap, s.net.pb);
  }

  /** Whatever the worker or a copy holds is live, and no longer in the chain. */
  lemma HolderHolds(events: seq<Event>, pb: PbufId)
    requires var s := Run(events);
             (!s.worker.WorkerIdle? && s.worker.pb == pb) || pb in s.copies
    ensures var s := Run(events); pb in s.heap && s.heap[pb] > 0 && pb !in ChainOf(s.net)
  {
    hide Run;
    var s := Run(events);
    RunSound(events);
    assert Owners(s)[pb] == HeapCount(s.heap, pb);
    ChainIsExclusive(events);
    HeldOutsideNet(s, pb);
  }

  /** What the worker does leaves the receive callback alone. */
  ghost predicate SameForNet(s: State, t: State) {
    t.net == s.net && t.received == s.received && t.accepted == s.accepted
  }

  lemma ReceiveStep(s: State, chain: seq<PbufId>)
    requires s.net.NetIdle? && FreshChain(s, chain)
    ensures Step(s, Receive(chain)) == s.(heap := s.heap + (map pb | pb in chain :: 1),
                                          net := Splitting(chain), received := s.received + chain)
  {}

  lemma MapsGrow(refs: map<PbufId, nat>, next: map<PbufId, Option<PbufId>>, links: map<PbufId, Option<PbufId>>,
                 chain: seq<PbufId>)
    requires next.Keys == refs.Keys && links.Keys == set pb | pb in chain
    ensures (next + links).Keys == (refs + (map pb | pb in chain :: 1)).Keys
    ensures LinksKept(links, next + links, chain)
    ensures forall pb | pb in next + links && pb !in chain :: pb in next && (next + links)[pb] == next[pb]
  {}

  lemma ReleaseStep(s: State)
    requires !s.worker.WorkerIdle? && (s.worker.Delivering? ==> !s.handler)
    ensures var t := StepWorker(s);
            && t.heap == DropRef(s.heap, s.worker.pb)
            && SameForNet(s, t) && t.queue == s.queue && t.handler == s.handler && t.copies == s.copies
  {}

  /** The fragments of a chain that can be posted, given which attempts succeed. */
  function Posted(chain: seq<PbufId>, succeeds: nat -> bool): seq<PbufId> {
    if chain == [] then []
    else
      var n := |chain| - 1;
      Posted(chain[..n], succeeds) + if succeeds(n) then [chain[n]] else []
  }

  lemma PostedNext(done: seq<PbufId>, pb: PbufId, succeeds: nat -> bool)
    ensures Posted(done + [pb], succeeds) == Posted(done, succeeds) + if succeeds(|done|) then [pb] else []
  {
    assert (done + [pb])[..|done|] == done;
  }

  lemma {:induction false} PostedInOrder(chain: seq<PbufId>, succeeds: nat -> bool)
    ensures Subsequence(Posted(chain, succeeds), chain)
  {
    if chain != [] {
      var n := |chain| - 1;
      PostedInOrder(chain[..n], succeeds);
      assert chain == chain[..n] + [chain[n]];
      if succeeds(n) {
        SubsequenceAppend(Posted(chain[..n], succeeds), chain[..n], [chain[n]]);
      } else {
        SubsequenceExtend(Posted(chain[..n], succeeds), chain[..n], [chain[n]]);
        assert Posted(chain, succeeds) == Posted(chain[..n], succeeds);
      }
    }
  }

  class Stack {
    var refs: map<PbufId, nat>
    var next: map<PbufId, Option<PbufId>>
    var queue: seq<PbufId>
    var handler: bool
    var copies: multiset<PbufId>  // the packet objects that handlers keep
    ghost var trace: seq<Event>
    ghost var model: State

    ghost predicate Valid()
      reads this
    {
      && model == Run(trace)
      && refs == model.heap
      && queue == model.queue
      && handler == model.handler
      && copies == model.copies
      && next.Keys == refs.Keys
      && forall pb | pb in next && pb !in ChainOf(model.net) :: next[pb].None?
    }

    constructor ()
      ensures Valid() && trace == []
    {
      refs, next, queue, handler, copies := map[], map[], [], false, multiset{};
      trace, model := [], INIT;
    }

    ghost method Log(e: Event)
      modifies this`trace, this`model
      ensures trace == old(trace) + [e] && model == Step(old(model), e)
      ensures old(model == Run(trace)) ==> model == Run(trace)
    {
      assert (trace + [e])[..|trace|] == trace;
      trace, model := trace + [e], Step(model, e);
    }

    /** Installs or removes the handler. */
    method OnPacket(on: bool)
      requires Valid()
      modifies this`handler, this`trace, this`model
      ensures Valid() && trace == old(trace) + [SetHandler(on)] && handler == on
      ensures model == old(model).(handler := on)
    {
      handler := on;
      Log(SetHandler(on));
    }

    method PbufRef(pb: PbufId)
      requires pb in refs
      modifies this`refs
      ensures refs == AddRef(old(refs), pb) && refs.Keys == old(refs.Keys)
    {
      refs := refs[pb := refs[pb] + 1];
    }

    /**
      Drops one reference.  Freeing a buffer would go on to the buffer linked behind
      it, so callers must have unlinked it.
     */
    method PbufFree(pb: PbufId)
      requires pb in refs && refs[pb] > 0 && next.Keys == refs.Keys && next[pb].None?
      modifies this`refs, this`next
      ensures refs == DropRef(old(refs), pb) && next.Keys == refs.Keys
      ensures forall p | p in next :: next[p] == old(next)[p]
      ensures forall p | p in old(next) && p != pb :: p in next
    {
      if refs[pb] == 1 {
        refs := refs - {pb};
        next := next - {pb};
      } else {
        refs := refs[pb := refs[pb] - 1];
      }
    }

    /** The network stack hands over a chain of fresh buffers, each counted once. */
    method Arrive(head: Option<PbufId>, links: map<PbufId, Option<PbufId>>, chain: seq<PbufId>)
      requires Valid() && model.net.NetIdle? && FreshChain(model, chain)
      requires Linked(links, head, chain) && links.Keys == set pb | pb in chain
      modifies this`refs, this`next, this`trace, this`model
      ensures Valid() && trace == old(trace) + [Receive(chain)]
      ensures model.net == Splitting(chain) && Linked(next, head, chain)
    {
      hide Run, Step, FreshChain, Linked, LinksKept;
      ReceiveStep(model, chain);
      MapsGrow(refs, next, links, chain);
      refs := refs + (map pb | pb in chain :: 1);
      next := next + links;
      LinkedFrame(links, next, head, chain);
      Log(Receive(chain));
    }

    /**
      Queues a fragment for the worker; fails without a task or without memory.  A
      full queue blocks the callback until the worker has made room.
     */
    method TaskPost(pb: PbufId, succeeds: bool) returns (ok: bool)
      requires Valid() && model.net.Posting? && model.net.pb == pb && model.worker.WorkerIdle?
      modifies this
      ensures ok == succeeds && Valid() && old(trace) <= trace && model.worker.WorkerIdle?
      ensures !ok ==> unchanged(this)
      ensures ok ==> model.net == Splitting(old(model).net.chain)
      ensures ok ==> model.accepted == old(model).accepted + [pb]
      ensures ok ==> queue == (if |old(queue)| < UDP_QUEUE_SIZE then old(queue)
                               else old(queue)[|old(queue)| - UDP_QUEUE_SIZE + 1..]) + [pb]
      ensures LinksKept(old(next), next, old(model).net.chain)
    {
      hide Run, StepWorker;
      if !succeeds {
        return false;
      }
      AwaitRoom();
      queue := queue + [pb];
      Log(NetStep(true));
      return true;
    }

    /** A full queue gets room when the worker takes a fragment from it. */
    method AwaitRoom()
      requires Valid() && model.worker.WorkerIdle?
      modifies this
      ensures Valid() && old(trace) <= trace && model.worker.WorkerIdle?
      ensures SameForNet(old(model), model)
      ensures LinksKept(old(next), next, ChainOf(model.net))
      ensures |queue| < UDP_QUEUE_SIZE
      ensures queue == if |old(queue)| < UDP_QUEUE_SIZE then old(queue)
                       else old(queue)[|old(queue)| - UDP_QUEUE_SIZE + 1..]
    {
      hide Run;
      while |queue| >= UDP_QUEUE_SIZE
        invariant Valid() && old(trace) <= trace && model.worker.WorkerIdle?
        invariant SameForNet(old(model), model)
        invariant |queue| <= |old(queue)| && queue == old(queue)[|old(queue)| - |queue|..]
        invariant queue == old(queue) || |queue| >= UDP_QUEUE_SIZE - 1
        invariant LinksKept(old(next), next, ChainOf(model.net))
      {
        TaskRound();
      }
    }

    /** The worker runs for a while, and handlers are installed and removed. */
    method Interference()
      requires Valid() && model.worker.WorkerIdle?
      modifies this
      ensures Valid() && old(trace) <= trace && model.worker.WorkerIdle?
      ensures SameForNet(old(model), model)
      ensures LinksKept(old(next), next, ChainOf(model.net))
    {
      hide Run;
      var installs: seq<bool> := *;
      for i := 0 to |installs|
        invariant Valid() && old(trace) <= trace && model.worker.WorkerIdle?
        invariant SameForNet(old(model), model)
        invariant LinksKept(old(next), next, ChainOf(model.net))
      {
        OnPacket(installs[i]);
        if queue != [] {
          TaskRound();
        }
      }
    }

    /**
      The receive callback: splits the chain and posts every fragment, freeing those
      that cannot be posted, while the worker runs in between.
     */
    method UdpRecv(head: Option<PbufId>, ghost chain: seq<PbufId>, succeeds: nat -> bool)
      requires Valid() && model.net == Splitting(chain) && Linked(next, head, chain)
      requires model.worker.WorkerIdle?
      modifies this
      ensures Valid() && model.net.NetIdle? && old(trace) <= trace && model.worker.WorkerIdle?
      ensures model.accepted == old(model).accepted + Posted(chain, succeeds)
    {
      hide Run, StepWorker, Linked;
      var pb, count := head, 0;
      ghost var rest, done: seq<PbufId> := chain, [];
      LinkedEnds(next, pb, rest);
      while pb.Some?
        invariant Valid() && old(trace) <= trace && model.worker.WorkerIdle?
        invariant model.net == Splitting(rest) && Linked(next, pb, rest)
        invariant chain == done + rest && count == |done|
        invariant model.accepted == old(model).accepted + Posted(done, succeeds)
        decreases |rest|
      {
        ghost var thisPb := pb.value;
        LinkedEnds(next, pb, rest);
        pb := SplitOne(pb.value, rest, succeeds(count));
        PostedNext(done, thisPb, succeeds);
        count := count + 1;
        Reassociate(done, [thisPb], rest[1..]);
        rest, done := rest[1..], done + [thisPb];
      }
      LinkedEnds(next, pb, rest);
      Log(NetStep(true));
      assert done == chain;
    }

    /** One turn of the loop: unlink the fragment, then post it or free it. */
    method SplitOne(thisPb: PbufId, ghost chain: seq<PbufId>, succeeds: bool) returns (pb: Option<PbufId>)
      requires Valid() && model.net == Splitting(chain) && Linked(next, Some(thisPb), chain)
      requires model.worker.WorkerIdle?
      modifies this
      ensures Valid() && old(trace) <= trace && model.worker.WorkerIdle?
      ensures chain == [thisPb] + chain[1..]
      ensures model.net == Splitting(chain[1..]) && Linked(next, pb, chain[1..])
      ensures model.accepted == old(model).accepted + if succeeds then [thisPb] else []
    {
      hide Run, Linked, StepWorker;
      pb := Unlink(thisPb, chain);
      ghost var unlinked := next;
      Interference();
      LinkedFrame(unlinked, next, pb, chain[1..]);
      unlinked := next;
      var posted := TaskPost(thisPb, succeeds);
      if !posted {
        FreeFragment(thisPb, pb);
      } else {
        LinkedFrame(unlinked, next, pb, chain[1..]);
      }
      unlinked := next;
      Interference();
      LinkedFrame(unlinked, next, pb, chain[1..]);
    }

    /** Takes `pb` off the front of the chain it heads. */
    method Unlink(pb: PbufId, ghost chain: seq<PbufId>) returns (rest: Option<PbufId>)
      requires Valid() && model.net == Splitting(chain) && Linked(next, Some(pb), chain)
      modifies this`next, this`trace, this`model
      ensures Valid() && trace == old(trace) + [NetStep(true)]
      ensures chain == [pb] + chain[1..]
      ensures model.net == Posting(pb, chain[1..]) && Linked(next, rest, chain[1..])
      ensures model.worker == old(model).worker && model.accepted == old(model).accepted
    {
      hide Run;
      Log(NetStep(true));
      PosterHolds(trace);
      rest := next[pb];
      LinkedFrame(next, next[pb := None], rest, chain[1..]);
      next := next[pb := None];
    }

    method FreeFragment(pb: PbufId, rest: Option<PbufId>)
      requires Valid() && model.net.Posting? && model.net.pb == pb
      requires Linked(next, rest, model.net.chain)
      modifies this`refs, this`next, this`trace, this`model
      ensures Valid() && trace == old(trace) + [NetStep(false)]
      ensures model.net == Splitting(old(model).net.chain)
      ensures model.worker == old(model).worker && model.accepted == old(model).accepted
      ensures Linked(next, rest, model.net.chain)
    {
      hide Run, Linked;
      PosterHolds(trace);
      PbufFree(pb);
      Log(NetStep(false));
      LinkedFrame(old(next), next, rest, model.net.chain);
    }

    /**
      One round of the worker: it takes the next fragment and, if a handler is
      installed, wraps it in a packet object for the duration of the call.
     */
    method TaskRound()
      requires Valid() && model.worker.WorkerIdle? && queue != []
      modifies this
      ensures Valid() && old(trace) + [WorkerStep] <= trace
      ensures model.worker.WorkerIdle? && queue == old(queue)[1..]
      ensures model.taken == old(model.taken) + [old(queue)[0]]
      ensures model.handled == old(model.handled) + (if old(handler) then [old(queue)[0]] else [])
      ensures SameForNet(old(model), model) && LinksKept(old(next), next, ChainOf(model.net))
    {
      hide Run;
      var pb := queue[0];
      queue := queue[1..];
      Log(WorkerStep);
      Recv(pb);
    }

    method Recv(pb: PbufId)
      requires Valid() && model.worker == Delivering(pb)
      modifies this`refs, this`next, this`copies, this`trace, this`model
      ensures Valid() && old(trace) <= trace
      ensures model.worker.WorkerIdle? && model.taken == old(model.taken)
      ensures model.handled == old(model.handled) + (if handler then [pb] else [])
      ensures SameForNet(old(model), model) && LinksKept(old(next), next, ChainOf(model.net))
    {
      hide Run, AddRef, DropRef;
      if handler {
        HolderHolds(trace, pb);
        PbufRef(pb);
        Log(WorkerStep);
        CallHandler(pb);
        WorkerRelease(pb);
      }
      WorkerRelease(pb);
    }

    /** The worker drops one of its references: the packet object's or its own. */
    method WorkerRelease(pb: PbufId)
      requires Valid() && !model.worker.WorkerIdle? && model.worker.pb == pb
      requires model.worker.Delivering? ==> !handler
      modifies this`refs, this`next, this`trace, this`model
      ensures Valid() && trace == old(trace) + [WorkerStep] && model == StepWorker(old(model))
      ensures LinksKept(old(next), next, ChainOf(model.net))
    {
      hide Run, StepNet, StepWorker;
      HolderHolds(trace, pb);
      ReleaseStep(model);
      PbufFree(pb);
      Log(WorkerStep);
    }

    /** A handler copies the packet it was given and drops earlier copies at will. */
    method CallHandler(pb: PbufId)
      requires Valid() && model.worker == Handling(pb)
      modifies this`refs, this`next, this`copies, this`trace, this`model
      ensures Valid() && old(trace) <= trace
      ensures SameButCounts(old(model), model)
      ensures LinksKept(old(next), next, ChainOf(model.net))
    {
      var copied: seq<bool> := *;
      for i := 0 to |copied|
        invariant Valid() && old(trace) <= trace
        invariant SameButCounts(old(model), model)
        invariant LinksKept(old(next), next, ChainOf(model.net))
      {
        CopyPacket(pb);
      }
      var dropped: seq<PbufId> := *;
      for i := 0 to |dropped|
        invariant Valid() && old(trace) <= trace
        invariant SameButCounts(old(model), model)
        invariant LinksKept(old(next), next, ChainOf(model.net))
      {
        if dropped[i] in copies {
          DestroyCopy(dropped[i]);
        }
      }
    }

    /** The copy constructor shares the buffer of a live packet object. */
    method CopyPacket(pb: PbufId)
      requires Valid()
      requires pb in copies || model.worker == Handling(pb)
      modifies this`refs, this`copies, this`trace, this`model
      ensures Valid() && trace == old(trace) + [Copy(pb)]
      ensures copies == old(copies) + multiset{pb}
      ensures SameButCounts(old(model), model)
    {
      hide Run, StepNet, StepWorker;
      HolderHolds(trace, pb);
      PbufRef(pb);
      copies := copies + multiset{pb};
      Log(Copy(pb));
    }

    method DestroyCopy(pb: PbufId)
      requires Valid() && pb in copies
      modifies this`refs, this`next, this`copies, this`trace, this`model
      ensures Valid() && trace == old(trace) + [Destroy(pb)]
      ensures copies == old(copies) - multiset{pb}
      ensures SameButCounts(old(model), model)
      ensures LinksKept(old(next), next, ChainOf(model.net))
    {
      hide Run, StepNet, StepWorker;
      HolderHolds(trace, pb);
      PbufFree(pb);
      copies := copies - multiset{pb};
      Log(Destroy(pb));
    }
  }
}
