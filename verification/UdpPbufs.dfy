/**
  Ownership of network buffers in AsyncUDP, as a step machine.

  The network thread splits a received chain and posts the fragments to a queue;
  a worker task takes them and hands each to the user's handler inside a packet
  object; handlers may copy packet objects and drop the copies whenever they like.
  The machine interleaves all of these.  A buffer is identified by its allocation.
 */
module UdpPbufs {
  import opened Sequences

  const UDP_QUEUE_SIZE := 32

  type PbufId = int

  /** The receive callback: `chain` is what is still linked behind `pb`. */
  datatype Net =
    | NetIdle
    | Splitting(chain: seq<PbufId>)
    | Posting(pb: PbufId, chain: seq<PbufId>)

  /** The worker task. `Handling` is inside the handler, `Releasing` after it. */
  datatype Worker =
    | WorkerIdle
    | Delivering(pb: PbufId)
    | Handling(pb: PbufId)
    | Releasing(pb: PbufId)

  /**
    `heap` maps every live buffer to its reference count.  `copies` holds, with
    multiplicity, the buffers of the packet objects that handlers made by copying.
    `fault` records a count touched after its buffer was freed.
   */
  datatype State = State(
    heap: map<PbufId, nat>,
    net: Net,
    queue: seq<PbufId>,
    worker: Worker,
    copies: multiset<PbufId>,
    handler: bool,
    fault: bool,
    received: seq<PbufId>,
    accepted: seq<PbufId>,
    taken: seq<PbufId>,
    handled: seq<PbufId>,
    freed: seq<PbufId>)

  datatype Event =
    | Receive(chain: seq<PbufId>)  // the stack hands over a chain of fresh buffers
    | NetStep(posted: bool)        // one step of the receive callback
    | WorkerStep                   // one step of the worker task
    | Copy(pb: PbufId)             // a packet object holding `pb` is copied
    | Destroy(pb: PbufId)          // a copy holding `pb` is destroyed
    | SetHandler(on: bool)

  const INIT := State(map[], NetIdle, [], WorkerIdle, multiset{}, false, false, [], [], [], [], [])

  function AddRef(heap: map<PbufId, nat>, pb: PbufId): map<PbufId, nat> {
    if pb in heap then heap[pb := heap[pb] + 1] else heap
  }

  function DropRef(heap: map<PbufId, nat>, pb: PbufId): map<PbufId, nat> {
    if pb !in heap then heap
    else if heap[pb] <= 1 then heap - {pb}
    else heap[pb := heap[pb] - 1]
  }

  function Ref(s: State, pb: PbufId): State {
    s.(heap := AddRef(s.heap, pb), fault := s.fault || pb !in s.heap)
  }

  function Free(s: State, pb: PbufId): State {
    s.(heap := DropRef(s.heap, pb),
       fault := s.fault || pb !in s.heap,
       freed := if pb in s.heap && HeapCount(s.heap, pb) == 1 then s.freed + [pb] else s.freed)
  }

  function HeapCount(heap: map<PbufId, nat>, pb: PbufId): nat {
    if pb in heap then heap[pb] else 0
  }

  predicate FreshChain(s: State, chain: seq<PbufId>) {
    && (forall i | 0 <= i < |chain| :: chain[i] !in s.received)
    && (forall i, j | 0 <= i < j < |chain| :: chain[i] != chain[j])
  }

  /** A step that is not enabled leaves the state alone. */
  function Step(s: State, e: Event): State {
    match e
    case Receive(chain) =>
      if s.net.NetIdle? && FreshChain(s, chain) then
        s.(heap := s.heap + (map pb | pb in chain :: 1), net := Splitting(chain), received := s.received + chain)
      else s
    case NetStep(posted) => StepNet(s, posted)
    case WorkerStep => StepWorker(s)
    case Copy(pb) =>
      if pb in s.copies || s.worker == Handling(pb) then Ref(s, pb).(copies := s.copies + multiset{pb}) else s
    case Destroy(pb) =>
      if pb in s.copies then Free(s, pb).(copies := s.copies - multiset{pb}) else s
    case SetHandler(on) => s.(handler := on)
  }

  /** A failed post frees the fragment at once; a full queue blocks the poster. */
  function StepNet(s: State, posted: bool): State {
    match s.net
    case NetIdle => s
    case Splitting(chain) =>
      if chain == [] then s.(net := NetIdle) else s.(net := Posting(chain[0], chain[1..]))
    case Posting(pb, chain) =>
      if !posted then Free(s, pb).(net := Splitting(chain))
      else if |s.queue| >= UDP_QUEUE_SIZE then s
      else s.(queue := s.queue + [pb], accepted := s.accepted + [pb], net := Splitting(chain))
  }

  /** With a handler: construct the packet, call, destroy the packet, release. */
  function StepWorker(s: State): State {
    match s.worker
    case WorkerIdle =>
      if s.queue == [] then s
      else s.(queue := s.queue[1..], taken := s.taken + [s.queue[0]], worker := Delivering(s.queue[0]))
    case Delivering(pb) =>
      if s.handler then Ref(s, pb).(worker := Handling(pb), handled := s.handled + [pb])
      else Free(s, pb).(worker := WorkerIdle)
    case Handling(pb) => Free(s, pb).(worker := Releasing(pb))
    case Releasing(pb) => Free(s, pb).(worker := WorkerIdle)
  }

  function Run(events: seq<Event>): State {
    if events == [] then INIT
    else Step(Run(events[..|events| - 1]), events[|events| - 1])
  }

  // ---------------------------------------------------------------------------
  // Reference counts equal numbers of owners
  // ---------------------------------------------------------------------------

  function NetOwns(net: Net): multiset<PbufId> {
    match net
    case NetIdle => multiset{}
    case Splitting(chain) => multiset(chain)
    case Posting(pb, chain) => multiset{pb} + multiset(chain)
  }

  /** Inside the handler the worker owns its buffer twice: directly and by the packet. */
  function WorkerOwns(worker: Worker): multiset<PbufId> {
    match worker
    case WorkerIdle => multiset{}
    case Handling(pb) => multiset{pb, pb}
    case _ => multiset{worker.pb}
  }

  function Owners(s: State): multiset<PbufId> {
    Total(NetOwns(s.net), s.queue, WorkerOwns(s.worker), s.copies)
  }

  function Total(net: multiset<PbufId>, queue: seq<PbufId>, worker: multiset<PbufId>,
                 copies: multiset<PbufId>): multiset<PbufId> {
    net + multiset(queue) + worker + copies
  }

  /**
    The books balance: every count is a number of owners, every live buffer has an
    owner, and every buffer ever received is live or has been freed, and that once.
   */
  ghost predicate Books(heap: map<PbufId, nat>, received: seq<PbufId>, freed: seq<PbufId>, owners: multiset<PbufId>) {
    forall pb: PbufId ::
      && owners[pb] == HeapCount(heap, pb)
      && (pb in heap ==> heap[pb] > 0)
      && multiset(received)[pb] == (if pb in heap then 1 else 0) + multiset(freed)[pb]
      && multiset(received)[pb] <= 1
  }

  ghost predicate Sound(s: State) {
    Books(s.heap, s.received, s.freed, Owners(s)) && !s.fault
  }

  lemma RefSound(s: State, pb: PbufId)
    requires Sound(s) && pb in Owners(s)
    ensures var t := Ref(s, pb);
            Books(t.heap, t.received, t.freed, Owners(s) + multiset{pb}) && !t.fault
  {}

  lemma FreeSound(s: State, pb: PbufId)
    requires Sound(s) && pb in Owners(s)
    ensures var t := Free(s, pb);
            Books(t.heap, t.received, t.freed, Owners(s) - multiset{pb}) && !t.fault
  {}

  lemma {:induction false} DistinctCount(chain: seq<PbufId>, pb: PbufId)
    requires forall i, j | 0 <= i < j < |chain| :: chain[i] != chain[j]
    ensures multiset(chain)[pb] == if pb in chain then 1 else 0
  {
    if chain != [] {
      assert chain == [chain[0]] + chain[1..];
      DistinctCount(chain[1..], pb);
    }
  }

  lemma ReceiveBooks(heap: map<PbufId, nat>, received: seq<PbufId>, freed: seq<PbufId>,
                     owners: multiset<PbufId>, chain: seq<PbufId>)
    requires Books(heap, received, freed, owners)
    requires forall i | 0 <= i < |chain| :: chain[i] !in received
    requires forall i, j | 0 <= i < j < |chain| :: chain[i] != chain[j]
    ensures Books(heap + (map pb | pb in chain :: 1), received + chain, freed, owners + multiset(chain))
  {
    var heap' := heap + (map pb | pb in chain :: 1);
    forall pb: PbufId
      ensures (owners + multiset(chain))[pb] == HeapCount(heap', pb)
      ensures multiset(received + chain)[pb] == (if pb in heap' then 1 else 0) + multiset(freed)[pb] <= 1
    {
      DistinctCount(chain, pb);
      assert multiset(received + chain) == multiset(received) + multiset(chain);
      assert pb in chain ==> multiset(received)[pb] == 0;
    }
  }

  // One owner leaves one of the four places, or moves from one place to the next.

  lemma NetDrops(net: multiset<PbufId>, queue: seq<PbufId>, worker: multiset<PbufId>, copies: multiset<PbufId>,
    pb: PbufId)
    ensures Total(multiset{pb} + net, queue, worker, copies) - multiset{pb} == Total(net, queue, worker, copies)
  {}

  lemma NetPosts(net: multiset<PbufId>, queue: seq<PbufId>, worker: multiset<PbufId>, copies: multiset<PbufId>,
    pb: PbufId)
    ensures Total(multiset{pb} + net, queue, worker, copies) == Total(net, queue + [pb], worker, copies)
  {}

  lemma WorkerTakes(net: multiset<PbufId>, queue: seq<PbufId>, copies: multiset<PbufId>, pb: PbufId)
    ensures Total(net, [pb] + queue, multiset{}, copies) == Total(net, queue, multiset{pb}, copies)
  {}

  lemma WorkerDrops(net: multiset<PbufId>, queue: seq<PbufId>, worker: multiset<PbufId>, copies: multiset<PbufId>,
    pb: PbufId)
    ensures Total(net, queue, worker + multiset{pb}, copies) == Total(net, queue, worker, copies) + multiset{pb}
  {}

  lemma CopyDrops(net: multiset<PbufId>, queue: seq<PbufId>, worker: multiset<PbufId>, copies: multiset<PbufId>,
    pb: PbufId)
    requires pb in copies
    ensures Total(net, queue, worker, copies) - multiset{pb} == Total(net, queue, worker, copies - multiset{pb})
  {}

  /** Unlinking a fragment or posting it hands its ownership on. */
  lemma NetOwners(s: State, posted: bool)
    ensures var t := StepNet(s, posted);
            Owners(t) == if s.net.Posting? && !posted then Owners(s) - multiset{s.net.pb} else Owners(s)
  {
    hide WorkerOwns, DropRef, Total;
    if s.net.Splitting? && s.net.chain != [] {
      assert s.net.chain == [s.net.chain[0]] + s.net.chain[1..];
      assert NetOwns(StepNet(s, posted).net) == NetOwns(s.net);
    } else if s.net.Posting? {
      if posted {
        NetPosts(multiset(s.net.chain), s.queue, WorkerOwns(s.worker), s.copies, s.net.pb);
      } else {
        NetDrops(multiset(s.net.chain), s.queue, WorkerOwns(s.worker), s.copies, s.net.pb);
      }
    }
  }

  lemma TakeOwners(s: State)
    requires s.worker.WorkerIdle?
    ensures Owners(StepWorker(s)) == Owners(s)
  {
    hide NetOwns, DropRef, AddRef, Total;
    if s.queue != [] {
      assert s.queue == [s.queue[0]] + s.queue[1..];
      WorkerTakes(NetOwns(s.net), s.queue[1..], s.copies, s.queue[0]);
    }
  }

  lemma WorkerOwners(s: State)
    requires !s.worker.WorkerIdle?
    ensures var t, one := StepWorker(s), multiset{s.worker.pb};
            Owners(t) == if s.worker.Delivering? && s.handler then Owners(s) + one else Owners(s) - one
  {
    hide NetOwns, DropRef, AddRef, Total;
    var t, pb := StepWorker(s), s.worker.pb;
    if s.worker.Delivering? && s.handler {
      assert WorkerOwns(t.worker) == WorkerOwns(s.worker) + multiset{pb};
      WorkerDrops(NetOwns(s.net), s.queue, WorkerOwns(s.worker), s.copies, pb);
    } else {
      assert WorkerOwns(s.worker) == WorkerOwns(t.worker) + multiset{pb};
      WorkerDrops(NetOwns(s.net), s.queue, WorkerOwns(t.worker), s.copies, pb);
      assert Owners(t) + multiset{pb} - multiset{pb} == Owners(t);
    }
  }

  lemma PosterIsOwner(s: State)
    requires s.net.Posting?
    ensures s.net.pb in Owners(s)
  {}

  lemma WorkerIsOwner(s: State)
    requires !s.worker.WorkerIdle?
    ensures s.worker.pb in Owners(s)
  {}

  lemma HandlerIsOwner(s: State, pb: PbufId)
    requires pb in s.copies || s.worker == Handling(pb)
    ensures pb in Owners(s)
  {}

  lemma SoundNet(s: State, posted: bool)
    requires Sound(s)
    ensures Sound(StepNet(s, posted))
  {
    hide Books, Owners, Total, HeapCount, DropRef;
    NetOwners(s, posted);
    if s.net.Posting? && !posted {
      PosterIsOwner(s);
      FreeSound(s, s.net.pb);
    }
  }

  lemma SoundWorker(s: State)
    requires Sound(s)
    ensures Sound(StepWorker(s))
  {
    hide Books, Owners, Total, HeapCount, DropRef, AddRef;
    if s.worker.WorkerIdle? {
      TakeOwners(s);
    } else {
      WorkerOwners(s);
      WorkerIsOwner(s);
      if s.worker.Delivering? && s.handler {
        RefSound(s, s.worker.pb);
      } else {
        FreeSound(s, s.worker.pb);
      }
    }
  }

  /** Copying a packet object adds an owner; destroying a copy takes one away. */
  lemma CopyOwners(s: State, e: Event)
    requires e.Copy? || (e.Destroy? && e.pb in s.copies)
    ensures Owners(s.(copies := s.copies + multiset{e.pb})) == Owners(s) + multiset{e.pb}
    ensures e.Destroy? ==> Owners(s.(copies := s.copies - multiset{e.pb})) == Owners(s) - multiset{e.pb}
  {
    hide NetOwns, WorkerOwns;
    if e.Destroy? {
      CopyDrops(NetOwns(s.net), s.queue, WorkerOwns(s.worker), s.copies, e.pb);
    }
  }

  lemma SameOwners(s: State, t: State)
    requires s.net == t.net && s.queue == t.queue && s.worker == t.worker && s.copies == t.copies
    ensures Owners(s) == Owners(t)
  {}

  lemma SoundCopy(s: State, e: Event)
    requires Sound(s) && (e.Copy? || e.Destroy?)
    requires e.pb in s.copies || (e.Copy? && s.worker == Handling(e.pb))
    ensures Sound(Step(s, e))
  {
    hide Books, HeapCount, AddRef, DropRef, Owners;
    var t := Step(s, e);
    CopyOwners(s, e);
    HandlerIsOwner(s, e.pb);
    SameOwners(t, s.(copies := t.copies));
    if e.Copy? { RefSound(s, e.pb); } else { FreeSound(s, e.pb); }
  }

  lemma SoundStep(s: State, e: Event)
    requires Sound(s)
    ensures Sound(Step(s, e))
  {
    hide Books, StepNet, StepWorker, Ref, Free;
    match e
    case Receive(chain) =>
      if s.net.NetIdle? && FreshChain(s, chain) {
        ReceiveBooks(s.heap, s.received, s.freed, Owners(s), chain);
        assert Owners(Step(s, e)) == Owners(s) + multiset(chain);
      }
    case NetStep(posted) => SoundNet(s, posted);
    case WorkerStep => SoundWorker(s);
    case Copy(pb) => if pb in s.copies || s.worker == Handling(pb) { SoundCopy(s, e); }
    case Destroy(pb) => if pb in s.copies { SoundCopy(s, e); }
    case SetHandler(on) => assert Owners(Step(s, e)) == Owners(s);
  }

  lemma {:induction false} RunSound(events: seq<Event>)
    ensures Sound(Run(events))
  {
    if events != [] {
      RunSound(events[..|events| - 1]);
      SoundStep(Run(events[..|events| - 1]), events[|events| - 1]);
    }
  }

  /**
    In every reachable state the reference count of a buffer is its number of
    owners, no freed buffer is ever touched, and a buffer is freed at most once,
    exactly when its last owner is gone.
   */
  lemma CountsAreOwners(events: seq<Event>, pb: PbufId)
    ensures var s := Run(events);
            && HeapCount(s.heap, pb) == Owners(s)[pb]
            && !s.fault
            && multiset(s.freed)[pb] <= 1
            && (pb in s.freed <==> pb in s.received && pb !in Owners(s))
  {
    RunSound(events);
    var s := Run(events);
    assert Books(s.heap, s.received, s.freed, Owners(s));
    assert multiset(s.received)[pb] == (if pb in s.heap then 1 else 0) + multiset(s.freed)[pb];
    assert pb in s.freed <==> multiset(s.freed)[pb] > 0;
    assert pb in s.received <==> multiset(s.received)[pb] > 0;
  }

  /** Once every thread is idle and every copy is gone, nothing has leaked. */
  lemma NoLeak(events: seq<Event>)
    requires var s := Run(events);
             s.net.NetIdle? && s.queue == [] && s.worker.WorkerIdle? && s.copies == multiset{}
    ensures var s := Run(events);
            s.heap == map[] && multiset(s.freed) == multiset(s.received)
  {
    RunSound(events);
    var s := Run(events);
    forall pb: PbufId ensures pb !in s.heap && multiset(s.freed)[pb] == multiset(s.received)[pb] {
      assert Owners(s)[pb] == HeapCount(s.heap, pb);
    }
  }

  // ---------------------------------------------------------------------------
  // Fragments still in the receive callback are held by nobody else
  // ---------------------------------------------------------------------------

  ghost predicate Exclusive(s: State) {
    forall pb: PbufId | pb in NetOwns(s.net) :: Owners(s)[pb] == 1
  }

  lemma ExclusiveReceive(s: State, chain: seq<PbufId>)
    requires Sound(s) && s.net.NetIdle? && FreshChain(s, chain)
    ensures Exclusive(Step(s, Receive(chain)))
  {
    var t := Step(s, Receive(chain));
    forall pb: PbufId | pb in NetOwns(t.net) ensures Owners(t)[pb] == 1 {
      DistinctCount(chain, pb);
      assert pb in chain && multiset(s.received)[pb] == 0;
      assert Owners(s)[pb] == HeapCount(s.heap, pb) == 0;
      assert Owners(t) == Owners(s) + multiset(chain);
    }
  }

  lemma ExclusiveUnlink(s: State, posted: bool)
    requires Exclusive(s) && s.net.Splitting?
    ensures Exclusive(StepNet(s, posted))
  {
    hide Owners;
    NetOwners(s, posted);
    if s.net.chain != [] {
      assert s.net.chain == [s.net.chain[0]] + s.net.chain[1..];
      assert NetOwns(StepNet(s, posted).net) == NetOwns(s.net);
    }
  }

  lemma ExclusivePost(s: State, posted: bool)
    requires Exclusive(s) && s.net.Posting?
    ensures Exclusive(StepNet(s, posted))
  {
    hide Owners, DropRef;
    NetOwners(s, posted);
    assert s.net.pb in NetOwns(s.net);
    PosterIsOwner(s);
    PosterNotLinked(s);
    forall pb: PbufId | pb in multiset(s.net.chain) ensures Owners(StepNet(s, posted))[pb] == 1 {
      assert pb in NetOwns(s.net) && pb != s.net.pb;
    }
  }

  lemma ExclusiveNet(s: State, posted: bool)
    requires Exclusive(s)
    ensures Exclusive(StepNet(s, posted))
  {
    hide Exclusive;
    match s.net
    case NetIdle =>
    case Splitting(_) => ExclusiveUnlink(s, posted);
    case Posting(_, _) => ExclusivePost(s, posted);
  }

  lemma PosterNotLinked(s: State)
    requires s.net.Posting? && Owners(s)[s.net.pb] == 1
    ensures s.net.pb !in multiset(s.net.chain)
  {}

  /** Owners that come or go elsewhere do not matter to the callback. */
  lemma ExclusiveElsewhere(s: State, t: State, pb: PbufId)
    requires Exclusive(s) && t.net == s.net && pb !in NetOwns(s.net)
    requires Owners(t) == Owners(s) + multiset{pb} || Owners(t) == Owners(s) - multiset{pb}
    ensures Exclusive(t)
  {
    hide Owners, NetOwns;
  }

  lemma ExclusiveWorker(s: State)
    requires Exclusive(s)
    ensures Exclusive(StepWorker(s))
  {
    hide DropRef, AddRef, Owners, NetOwns;
    if s.worker.WorkerIdle? {
      TakeOwners(s);
    } else {
      hide Exclusive;
      WorkerOwners(s);
      HeldOutsideNet(s, s.worker.pb);
      ExclusiveElsewhere(s, StepWorker(s), s.worker.pb);
    }
  }

  lemma HeldOutsideNet(s: State, pb: PbufId)
    requires Exclusive(s) && (pb in WorkerOwns(s.worker) || pb in s.copies)
    ensures pb !in NetOwns(s.net)
  {
    assert pb in NetOwns(s.net) ==> Owners(s)[pb] == 1;
  }

  lemma ExclusiveHandlers(s: State, e: Event)
    requires Exclusive(s) && (e.Copy? || e.Destroy? || e.SetHandler?)
    ensures Exclusive(Step(s, e))
  {
    hide DropRef, AddRef, NetOwns, Owners;
    var t := Step(s, e);
    SameOwners(t, s.(copies := t.copies));
    if !e.SetHandler? && (e.pb in s.copies || (e.Copy? && s.worker == Handling(e.pb))) {
      hide Exclusive;
      HeldOutsideNet(s, e.pb);
      CopyOwners(s, e);
      ExclusiveElsewhere(s, t, e.pb);
    }
  }

  lemma ExclusiveStep(s: State, e: Event)
    requires Sound(s) && Exclusive(s)
    ensures Exclusive(Step(s, e))
  {
    hide StepNet, StepWorker, DropRef, AddRef, Sound, Exclusive;
    match e
    case Receive(chain) =>
      if s.net.NetIdle? && FreshChain(s, chain) { ExclusiveReceive(s, chain); }
    case NetStep(posted) => ExclusiveNet(s, posted);
    case WorkerStep => ExclusiveWorker(s);
    case _ => ExclusiveHandlers(s, e);
  }

  /** This is what lets the receive callback relink its chain without a lock. */
  lemma {:induction false} ChainIsExclusive(events: seq<Event>)
    ensures Exclusive(Run(events))
  {
    if events != [] {
      ChainIsExclusive(events[..|events| - 1]);
      RunSound(events[..|events| - 1]);
      ExclusiveStep(Run(events[..|events| - 1]), events[|events| - 1]);
    }
  }

  // ---------------------------------------------------------------------------
  // Arrival order
  // ---------------------------------------------------------------------------

  function InFlight(s: State): seq<PbufId> {
    match s.net
    case NetIdle => []
    case Splitting(chain) => chain
    case Posting(pb, chain) => [pb] + chain
  }

  ghost predicate Ordered(s: State) {
    && s.accepted == s.taken + s.queue && |s.queue| <= 32
    && Subsequence(s.accepted + InFlight(s), s.received)
    && Subsequence(s.handled, s.taken)
    && (s.worker.Delivering? ==>
          s.taken != [] && s.worker.pb == s.taken[|s.taken| - 1]
          && Subsequence(s.handled, s.taken[..|s.taken| - 1]))
  }

  lemma OrderedNet(s: State, posted: bool)
    requires Ordered(s)
    ensures Ordered(StepNet(s, posted))
  {
    hide Subsequence, DropRef;
    var t := StepNet(s, posted);
    if s.net.Splitting? && s.net.chain != [] {
      assert InFlight(t) == InFlight(s);
    } else if s.net.Posting? {
      Reassociate(s.accepted, [s.net.pb], s.net.chain);
      if !posted {
        SubsequenceDrop(s.accepted, [s.net.pb], s.net.chain, s.received);
      }
    }
  }

  lemma OrderedTake(s: State)
    requires Ordered(s) && s.worker.WorkerIdle? && s.queue != []
    ensures Ordered(StepWorker(s))
  {
    hide Subsequence;
    var t := StepWorker(s);
    assert t.taken[..|s.taken|] == s.taken;
    SubsequenceExtend(s.handled, s.taken, [s.queue[0]]);
    assert s.accepted == t.taken + t.queue;
  }

  lemma OrderedWorker(s: State)
    requires Ordered(s)
    ensures Ordered(StepWorker(s))
  {
    hide Subsequence, AddRef, DropRef;
    if s.worker.WorkerIdle? && s.queue != [] {
      OrderedTake(s);
    } else if s.worker.Delivering? && s.handler {
      var n := |s.taken| - 1;
      SubsequenceAppend(s.handled, s.taken[..n], [s.worker.pb]);
      assert s.taken == s.taken[..n] + [s.worker.pb];
    }
  }

  lemma OrderedStep(s: State, e: Event)
    requires Ordered(s)
    ensures Ordered(Step(s, e))
  {
    hide Subsequence, AddRef, DropRef, StepNet, StepWorker;
    match e
    case Receive(chain) =>
      if s.net.NetIdle? && FreshChain(s, chain) {
        assert s.accepted + InFlight(s) == s.accepted;
        SubsequenceAppend(s.accepted, s.received, chain);
      }
    case NetStep(posted) => OrderedNet(s, posted);
    case WorkerStep => OrderedWorker(s);
    case _ =>
  }

  /**
    Fragments are accepted in arrival order with the rejected ones left out, the
    worker takes them in that order, and the handler sees them in that order.
   */
  lemma {:induction false} ArrivalOrder(events: seq<Event>)
    ensures Ordered(Run(events))
  {
    if events != [] {
      ArrivalOrder(events[..|events| - 1]);
      OrderedStep(Run(events[..|events| - 1]), events[|events| - 1]);
    }
  }

  /** No post fails, so a fragment can at most have to wait for room in the queue. */
  ghost predicate PostsSucceed(events: seq<Event>) {
    forall i | 0 <= i < |events| && events[i].NetStep? :: events[i].posted
  }

  lemma NothingDroppedStep(s: State, e: Event)
    requires s.accepted + InFlight(s) == s.received && (e.NetStep? ==> e.posted)
    ensures Step(s, e).accepted + InFlight(Step(s, e)) == Step(s, e).received
  {
    hide AddRef, DropRef, FreshChain;
    if e.Receive? && s.net.NetIdle? {
      assert s.accepted + InFlight(s) == s.accepted;
    } else if e.NetStep? && s.net.Posting? {
      Reassociate(s.accepted, [s.net.pb], s.net.chain);
    } else if e.NetStep? && s.net.Splitting? && s.net.chain != [] {
      assert InFlight(Step(s, e)) == InFlight(s);
    }
  }

  /** Then every fragment received has been accepted or is still in the callback. */
  lemma {:induction false} NothingDropped(events: seq<Event>)
    requires PostsSucceed(events)
    ensures Run(events).accepted + InFlight(Run(events)) == Run(events).received
  {
    if events != [] {
      NothingDropped(events[..|events| - 1]);
      NothingDroppedStep(Run(events[..|events| - 1]), events[|events| - 1]);
    }
  }

  /** Whenever the worker is about to deliver, a handler is installed. */
  ghost predicate HandlerReady(events: seq<Event>) {
    forall i | 0 <= i < |events| && events[i].WorkerStep? && Run(events[..i]).worker.Delivering? ::
      Run(events[..i]).handler
  }

  function Delivered(s: State): seq<PbufId> {
    s.handled + (if s.worker.Delivering? then [s.worker.pb] else [])
  }

  lemma HandledStep(s: State, e: Event)
    requires Delivered(s) == s.taken
    requires e.WorkerStep? && s.worker.Delivering? ==> s.handler
    ensures Delivered(Step(s, e)) == Step(s, e).taken
  {
    hide AddRef, DropRef, FreshChain;
  }

  /** With a handler in place no accepted fragment is skipped. */
  lemma {:induction false} EveryFragmentHandled(events: seq<Event>)
    requires HandlerReady(events)
    ensures Delivered(Run(events)) == Run(events).taken
  {
    if events != [] {
      var n := |events| - 1;
      assert forall i | 0 <= i < n :: events[..n][..i] == events[..i];
      EveryFragmentHandled(events[..n]);
      assert events[n].WorkerStep? && Run(events[..n]).worker.Delivering? ==> Run(events[..n]).handler;
      HandledStep(Run(events[..n]), events[n]);
    }
  }
}
