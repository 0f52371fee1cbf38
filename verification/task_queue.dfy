/** The bounded task queue of nt_cycle.c: a ring of nodes guarded by three
    semaphores, as a transition system over any number of callers.  Every
    semaphore operation, every access to a node and every move of `head` or
    `tail` is a step of its own. */
module TaskQueue {
  import opened Arithmetic

  datatype Task = Task(clientFd: int, data: nat, dataLen: int)

  /** Where a caller is: outside, or about to take the named step of one of the two calls. */
  datatype Pc =
    | Outside
    | PushWaitSlots(task: Task)
    | PushWaitMutex(task: Task)
    | PushWrite(task: Task)
    | PushAdvance(task: Task)
    | PushPostMutex(task: Task)
    | PushPostItems(task: Task)
    | PopWaitItems
    | PopWaitMutex
    | PopRead
    | PopAdvance(got: Task)
    | PopPostMutex(got: Task)
    | PopPostSlots(got: Task)

  /** The shared queue, the callers, and two histories: what `tail` and `head` have moved past. */
  datatype State = State(
    maxLength: nat, slots: nat, items: nat, mutex: nat,
    head: nat, tail: nat, nodes: seq<Task>, next: seq<nat>,
    procs: seq<Pc>, pushed: seq<Task>, popped: seq<Task>)

  /** What a step shows to the outside: a call with its argument, a return with its result, or nothing. */
  datatype Event = CallPush(task: Task) | CallPop | Silent | ReturnPush | ReturnPop(task: Task)

  // ----- creation -----

  function Ring(n: nat): seq<nat>
    requires n > 0
  {
    seq(n, i requires 0 <= i < n => (i + 1) % n)
  }

  /** The loop of task_queue_create that closes the ring. */
  method LinkRing(next: array<nat>)
    requires next.Length > 0
    modifies next
    ensures next[..] == Ring(next.Length)
  {
    var i := 0;
    while i < next.Length
      invariant i <= next.Length
      invariant forall j :: 0 <= j < i ==> next[j] == (j + 1) % next.Length
    {
      next[i] := (i + 1) % next.Length;
      i := i + 1;
    }
  }

  /** The state task_queue_create leaves, with any contents in the nodes and any number of callers. */
  ghost predicate Init(s: State)
  {
    && s.maxLength > 0 && s.slots == s.maxLength && s.items == 0 && s.mutex == 1
    && s.head == 0 && s.tail == 0 && |s.nodes| == s.maxLength && s.next == Ring(s.maxLength)
    && (forall p :: 0 <= p < |s.procs| ==> s.procs[p] == Outside)
    && s.pushed == [] && s.popped == []
  }

  // ----- steps -----

  /** A caller can take its next step: only sem_wait can block, and only on a zero counter. */
  predicate Enabled(s: State, p: nat)
    requires p < |s.procs|
  {
    match s.procs[p]
    case Outside => false
    case PushWaitSlots(_) => s.slots > 0
    case PushWaitMutex(_) => s.mutex > 0
    case PopWaitItems => s.items > 0
    case PopWaitMutex => s.mutex > 0
    case _ => true
  }

  predicate InBounds(s: State) {
    && s.head < |s.nodes| && s.tail < |s.nodes| && |s.next| == |s.nodes|
  }

  function Do(s: State, p: nat): State
    requires p < |s.procs| && Enabled(s, p) && InBounds(s)
  {
    match s.procs[p]
    case PushWaitSlots(t) => s.(slots := s.slots - 1, procs := s.procs[p := PushWaitMutex(t)])
    case PushWaitMutex(t) => s.(mutex := s.mutex - 1, procs := s.procs[p := PushWrite(t)])
    case PushWrite(t) => s.(nodes := s.nodes[s.tail := t], procs := s.procs[p := PushAdvance(t)])
    case PushAdvance(t) => s.(tail := s.next[s.tail], pushed := s.pushed + [t], procs := s.procs[p := PushPostMutex(t)])
    case PushPostMutex(t) => s.(mutex := s.mutex + 1, procs := s.procs[p := PushPostItems(t)])
    case PushPostItems(t) => s.(items := s.items + 1, procs := s.procs[p := Outside])
    case PopWaitItems => s.(items := s.items - 1, procs := s.procs[p := PopWaitMutex])
    case PopWaitMutex => s.(mutex := s.mutex - 1, procs := s.procs[p := PopRead])
    case PopRead => s.(procs := s.procs[p := PopAdvance(s.nodes[s.head])])
    case PopAdvance(t) => s.(head := s.next[s.head], popped := s.popped + [t], procs := s.procs[p := PopPostMutex(t)])
    case PopPostMutex(t) => s.(mutex := s.mutex + 1, procs := s.procs[p := PopPostSlots(t)])
    case PopPostSlots(t) => s.(slots := s.slots + 1, procs := s.procs[p := Outside])
  }

  /** The last step of a call returns, a pop with the task it has read. */
  function Shows(pc: Pc): Event {
    match pc
    case PushPostItems(_) => ReturnPush
    case PopPostSlots(t) => ReturnPop(t)
    case _ => Silent
  }

  /** A caller outside both calls may enter either; one inside takes its next step. */
  ghost predicate StepOf(s: State, p: nat, e: Event, s': State)
  {
    && p < |s.procs|
    && match e
       case CallPush(t) => s.procs[p] == Outside && s' == s.(procs := s.procs[p := PushWaitSlots(t)])
       case CallPop => s.procs[p] == Outside && s' == s.(procs := s.procs[p := PopWaitItems])
       case _ => Enabled(s, p) && InBounds(s) && e == Shows(s.procs[p]) && s' == Do(s, p)
  }

  /** Any caller may move at any time. */
  ghost predicate Next(s: State, s': State)
  {
    exists p: nat, e: Event :: StepOf(s, p, e, s')
  }

  // ----- tokens -----

  datatype Kind = HoldsMutex | HoldsSlot | HoldsItem

  /** A push holds its slot until it moves `tail`, then an item until it posts it; a pop the other way round. */
  predicate Holds(pc: Pc, k: Kind) {
    match k
    case HoldsMutex => pc.PushWrite? || pc.PushAdvance? || pc.PushPostMutex? || pc.PopRead? || pc.PopAdvance?
        || pc.PopPostMutex?
    case HoldsSlot => pc.PushWaitMutex? || pc.PushWrite? || pc.PushAdvance? || pc.PopPostMutex? || pc.PopPostSlots?
    case HoldsItem => pc.PopWaitMutex? || pc.PopRead? || pc.PopAdvance? || pc.PushPostMutex? || pc.PushPostItems?
  }

  function Count(procs: seq<Pc>, k: Kind): nat {
    if procs == [] then 0 else (if Holds(procs[0], k) then 1 else 0) + Count(procs[1..], k)
  }

  lemma {:induction false} CountUpdate(procs: seq<Pc>, p: nat, pc: Pc, k: Kind)
    requires p < |procs|
    ensures Count(procs[p := pc], k) == Count(procs, k) - (if Holds(procs[p], k) then 1 else 0)
            + (if Holds(pc, k) then 1 else 0)
    ensures Holds(procs[p], k) ==> Count(procs, k) >= 1
  {
    if p == 0 {
      assert procs[p := pc][1..] == procs[1..];
    } else {
      CountUpdate(procs[1..], p - 1, pc, k);
      assert procs[p := pc][1..] == procs[1..][p - 1 := pc];
    }
  }

  lemma {:induction false} CountZero(procs: seq<Pc>, k: Kind)
    ensures Count(procs, k) == 0 <==> forall p :: 0 <= p < |procs| ==> !Holds(procs[p], k)
  {
    if procs != [] {
      CountZero(procs[1..], k);
      assert forall p :: 1 <= p < |procs| ==> procs[p] == procs[1..][p - 1];
    }
  }

  // ----- the invariant -----

  ghost predicate Inv(s: State)
  {
    && s.maxLength > 0 && |s.nodes| == s.maxLength && s.next == Ring(s.maxLength)
    && s.tail == |s.pushed| % s.maxLength && s.head == |s.popped| % s.maxLength
    && |s.popped| <= |s.pushed| && s.popped == s.pushed[..|s.popped|]
    && (forall k :: |s.popped| <= k < |s.pushed| ==> s.nodes[k % s.maxLength] == s.pushed[k])
    && s.mutex + Count(s.procs, HoldsMutex) == 1
    && s.slots + Count(s.procs, HoldsSlot) == s.maxLength - (|s.pushed| - |s.popped|)
    && s.items + Count(s.procs, HoldsItem) == |s.pushed| - |s.popped|
    && (forall p :: 0 <= p < |s.procs| && s.procs[p].PushAdvance? ==> s.nodes[s.tail] == s.procs[p].task)
    && (forall p :: 0 <= p < |s.procs| && s.procs[p].PopAdvance? ==> s.nodes[s.head] == s.procs[p].got)
  }

  lemma {:induction false} CountTwo(procs: seq<Pc>, p: nat, q: nat, k: Kind)
    requires p < q < |procs| && Holds(procs[p], k) && Holds(procs[q], k)
    ensures Count(procs, k) >= 2
  {
    if p == 0 {
      CountZero(procs[1..], k);
      assert procs[1..][q - 1] == procs[q];
    } else {
      CountTwo(procs[1..], p - 1, q - 1, k);
    }
  }

  /** Mutual exclusion: at most one caller is between its two operations on the mutex. */
  lemma MutualExclusion(s: State, p: nat, q: nat)
    requires Inv(s) && p < |s.procs| && q < |s.procs| && Holds(s.procs[p], HoldsMutex) && Holds(s.procs[q], HoldsMutex)
    ensures p == q
  {
    if p < q {
      CountTwo(s.procs, p, q, HoldsMutex);
    } else if q < p {
      CountTwo(s.procs, q, p, HoldsMutex);
    }
  }

  lemma ModSuccessor(n: nat, i: nat)
    requires n > 0
    ensures (i % n + 1) % n == (i + 1) % n
  {
    var q, r := i / n, i % n;
    Difference(q + 1, q, n);
    if r + 1 < n {
      ModUnique(n, 0, r + 1, r + 1);
      ModUnique(n, q, r + 1, i + 1);
    } else {
      ModUnique(n, 1, 0, n);
      ModUnique(n, q + 1, 0, i + 1);
    }
  }

  lemma RingNext(n: nat, i: nat)
    requires n > 0
    ensures i % n < n && Ring(n)[i % n] == (i + 1) % n
  {
    ModSuccessor(n, i);
  }

  /** Positions less than a ring apart are different nodes. */
  lemma ModDistinct(n: nat, a: nat, b: nat)
    requires n > 0 && a < b < a + n
    ensures a % n != b % n
  {
    MulBound(b / n - a / n, n);
    Difference(b / n, a / n, n);
  }

  // ----- safety of every access -----

  /** A push that is about to write owns a node no pop has still to read. */
  lemma WriteIsSafe(s: State, p: nat)
    requires Inv(s) && p < |s.procs| && s.procs[p].PushWrite?
    ensures |s.pushed| - |s.popped| < s.maxLength
    ensures forall k :: |s.popped| <= k < |s.pushed| ==> k % s.maxLength != s.tail
  {
    CountZero(s.procs, HoldsSlot);
    forall k | |s.popped| <= k < |s.pushed|
      ensures k % s.maxLength != s.tail
    {
      ModDistinct(s.maxLength, k, |s.pushed|);
    }
  }

  /** A pop that is about to read finds the oldest task not yet popped. */
  lemma ReadIsSafe(s: State, p: nat)
    requires Inv(s) && p < |s.procs| && (s.procs[p].PopRead? || s.procs[p].PopAdvance?)
    ensures |s.popped| < |s.pushed| && s.nodes[s.head] == s.pushed[|s.popped|]
  {
    CountZero(s.procs, HoldsItem);
  }

  // ----- every step keeps the invariant -----

  lemma InitInv(s: State)
    requires Init(s)
    ensures Inv(s)
  {
    CountZero(s.procs, HoldsMutex);
    CountZero(s.procs, HoldsSlot);
    CountZero(s.procs, HoldsItem);
  }

  lemma CountsUpdate(procs: seq<Pc>, p: nat, pc: Pc)
    requires p < |procs|
    ensures forall k :: Count(procs[p := pc], k)
                     == Count(procs, k) - (if Holds(procs[p], k) then 1 else 0) + (if Holds(pc, k) then 1 else 0)
    ensures forall k :: Holds(procs[p], k) ==> Count(procs, k) >= 1
  {
    forall k
      ensures Count(procs[p := pc], k) == Count(procs, k) - (if Holds(procs[p], k) then 1 else 0)
              + (if Holds(pc, k) then 1 else 0)
      ensures Holds(procs[p], k) ==> Count(procs, k) >= 1
    {
      CountUpdate(procs, p, pc, k);
    }
  }

  lemma EnterInv(s: State, p: nat, e: Event, s': State)
    requires Inv(s) && StepOf(s, p, e, s') && (e.CallPush? || e.CallPop?)
    ensures Inv(s')
  {
    CountsUpdate(s.procs, p, s'.procs[p]);
  }

  lemma SemaphoreInv(s: State, p: nat)
    requires Inv(s) && p < |s.procs| && Enabled(s, p) && InBounds(s)
    requires !(s.procs[p].PushWrite? || s.procs[p].PushAdvance? || s.procs[p].PopRead? || s.procs[p].PopAdvance?)
    ensures Inv(Do(s, p))
  {
    CountsUpdate(s.procs, p, Do(s, p).procs[p]);
  }

  lemma WriteInv(s: State, p: nat)
    requires Inv(s) && p < |s.procs| && s.procs[p].PushWrite? && InBounds(s)
    ensures Inv(Do(s, p))
  {
    CountsUpdate(s.procs, p, Do(s, p).procs[p]);
    WriteIsSafe(s, p);
    forall q | 0 <= q < |s.procs| && q != p
      ensures !Holds(s.procs[q], HoldsMutex)
    {
      if Holds(s.procs[q], HoldsMutex) {
        MutualExclusion(s, p, q);
      }
    }
  }

  lemma PushAdvanceInv(s: State, p: nat)
    requires Inv(s) && p < |s.procs| && s.procs[p].PushAdvance? && InBounds(s)
    ensures Inv(Do(s, p))
  {
    CountsUpdate(s.procs, p, Do(s, p).procs[p]);
    RingNext(s.maxLength, |s.pushed|);
    forall q | 0 <= q < |s.procs| && q != p
      ensures !Holds(s.procs[q], HoldsMutex)
    {
      if Holds(s.procs[q], HoldsMutex) {
        MutualExclusion(s, p, q);
      }
    }
  }

  lemma ReadInv(s: State, p: nat)
    requires Inv(s) && p < |s.procs| && s.procs[p].PopRead? && InBounds(s)
    ensures Inv(Do(s, p))
  {
    CountsUpdate(s.procs, p, Do(s, p).procs[p]);
  }

  lemma PopAdvanceInv(s: State, p: nat)
    requires Inv(s) && p < |s.procs| && s.procs[p].PopAdvance? && InBounds(s)
    ensures Inv(Do(s, p))
  {
    CountsUpdate(s.procs, p, Do(s, p).procs[p]);
    RingNext(s.maxLength, |s.popped|);
    ReadIsSafe(s, p);
    forall q | 0 <= q < |s.procs| && q != p
      ensures !Holds(s.procs[q], HoldsMutex)
    {
      if Holds(s.procs[q], HoldsMutex) {
        MutualExclusion(s, p, q);
      }
    }
    assert s.popped + [s.procs[p].got] == s.pushed[..|s.popped| + 1];
  }

  lemma NextInv(s: State, s': State)
    requires Inv(s) && Next(s, s')
    ensures Inv(s')
  {
    var p: nat, e: Event :| StepOf(s, p, e, s');
    if e.CallPush? || e.CallPop? {
      EnterInv(s, p, e, s');
    } else if s.procs[p].PushWrite? {
      WriteInv(s, p);
    } else if s.procs[p].PushAdvance? {
      PushAdvanceInv(s, p);
    } else if s.procs[p].PopRead? {
      ReadInv(s, p);
    } else if s.procs[p].PopAdvance? {
      PopAdvanceInv(s, p);
    } else {
      SemaphoreInv(s, p);
    }
  }

  // ----- whole runs -----

  /** Who moved, and what it showed. */
  datatype Move = Move(caller: nat, event: Event)

  ghost predicate Run(run: seq<State>, moves: seq<Move>)
  {
    && |run| == |moves| + 1 && Init(run[0])
    && forall i, j :: 0 <= i < |moves| && j == i + 1 ==> StepOf(run[i], moves[i].caller, moves[i].event, run[j])
  }

  /** Every state of every run, under every interleaving, satisfies the invariant. */
  lemma {:induction false} RunInv(run: seq<State>, moves: seq<Move>, i: nat)
    requires Run(run, moves) && i < |run|
    ensures Inv(run[i])
  {
    hide Inv, StepOf;
    if i == 0 {
      InitInv(run[0]);
    } else {
      RunInv(run, moves, i - 1);
      assert StepOf(run[i - 1], moves[i - 1].caller, moves[i - 1].event, run[i]);
      NextInv(run[i - 1], run[i]);
    }
  }

  /** The tasks that are in the queue, oldest first. */
  function Queue(s: State): seq<Task>
    requires |s.popped| <= |s.pushed|
  {
    s.pushed[|s.popped|..]
  }

  // ----- the atomic queue -----

  /** A caller of the atomic queue: between calls, or inside one that has or has not taken effect. */
  datatype Call = Idle | Pushing(task: Task) | Pushed | Popping | Popped(task: Task)

  /** A bounded queue in which every call takes effect in one step, at some time between its start and its end. */
  datatype Fifo = Fifo(capacity: nat, queue: seq<Task>, calls: seq<Call>)

  ghost predicate AtomicPush(f: Fifo, p: nat, f': Fifo)
    requires p < |f.calls|
  {
    && f.calls[p].Pushing? && |f.queue| < f.capacity
    && f' == Fifo(f.capacity, f.queue + [f.calls[p].task], f.calls[p := Pushed])
  }

  ghost predicate AtomicPop(f: Fifo, p: nat, f': Fifo)
    requires p < |f.calls|
  {
    f.calls[p].Popping? && f.queue != [] && f' == Fifo(f.capacity, f.queue[1..], f.calls[p := Popped(f.queue[0])])
  }

  ghost predicate AtomicStep(f: Fifo, p: nat, e: Event, f': Fifo) {
    && p < |f.calls|
    && match e
       case CallPush(t) => f.calls[p] == Idle && f' == f.(calls := f.calls[p := Pushing(t)])
       case CallPop => f.calls[p] == Idle && f' == f.(calls := f.calls[p := Popping])
       case ReturnPush => f.calls[p] == Pushed && f' == f.(calls := f.calls[p := Idle])
       case ReturnPop(t) => f.calls[p] == Popped(t) && f' == f.(calls := f.calls[p := Idle])
       case Silent => f' == f || AtomicPush(f, p, f') || AtomicPop(f, p, f')
  }

  function CallOf(pc: Pc): Call {
    match pc
    case Outside => Idle
    case PushWaitSlots(t) => Pushing(t)
    case PushWaitMutex(t) => Pushing(t)
    case PushWrite(t) => Pushing(t)
    case PushAdvance(t) => Pushing(t)
    case PushPostMutex(_) => Pushed
    case PushPostItems(_) => Pushed
    case PopPostMutex(t) => Popped(t)
    case PopPostSlots(t) => Popped(t)
    case _ => Popping
  }

  function CallsOf(procs: seq<Pc>): (calls: seq<Call>)
    ensures |calls| == |procs| && forall p :: 0 <= p < |procs| ==> calls[p] == CallOf(procs[p])
  {
    seq(|procs|, p requires 0 <= p < |procs| => CallOf(procs[p]))
  }

  function AsFifo(s: State): Fifo
    requires |s.popped| <= |s.pushed|
  {
    Fifo(s.maxLength, Queue(s), CallsOf(s.procs))
  }

  lemma CallsUpdate(procs: seq<Pc>, p: nat, pc: Pc)
    requires p < |procs|
    ensures CallsOf(procs[p := pc]) == CallsOf(procs)[p := CallOf(pc)]
    ensures CallOf(pc) == CallOf(procs[p]) ==> CallsOf(procs[p := pc]) == CallsOf(procs)
  {
  }

  /** The steps that do not move `head` or `tail`. */
  lemma OtherStep(s: State, p: nat, e: Event, s': State)
    requires Inv(s) && StepOf(s, p, e, s') && !s.procs[p].PushAdvance? && !s.procs[p].PopAdvance?
    ensures s'.pushed == s.pushed && s'.popped == s.popped && s'.maxLength == s.maxLength
    ensures AtomicStep(AsFifo(s), p, e, AsFifo(s'))
  {
    hide Inv, CallsOf;
    CallsUpdate(s.procs, p, s'.procs[p]);
  }

  lemma RoomFor(s: State)
    requires Inv(s)
    ensures |s.popped| <= |s.pushed| && |Queue(s)| <= s.maxLength
  {
  }

  lemma PushTakesEffect(s: State, p: nat)
    requires Inv(s) && p < |s.procs| && s.procs[p].PushAdvance? && InBounds(s)
    ensures AtomicPush(AsFifo(s), p, AsFifo(Do(s, p)))
  {
    hide CallsOf, Ring;
    CallsUpdate(s.procs, p, PushPostMutex(s.procs[p].task));
    CountZero(s.procs, HoldsSlot);
    assert Queue(Do(s, p)) == Queue(s) + [s.procs[p].task];
  }

  lemma PopTakesEffect(s: State, p: nat)
    requires Inv(s) && p < |s.procs| && s.procs[p].PopAdvance? && InBounds(s)
    ensures |s.popped| < |s.pushed| && s.procs[p].got == Queue(s)[0] && AtomicPop(AsFifo(s), p, AsFifo(Do(s, p)))
  {
    hide CallsOf, Ring;
    CallsUpdate(s.procs, p, PopPostMutex(s.procs[p].got));
    ReadIsSafe(s, p);
  }

  /** The ring refines the atomic bounded queue, with the same calls and returns: a push takes effect, with the task
      it was called with, when it moves `tail`, and there is room then; a pop takes effect when it moves `head`, and
      what it returns is the oldest task then; no other step changes the queue. */
  lemma StepRefinesFifo(s: State, p: nat, e: Event, s': State)
    requires Inv(s) && StepOf(s, p, e, s')
    ensures Inv(s') && |Queue(s')| <= s'.maxLength == s.maxLength
    ensures AtomicStep(AsFifo(s), p, e, AsFifo(s'))
    ensures match s.procs[p]
            case PushAdvance(t) => AtomicPush(AsFifo(s), p, AsFifo(s')) && s'.pushed == s.pushed + [t]
                && s'.popped == s.popped
            case PopAdvance(t) => AtomicPop(AsFifo(s), p, AsFifo(s')) && s'.popped == s.popped + [t]
                && s'.pushed == s.pushed && |s.popped| < |s.pushed| && t == Queue(s)[0]
            case _ => s'.pushed == s.pushed && s'.popped == s.popped
  {
    hide Inv, CallsOf;
    assert Next(s, s');
    NextInv(s, s');
    RoomFor(s');
    if s.procs[p].PushAdvance? {
      PushTakesEffect(s, p);
    } else if s.procs[p].PopAdvance? {
      PopTakesEffect(s, p);
    } else {
      OtherStep(s, p, e, s');
    }
  }

  /** Any run of the ring is, by calls and returns, a run of the atomic queue. */
  lemma RunRefinesFifo(run: seq<State>, moves: seq<Move>, i: nat)
    requires Run(run, moves) && i < |moves|
    ensures Inv(run[0]) && AsFifo(run[0]) == Fifo(run[0].maxLength, [], seq(|run[0].procs|, _ => Idle))
    ensures Inv(run[i]) && Inv(run[i + 1])
    ensures AtomicStep(AsFifo(run[i]), moves[i].caller, moves[i].event, AsFifo(run[i + 1]))
  {
    RunInv(run, moves, 0);
    RunInv(run, moves, i);
    StepRefinesFifo(run[i], moves[i].caller, moves[i].event, run[i + 1]);
  }

  // ----- what each call did -----

  /** Caller `p` made the call at `c`, has shown nothing since, and has moved neither end of the queue since then,
      other than at `k`. */
  ghost predicate Since(run: seq<State>, moves: seq<Move>, p: nat, call: Event, c: nat, k: nat, i: nat) {
    && c < i <= |moves| && |run| == |moves| + 1 && moves[c] == Move(p, call)
    && forall j :: c < j < i && moves[j].caller == p ==>
         && moves[j].event == Silent
         && (j != k ==> run[j + 1].pushed == run[j].pushed && run[j + 1].popped == run[j].popped)
  }

  /** The push called at `c` with the task put it at the end of the queue, once, at `k`. */
  ghost predicate Put(run: seq<State>, moves: seq<Move>, p: nat, t: Task, c: nat, k: nat, i: nat) {
    && Since(run, moves, p, CallPush(t), c, k, i) && c < k < i && moves[k].caller == p
    && run[k + 1].pushed == run[k].pushed + [t] && run[k + 1].popped == run[k].popped
  }

  /** The pop called at `c` took the task, the oldest one, from the front of the queue, once, at `k`. */
  ghost predicate Took(run: seq<State>, moves: seq<Move>, p: nat, t: Task, c: nat, k: nat, i: nat) {
    && Since(run, moves, p, CallPop, c, k, i) && c < k < i && moves[k].caller == p
    && |run[k].popped| < |run[k].pushed| && t == Queue(run[k])[0]
    && run[k + 1].popped == run[k].popped + [t] && run[k + 1].pushed == run[k].pushed
  }

  /** What caller `p` has done in the call it is in before step `i`. */
  ghost predicate Explained(run: seq<State>, moves: seq<Move>, p: nat, call: Call, i: nat) {
    match call
    case Idle => true
    case Pushing(t) => exists c: nat :: Since(run, moves, p, CallPush(t), c, c, i)
    case Pushed => exists t: Task, c: nat, k: nat :: Put(run, moves, p, t, c, k, i)
    case Popping => exists c: nat :: Since(run, moves, p, CallPop, c, c, i)
    case Popped(t) => exists c: nat, k: nat :: Took(run, moves, p, t, c, k, i)
  }

  lemma SinceStill(run: seq<State>, moves: seq<Move>, p: nat, call: Event, c: nat, k: nat, i: nat)
    requires Since(run, moves, p, call, c, k, i) && i < |moves|
    requires moves[i].caller == p ==>
               moves[i].event == Silent && run[i + 1].pushed == run[i].pushed && run[i + 1].popped == run[i].popped
    ensures Since(run, moves, p, call, c, k, i + 1)
  {
  }

  /** A step in which nothing happens to the call. */
  lemma ExplainedStill(run: seq<State>, moves: seq<Move>, p: nat, call: Call, i: nat)
    requires Run(run, moves) && i < |moves| && Explained(run, moves, p, call, i)
    requires moves[i].caller == p ==>
               moves[i].event == Silent && run[i + 1].pushed == run[i].pushed && run[i + 1].popped == run[i].popped
    ensures Explained(run, moves, p, call, i + 1)
  {
    hide Run, Queue, Since;
    match call
    case Idle =>
    case Pushing(t) =>
      var c: nat :| Since(run, moves, p, CallPush(t), c, c, i);
      SinceStill(run, moves, p, CallPush(t), c, c, i);
    case Pushed =>
      var t: Task, c: nat, k: nat :| Put(run, moves, p, t, c, k, i);
      SinceStill(run, moves, p, CallPush(t), c, k, i);
      assert Put(run, moves, p, t, c, k, i + 1);
    case Popping =>
      var c: nat :| Since(run, moves, p, CallPop, c, c, i);
      SinceStill(run, moves, p, CallPop, c, c, i);
    case Popped(t) =>
      var c: nat, k: nat :| Took(run, moves, p, t, c, k, i);
      SinceStill(run, moves, p, CallPop, c, k, i);
      assert Took(run, moves, p, t, c, k, i + 1);
  }

  lemma NothingToExplain(run: seq<State>, moves: seq<Move>, p: nat, i: nat)
    ensures Explained(run, moves, p, Idle, i)
  {
  }

  lemma RunStep(run: seq<State>, moves: seq<Move>, i: nat)
    requires Run(run, moves) && i < |moves|
    ensures |run| == |moves| + 1 && StepOf(run[i], moves[i].caller, moves[i].event, run[i + 1])
  {
  }

  lemma ProcsAfter(s: State, p: nat, e: Event, s': State, q: nat)
    requires StepOf(s, p, e, s') && q < |s.procs|
    ensures |s'.procs| == |s.procs| && (q != p ==> s'.procs[q] == s.procs[q])
    ensures q == p && e == Silent && !s.procs[p].PushAdvance? && !s.procs[p].PopAdvance? ==>
              CallOf(s'.procs[p]) == CallOf(s.procs[p])
    ensures s.procs[p].PushAdvance? ==> e == Silent && CallOf(s'.procs[p]) == Pushed
    ensures s.procs[p].PopAdvance? ==> e == Silent && CallOf(s'.procs[p]) == Popped(s.procs[p].got)
    ensures e.CallPush? ==> CallOf(s'.procs[p]) == Pushing(e.task)
    ensures e.CallPop? ==> CallOf(s'.procs[p]) == Popping
    ensures e.ReturnPush? || e.ReturnPop? ==> CallOf(s'.procs[p]) == Idle
  {
  }

  /** The step with which a call takes effect. */
  lemma EffectExplained(run: seq<State>, moves: seq<Move>, p: nat, i: nat)
    requires Run(run, moves) && i < |moves| && p < |run[i].procs| && Inv(run[i]) && moves[i].caller == p
    requires run[i].procs[p].PushAdvance? || run[i].procs[p].PopAdvance?
    requires Explained(run, moves, p, CallOf(run[i].procs[p]), i)
    ensures p < |run[i + 1].procs| && Explained(run, moves, p, CallOf(run[i + 1].procs[p]), i + 1)
  {
    hide Inv, Run, StepOf, AtomicStep;
    RunStep(run, moves, i);
    var s, e, s' := run[i], moves[i].event, run[i + 1];
    StepRefinesFifo(s, p, e, s');
    ProcsAfter(s, p, e, s', p);
    if s.procs[p].PushAdvance? {
      var t := s.procs[p].task;
      var c: nat :| Since(run, moves, p, CallPush(t), c, c, i);
      assert Put(run, moves, p, t, c, i, i + 1);
    } else {
      var t := s.procs[p].got;
      var c: nat :| Since(run, moves, p, CallPop, c, c, i);
      assert Took(run, moves, p, t, c, i, i + 1);
    }
  }

  lemma StepExplained(run: seq<State>, moves: seq<Move>, p: nat, i: nat)
    requires Run(run, moves) && i < |moves| && p < |run[i].procs| && Inv(run[i])
    requires Explained(run, moves, p, CallOf(run[i].procs[p]), i)
    ensures |run[i + 1].procs| == |run[i].procs|
    ensures Explained(run, moves, p, CallOf(run[i + 1].procs[p]), i + 1)
  {
    hide Inv, Run, StepOf, AtomicStep, Put, Took, Queue, CallOf;
    RunStep(run, moves, i);
    var s, e, s' := run[i], moves[i].event, run[i + 1];
    ProcsAfter(s, moves[i].caller, e, s', p);
    if moves[i].caller != p {
      ExplainedStill(run, moves, p, CallOf(s.procs[p]), i);
    } else if e.CallPush? || e.CallPop? {
      assert Since(run, moves, p, e, i, i, i + 1);
    } else if e == Silent {
      if s.procs[p].PushAdvance? || s.procs[p].PopAdvance? {
        EffectExplained(run, moves, p, i);
      } else {
        StepRefinesFifo(s, p, e, s');
        ExplainedStill(run, moves, p, CallOf(s.procs[p]), i);
      }
    }
  }

  lemma {:induction false} AllExplained(run: seq<State>, moves: seq<Move>, p: nat, i: nat)
    requires Run(run, moves) && i < |run| && p < |run[0].procs|
    ensures |run[i].procs| == |run[0].procs| && Explained(run, moves, p, CallOf(run[i].procs[p]), i)
  {
    hide Inv, Explained, StepOf;
    if i == 0 {
      assert CallOf(run[0].procs[p]) == Idle;
      NothingToExplain(run, moves, p, i);
    } else {
      AllExplained(run, moves, p, i - 1);
      RunInv(run, moves, i - 1);
      StepExplained(run, moves, p, i - 1);
    }
  }

  lemma {:induction false} SameCallers(run: seq<State>, moves: seq<Move>, i: nat)
    requires Run(run, moves) && i < |run|
    ensures |run[i].procs| == |run[0].procs|
  {
    if i > 0 {
      SameCallers(run, moves, i - 1);
      RunStep(run, moves, i - 1);
    }
  }

  /** Every call that returns took effect exactly once between its start and its end: a push put the task it was
      called with at the end of the queue, and a pop returns the task that was the oldest when it took it out. */
  lemma CallsTakeEffectOnce(run: seq<State>, moves: seq<Move>, i: nat)
    requires Run(run, moves) && i < |moves|
    ensures var p := moves[i].caller;
            match moves[i].event
            case ReturnPush => exists t: Task, c: nat, k: nat :: Put(run, moves, p, t, c, k, i)
            case ReturnPop(t) => exists c: nat, k: nat :: Took(run, moves, p, t, c, k, i)
            case _ => true
  {
    hide Inv, Run, AtomicStep, Put, Took;
    var p := moves[i].caller;
    RunStep(run, moves, i);
    SameCallers(run, moves, i);
    AllExplained(run, moves, p, i);
  }

  /** First in, first out, over whole runs: pops took a prefix of what pushes put, and the ring holds the rest. */
  lemma RunIsFifo(run: seq<State>, moves: seq<Move>, i: nat)
    requires Run(run, moves) && i < |run|
    ensures var s := run[i];
            && |s.popped| <= |s.pushed| <= |s.popped| + s.maxLength == |s.popped| + |s.nodes|
            && s.popped == s.pushed[..|s.popped|]
            && forall k :: |s.popped| <= k < |s.pushed| ==> s.nodes[k % s.maxLength] == s.pushed[k]
  {
    RunInv(run, moves, i);
  }

  /** The two counters and the calls in flight always account for all nodes. */
  lemma TokensConserved(run: seq<State>, moves: seq<Move>, i: nat)
    requires Run(run, moves) && i < |run|
    ensures var s := run[i]; s.slots + s.items + Count(s.procs, HoldsSlot) + Count(s.procs, HoldsItem) == s.maxLength
  {
    RunInv(run, moves, i);
  }

  // ----- when the system is stuck -----

  predicate InPush(pc: Pc) {
    pc.PushWaitSlots? || pc.PushWaitMutex? || pc.PushWrite? || pc.PushAdvance? || pc.PushPostMutex? || pc.PushPostItems?
  }

  predicate InPop(pc: Pc) { pc != Outside && !InPush(pc) }

  /** No call in progress can take a step. */
  ghost predicate Stuck(s: State) {
    forall p :: 0 <= p < |s.procs| ==> !Enabled(s, p)
  }

  /** The calls in progress are stuck just when they are all pushes waiting on a full queue,
      or all pops waiting on an empty one. */
  lemma StuckExactly(s: State)
    requires Inv(s) && exists p :: 0 <= p < |s.procs| && s.procs[p] != Outside
    ensures Stuck(s) <==>
      || (s.slots == 0 && forall p :: 0 <= p < |s.procs| ==> s.procs[p] == Outside || s.procs[p].PushWaitSlots?)
      || (s.items == 0 && forall p :: 0 <= p < |s.procs| ==> s.procs[p] == Outside || s.procs[p].PopWaitItems?)
  {
    if Stuck(s) {
      forall p | 0 <= p < |s.procs|
        ensures !Holds(s.procs[p], HoldsMutex)
      {
        assert !Enabled(s, p);
      }
      CountZero(s.procs, HoldsMutex);
      assert s.mutex == 1;
      forall p | 0 <= p < |s.procs|
        ensures s.procs[p] == Outside || s.procs[p].PushWaitSlots? || s.procs[p].PopWaitItems?
      {
        assert !Enabled(s, p);
      }
      CountZero(s.procs, HoldsSlot);
      CountZero(s.procs, HoldsItem);
      assert s.slots + s.items == s.maxLength > 0;
      assert forall p :: 0 <= p < |s.procs| && s.procs[p].PushWaitSlots? ==> !Enabled(s, p);
      assert forall p :: 0 <= p < |s.procs| && s.procs[p].PopWaitItems? ==> !Enabled(s, p);
    } else {
      var p :| 0 <= p < |s.procs| && Enabled(s, p);
      assert s.procs[p] != Outside;
    }
  }

  /** While a push and a pop are both in progress, some call can go on. */
  lemma NeverStuckTogether(run: seq<State>, moves: seq<Move>, i: nat, p: nat, q: nat)
    requires Run(run, moves) && i < |run| && p < |run[i].procs| && q < |run[i].procs|
    requires InPush(run[i].procs[p]) && InPop(run[i].procs[q])
    ensures exists r :: 0 <= r < |run[i].procs| && Enabled(run[i], r)
  {
    RunInv(run, moves, i);
    assert run[i].procs[p] != Outside;
    StuckExactly(run[i]);
  }
}
