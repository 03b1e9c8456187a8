/** The bounded queue shared by threads: every operation waits on one semaphore, works under a
    mutex and posts to a semaphore. Its steps interleave with those of any number of threads. */
module SharedQueue {

  datatype Option<T> = None | Some(value: T)

  datatype Op<T> = Push(item: T) | Front | PopFront | Pop

  /** Where a thread is. */
  datatype Pc<T> =
    | Idle
    | Waiting(op: Op<T>)                    // about to wait on its semaphore
    | Holding(op: Op<T>)                    // has a permit, about to lock
    | Locked(op: Op<T>)                     // about to use the queue
    | Read(op: Op<T>, head: T)              // pop_front, between front and pop
    | Acted(op: Op<T>, result: Option<T>)   // about to unlock
    | Unlocked(op: Op<T>, result: Option<T>) // about to post

  datatype State<T> = State(
    data: seq<T>,
    stored: nat,
    space: nat,
    mutex: Option<nat>,
    threads: seq<Pc<T>>,
    pushed: seq<T>,
    popped: seq<T>)

  ghost predicate Init<T>(s: State<T>, capacity: nat) {
    && s.data == [] && s.stored == 0 && s.space == capacity && s.mutex == None && s.pushed == [] && s.popped == []
    && forall t :: 0 <= t < |s.threads| ==> s.threads[t] == Idle
  }

  // --------------------------------------------------------------- the steps

  function At<T>(s: State<T>, t: nat, pc: Pc<T>): (r: State<T>)
    requires t < |s.threads|
  {
    s.(threads := s.threads[t := pc])
  }

  /** The wait of an operation: push takes a free place, the others a stored item. */
  ghost predicate Waits<T>(s: State<T>, s': State<T>, t: nat)
    requires t < |s.threads|
  {
    && s.threads[t].Waiting?
    && var op := s.threads[t].op;
       if op.Push? then s.space > 0 && s' == At(s, t, Holding(op)).(space := s.space - 1)
       else s.stored > 0 && s' == At(s, t, Holding(op)).(stored := s.stored - 1)
  }

  ghost predicate Locks<T>(s: State<T>, s': State<T>, t: nat)
    requires t < |s.threads|
  {
    s.threads[t].Holding? && s.mutex == None && s' == At(s, t, Locked(s.threads[t].op)).(mutex := Some(t))
  }

  /** What happens under the mutex. Reading or removing from an empty queue is undefined in the
      source; here such a step may do anything. */
  ghost predicate Acts<T>(s: State<T>, s': State<T>, t: nat)
    requires t < |s.threads|
  {
    match s.threads[t]
    case Locked(Push(x)) =>
      s' == At(s, t, Acted(Push(x), None)).(data := s.data + [x], pushed := s.pushed + [x])
    case Locked(Front) =>
      s.data != [] ==> s' == At(s, t, Acted(Front, Some(s.data[0])))
    case Locked(PopFront) =>
      s.data != [] ==> s' == At(s, t, Read(PopFront, s.data[0]))
    case Locked(Pop) =>
      s.data != [] ==> s' == At(s, t, Acted(Pop, None)).(data := s.data[1..], popped := s.popped + [s.data[0]])
    case Read(op, head) =>
      s.data != [] ==> s' == At(s, t, Acted(op, Some(head))).(data := s.data[1..], popped := s.popped + [s.data[0]])
    case _ => false
  }

  ghost predicate Unlocks<T>(s: State<T>, s': State<T>, t: nat)
    requires t < |s.threads|
  {
    s.threads[t].Acted? && s' == At(s, t, Unlocked(s.threads[t].op, s.threads[t].result)).(mutex := None)
  }

  /** The post of an operation: a removal frees a place, the others leave a stored item. */
  ghost predicate Posts<T>(s: State<T>, s': State<T>, t: nat)
    requires t < |s.threads|
  {
    && s.threads[t].Unlocked?
    && var op := s.threads[t].op;
       if op.Push? || op.Front? then s' == At(s, t, Idle).(stored := s.stored + 1)
       else s' == At(s, t, Idle).(space := s.space + 1)
  }

  ghost predicate Calls<T>(s: State<T>, s': State<T>, t: nat)
    requires t < |s.threads|
  {
    && s.threads[t].Idle? && s'.threads != [] && t < |s'.threads| && s'.threads[t].Waiting?
    && s' == At(s, t, s'.threads[t])
  }

  ghost predicate Step<T>(s: State<T>, s': State<T>, t: nat)
    requires t < |s.threads|
  {
    Calls(s, s', t) || Waits(s, s', t) || Locks(s, s', t) || Acts(s, s', t) || Unlocks(s, s', t) || Posts(s, s', t)
  }

  ghost predicate Next<T>(s: State<T>, s': State<T>) {
    exists t: nat :: t < |s.threads| && Step(s, s', t)
  }

  ghost predicate Run<T>(states: seq<State<T>>, capacity: nat) {
    && states != [] && Init(states[0], capacity)
    && forall i :: 0 <= i < |states| - 1 ==> Next(states[i], states[i + 1])
  }

  // ------------------------------------------------------------ the invariant

  /** A thread between its wait and its post holds one unit of the capacity. */
  function Permit<T>(pc: Pc<T>): nat {
    if pc.Idle? || pc.Waiting? then 0 else 1
  }

  /** Whether an item of the queue is accounted for by this thread and not by num_stored. */
  function Item<T>(pc: Pc<T>): nat {
    match pc
    case Idle => 0
    case Waiting(_) => 0
    case Holding(op) => if op.Push? then 0 else 1
    case Locked(op) => if op.Push? then 0 else 1
    case Read(_, _) => 1
    case Acted(op, _) => if op.Push? || op.Front? then 1 else 0
    case Unlocked(op, _) => if op.Push? || op.Front? then 1 else 0
  }

  function Permits<T>(pcs: seq<Pc<T>>): nat {
    if pcs == [] then 0 else Permit(pcs[0]) + Permits(pcs[1..])
  }

  function Items<T>(pcs: seq<Pc<T>>): nat {
    if pcs == [] then 0 else Item(pcs[0]) + Items(pcs[1..])
  }

  predicate Inside<T>(pc: Pc<T>) {
    pc.Locked? || pc.Read? || pc.Acted?
  }

  /** Only pop_front reads, and what it read is still the head. */
  ghost predicate ReadsHead<T>(s: State<T>, pc: Pc<T>) {
    pc.Read? ==> pc.op == PopFront && s.data != [] && pc.head == s.data[0]
  }

  ghost predicate Inv<T>(s: State<T>, capacity: nat) {
    && s.space + s.stored + Permits(s.threads) == capacity
    && |s.data| == s.stored + Items(s.threads)
    && s.pushed == s.popped + s.data
    && (forall t :: 0 <= t < |s.threads| ==> (Inside(s.threads[t]) <==> s.mutex == Some(t)))
    && (s.mutex.Some? ==> s.mutex.value < |s.threads|)
    && forall t :: 0 <= t < |s.threads| ==> ReadsHead(s, s.threads[t])
  }

  lemma {:induction false} PermitsUpdate<T>(pcs: seq<Pc<T>>, t: nat, pc: Pc<T>)
    requires t < |pcs|
    ensures Permits(pcs[t := pc]) + Permit(pcs[t]) == Permits(pcs) + Permit(pc)
  {
    if t > 0 {
      PermitsUpdate(pcs[1..], t - 1, pc);
      assert pcs[t := pc][1..] == pcs[1..][t - 1 := pc];
    } else {
      assert pcs[t := pc][1..] == pcs[1..];
    }
  }

  lemma {:induction false} ItemsUpdate<T>(pcs: seq<Pc<T>>, t: nat, pc: Pc<T>)
    requires t < |pcs|
    ensures Items(pcs[t := pc]) + Item(pcs[t]) == Items(pcs) + Item(pc)
  {
    if t > 0 {
      ItemsUpdate(pcs[1..], t - 1, pc);
      assert pcs[t := pc][1..] == pcs[1..][t - 1 := pc];
    } else {
      assert pcs[t := pc][1..] == pcs[1..];
    }
  }

  lemma {:induction false} ItemsAt<T>(pcs: seq<Pc<T>>, t: nat)
    requires t < |pcs|
    ensures Items(pcs) >= Item(pcs[t])
  {
    if t > 0 { ItemsAt(pcs[1..], t - 1); }
  }

  lemma {:induction false} ItemsBelowPermits<T>(pcs: seq<Pc<T>>)
    ensures Items(pcs) <= Permits(pcs)
  {
    if pcs != [] { ItemsBelowPermits(pcs[1..]); }
  }

  lemma {:induction false} IdleSums<T>(pcs: seq<Pc<T>>)
    requires forall t :: 0 <= t < |pcs| ==> pcs[t].Idle? || pcs[t].Waiting?
    ensures Permits(pcs) == 0 && Items(pcs) == 0
  {
    if pcs != [] { IdleSums(pcs[1..]); }
  }

  lemma InitInv<T>(s: State<T>, capacity: nat)
    requires Init(s, capacity)
    ensures Inv(s, capacity)
  {
    IdleSums(s.threads);
  }

  lemma StepInv<T>(s: State<T>, s': State<T>, t: nat, capacity: nat)
    requires Inv(s, capacity) && t < |s.threads| && Step(s, s', t)
    ensures Inv(s', capacity)
  {
    if Acts(s, s', t) {
      ActsInv(s, s', t, capacity);
    } else if Waits(s, s', t) {
      WaitsInv(s, s', t, capacity);
    } else if Posts(s, s', t) {
      PostsInv(s, s', t, capacity);
    } else {
      MutexInv(s, s', t, capacity);
    }
  }

  lemma WaitsInv<T>(s: State<T>, s': State<T>, t: nat, capacity: nat)
    requires Inv(s, capacity) && t < |s.threads| && Waits(s, s', t)
    ensures Inv(s', capacity)
  {
    hide Permits, Items;
    PermitsUpdate(s.threads, t, s'.threads[t]);
    ItemsUpdate(s.threads, t, s'.threads[t]);
  }

  lemma PostsInv<T>(s: State<T>, s': State<T>, t: nat, capacity: nat)
    requires Inv(s, capacity) && t < |s.threads| && Posts(s, s', t)
    ensures Inv(s', capacity)
  {
    hide Permits, Items;
    PermitsUpdate(s.threads, t, s'.threads[t]);
    ItemsUpdate(s.threads, t, s'.threads[t]);
  }

  lemma MutexInv<T>(s: State<T>, s': State<T>, t: nat, capacity: nat)
    requires Inv(s, capacity) && t < |s.threads| && (Calls(s, s', t) || Locks(s, s', t) || Unlocks(s, s', t))
    ensures Inv(s', capacity)
  {
    hide Permits, Items;
    PermitsUpdate(s.threads, t, s'.threads[t]);
    ItemsUpdate(s.threads, t, s'.threads[t]);
  }

  lemma ActsInv<T>(s: State<T>, s': State<T>, t: nat, capacity: nat)
    requires Inv(s, capacity) && t < |s.threads| && Acts(s, s', t)
    ensures Inv(s', capacity)
  {
    hide Permits, Items;
    ItemsAt(s.threads, t);
    PermitsUpdate(s.threads, t, s'.threads[t]);
    ItemsUpdate(s.threads, t, s'.threads[t]);
  }

  /** The invariant holds in every state of every run. */
  lemma {:induction false} RunInv<T>(states: seq<State<T>>, capacity: nat, i: nat)
    requires Run(states, capacity) && i < |states|
    ensures Inv(states[i], capacity)
  {
    if i == 0 {
      InitInv(states[0], capacity);
    } else {
      RunInv(states, capacity, i - 1);
      assert Next(states[i - 1], states[i - 1 + 1]);
      var t: nat :| t < |states[i - 1].threads| && Step(states[i - 1], states[i], t);
      StepInv(states[i - 1], states[i], t, capacity);
    }
  }

  // ------------------------------------------------------- what it means for users

  /** Safety of every run: the queue never exceeds its capacity, items leave in the order in
      which they came, two threads are never inside together, and nobody reads or removes from
      an empty queue. */
  lemma RunSafe<T>(states: seq<State<T>>, capacity: nat, i: nat)
    requires Run(states, capacity) && i < |states|
    ensures |states[i].data| <= capacity
    ensures states[i].pushed == states[i].popped + states[i].data == Arguments(states, i)
    ensures |states[i].popped| == Removals(states, i)
    ensures Exclusive(states[i].threads)
    ensures forall t :: 0 <= t < |states[i].threads| && NeedsItem(states[i].threads[t]) ==> states[i].data != []
  {
    RunHistory(states, capacity, i);
    RunInv(states, capacity, i);
    ItemsBelowPermits(states[i].threads);
    forall t | 0 <= t < |states[i].threads| && NeedsItem(states[i].threads[t]) ensures states[i].data != [] {
      ItemsAt(states[i].threads, t);
    }
  }

  ghost predicate Exclusive<T>(pcs: seq<Pc<T>>) {
    forall t, u :: 0 <= t < |pcs| && 0 <= u < |pcs| && Inside(pcs[t]) && Inside(pcs[u]) ==> t == u
  }

  /** About to look at or remove the head. */
  predicate NeedsItem<T>(pc: Pc<T>) {
    pc.Read? || (pc.Locked? && !pc.op.Push?)
  }

  // ---------------------------------------------------- what calls return

  /** A step of one thread leaves the others where they are. */
  lemma OthersStay<T>(s: State<T>, s': State<T>, t: nat, u: nat, capacity: nat)
    requires Inv(s, capacity) && t < |s.threads| && u < |s.threads| && t != u && Step(s, s', t)
    ensures |s'.threads| == |s.threads| && s'.threads[u] == s.threads[u]
  {
    ItemsAt(s.threads, t);
  }

  /** The step in which pop_front removes the head: it returns what it appends to the history,
      the oldest item that was pushed and not yet removed. */
  lemma PopFrontReturns<T>(s: State<T>, s': State<T>, t: nat, capacity: nat)
    requires Inv(s, capacity) && t < |s.threads| && Step(s, s', t) && s.threads[t].Read?
    ensures s.data != [] && t < |s'.threads| && s'.threads[t] == Acted(PopFront, Some(s.data[0]))
    ensures s'.popped == s.popped + [s.data[0]] && s'.data == s.data[1..]
    ensures |s.popped| < |s.pushed| && s.data[0] == s.pushed[|s.popped|]
  {
    ItemsAt(s.threads, t);
  }

  /** The step in which front reads: it returns the oldest item and removes nothing. */
  lemma FrontReturns<T>(s: State<T>, s': State<T>, t: nat, capacity: nat)
    requires Inv(s, capacity) && t < |s.threads| && Step(s, s', t) && s.threads[t] == Locked(Front)
    ensures s.data != [] && t < |s'.threads| && s'.threads[t] == Acted(Front, Some(s.data[0]))
    ensures s'.popped == s.popped && s'.data == s.data
    ensures |s.popped| < |s.pushed| && s.data[0] == s.pushed[|s.popped|]
  {
    ItemsAt(s.threads, t);
  }

  // ------------------------------------------------------------- the history

  /** Thread t finishes pushing its argument in this step. */
  ghost predicate Pushes<T>(s: State<T>, s': State<T>, t: nat) {
    && t < |s.threads| && t < |s'.threads|
    && s.threads[t].Locked? && s.threads[t].op.Push? && s'.threads[t].Acted?
  }

  /** Thread t finishes removing an item in this step. */
  ghost predicate Removes<T>(s: State<T>, s': State<T>, t: nat) {
    && t < |s.threads| && t < |s'.threads|
    && (s.threads[t].Read? || s.threads[t] == Locked(Pop)) && s'.threads[t].Acted?
  }

  /** The argument that a step pushes, if any, as the program counters show it. */
  ghost function Entered<T>(s: State<T>, s': State<T>): seq<T> {
    if t: nat :| Pushes(s, s', t) then [s.threads[t].op.item] else []
  }

  ghost function Left<T>(s: State<T>, s': State<T>): nat {
    if exists t: nat :: Removes(s, s', t) then 1 else 0
  }

  /** The arguments of all pushes up to state i, in the order in which they took effect, and the
      number of removals. Both are read off the calls alone. */
  ghost function Arguments<T>(states: seq<State<T>>, i: nat): seq<T>
    requires i < |states|
  {
    if i == 0 then [] else Arguments(states, i - 1) + Entered(states[i - 1], states[i])
  }

  ghost function Removals<T>(states: seq<State<T>>, i: nat): nat
    requires i < |states|
  {
    if i == 0 then 0 else Removals(states, i - 1) + Left(states[i - 1], states[i])
  }

  /** A push appends its own argument, a removal takes the head away, and no other step of any
      thread changes the queue or its history. */
  lemma StepHistory<T>(s: State<T>, s': State<T>, t: nat, capacity: nat)
    requires Inv(s, capacity) && t < |s.threads| && Step(s, s', t)
    ensures Pushes(s, s', t) ==>
      && s'.data == s.data + [s.threads[t].op.item] && s'.pushed == s.pushed + [s.threads[t].op.item]
      && s'.popped == s.popped
    ensures Removes(s, s', t) ==>
      s.data != [] && s'.data == s.data[1..] && s'.popped == s.popped + [s.data[0]] && s'.pushed == s.pushed
    ensures !Pushes(s, s', t) && !Removes(s, s', t) ==>
      s'.data == s.data && s'.pushed == s.pushed && s'.popped == s.popped
    ensures forall u: nat :: Pushes(s, s', u) || Removes(s, s', u) ==> u == t
  {
    ItemsAt(s.threads, t);
    forall u: nat | Pushes(s, s', u) || Removes(s, s', u) ensures u == t {
      if u != t { OthersStay(s, s', t, u, capacity); }
    }
  }

  /** In every state of every run, the history is that of the calls: what was pushed are the
      arguments of the pushes, and the queue holds those that were not yet removed, in order. */
  lemma {:induction false} RunHistory<T>(states: seq<State<T>>, capacity: nat, i: nat)
    requires Run(states, capacity) && i < |states|
    ensures states[i].pushed == Arguments(states, i) && |states[i].popped| == Removals(states, i)
    ensures Removals(states, i) <= |Arguments(states, i)|
    ensures states[i].popped == Arguments(states, i)[..Removals(states, i)]
    ensures states[i].data == Arguments(states, i)[Removals(states, i)..]
  {
    hide Inv, Step;
    RunInv(states, capacity, i);
    if i > 0 {
      RunHistory(states, capacity, i - 1);
      RunInv(states, capacity, i - 1);
      var s, s' := states[i - 1], states[i];
      assert Next(s, states[i - 1 + 1]);
      var t: nat :| t < |s.threads| && Step(s, s', t);
      StepHistory(s, s', t, capacity);
      StepCounted(s, s', t);
    }
    HistorySplit(states[i], capacity);
  }

  lemma HistorySplit<T>(s: State<T>, capacity: nat)
    requires Inv(s, capacity)
    ensures |s.popped| <= |s.pushed| && s.popped == s.pushed[..|s.popped|] && s.data == s.pushed[|s.popped|..]
  {
  }

  lemma StepCounted<T>(s: State<T>, s': State<T>, t: nat)
    requires forall u: nat :: Pushes(s, s', u) || Removes(s, s', u) ==> u == t
    ensures Entered(s, s') == if Pushes(s, s', t) then [s.threads[t].op.item] else []
    ensures Left(s, s') == if Removes(s, s', t) then 1 else 0
  {
  }

  /** In every run, the step in which a push takes effect appends its argument to the queue. */
  lemma RunPush<T>(states: seq<State<T>>, capacity: nat, i: nat, t: nat)
    requires Run(states, capacity) && i + 1 < |states| && Pushes(states[i], states[i + 1], t)
    ensures states[i + 1].data == states[i].data + [states[i].threads[t].op.item]
    ensures Arguments(states, i + 1) == Arguments(states, i) + [states[i].threads[t].op.item]
    ensures Removals(states, i + 1) == Removals(states, i)
  {
    hide Inv, Step;
    RunInv(states, capacity, i);
    var s, s' := states[i], states[i + 1];
    assert Next(s, s');
    var u: nat :| u < |s.threads| && Step(s, s', u);
    StepHistory(s, s', u, capacity);
    StepCounted(s, s', u);
  }

  /** The operation of a thread in a call. */
  function OpOf<T>(pc: Pc<T>): Op<T>
    requires !pc.Idle?
  {
    pc.op
  }

  lemma OpKept<T>(s: State<T>, s': State<T>, u: nat, t: nat, capacity: nat)
    requires Inv(s, capacity) && u < |s.threads| && t < |s.threads| && Step(s, s', u)
    requires !s.threads[t].Idle? && t < |s'.threads| && !s'.threads[t].Idle?
    ensures OpOf(s'.threads[t]) == OpOf(s.threads[t])
  {
    if u != t { OthersStay(s, s', u, t, capacity); } else { ItemsAt(s.threads, t); }
  }

  /** From the call to the return, a thread works on the operation and argument it was called with. */
  lemma {:induction false} RunCall<T>(states: seq<State<T>>, capacity: nat, i: nat, j: nat, t: nat)
    requires Run(states, capacity) && i <= j < |states|
    requires forall k :: i <= k <= j ==> t < |states[k].threads| && !states[k].threads[t].Idle?
    ensures OpOf(states[j].threads[t]) == OpOf(states[i].threads[t])
  {
    hide Inv, Step;
    if i < j {
      RunCall(states, capacity, i, j - 1, t);
      RunInv(states, capacity, j - 1);
      assert Next(states[j - 1], states[j - 1 + 1]);
      var u: nat :| u < |states[j - 1].threads| && Step(states[j - 1], states[j], u);
      OpKept(states[j - 1], states[j], u, t, capacity);
    }
  }

  /** The thread has its result and has not returned. */
  ghost predicate HasResult<T>(pc: Pc<T>, op: Op<T>, result: Option<T>) {
    pc == Acted(op, result) || pc == Unlocked(op, result)
  }

  lemma ResultKept<T>(s: State<T>, s': State<T>, u: nat, t: nat, op: Op<T>, result: Option<T>, capacity: nat)
    requires Inv(s, capacity) && u < |s.threads| && t < |s.threads| && Step(s, s', u)
    requires HasResult(s.threads[t], op, result) && t < |s'.threads| && !s'.threads[t].Idle?
    ensures HasResult(s'.threads[t], op, result)
  {
    if u != t { OthersStay(s, s', u, t, capacity); }
  }

  /** From the step that produced it to the end of the call, the result stays as it is. */
  lemma {:induction false} ResultStays<T>(states: seq<State<T>>, capacity: nat, i: nat, j: nat, t: nat)
    requires Run(states, capacity) && i <= j < |states| && t < |states[i].threads| && states[i].threads[t].Acted?
    requires forall k :: i <= k <= j ==> t < |states[k].threads| && !states[k].threads[t].Idle?
    ensures HasResult(states[j].threads[t], states[i].threads[t].op, states[i].threads[t].result)
  {
    hide Inv, Step;
    if i < j {
      ResultStays(states, capacity, i, j - 1, t);
      RunInv(states, capacity, j - 1);
      assert Next(states[j - 1], states[j - 1 + 1]);
      var u: nat :| u < |states[j - 1].threads| && Step(states[j - 1], states[j], u);
      ResultKept(states[j - 1], states[j], u, t, states[i].threads[t].op, states[i].threads[t].result, capacity);
    }
  }

  /** In every run, the value of a pop_front is the item that its own step removed: the k-th
      removal returns the argument of the k-th push. */
  lemma RunPopFront<T>(states: seq<State<T>>, capacity: nat, i: nat, t: nat)
    requires Run(states, capacity) && i + 1 < |states| && t < |states[i].threads| && t < |states[i + 1].threads|
    requires states[i].threads[t].Read? && states[i + 1].threads[t].Acted?
    ensures states[i + 1].threads[t].result.Some?
    ensures states[i + 1].popped == states[i].popped + [states[i + 1].threads[t].result.value]
    ensures Removals(states, i) < |Arguments(states, i)| && Removals(states, i + 1) == Removals(states, i) + 1
    ensures states[i + 1].threads[t].result.value == Arguments(states, i)[Removals(states, i)]
  {
    RunHistory(states, capacity, i);
    RunInv(states, capacity, i);
    assert Next(states[i], states[i + 1]);
    var u: nat :| u < |states[i].threads| && Step(states[i], states[i + 1], u);
    if u != t { OthersStay(states[i], states[i + 1], u, t, capacity); }
    PopFrontReturns(states[i], states[i + 1], t, capacity);
    assert Removes(states[i], states[i + 1], t);
  }

  /** In every run, the value of a front is the item that the next removal will return. */
  lemma RunFront<T>(states: seq<State<T>>, capacity: nat, i: nat, t: nat)
    requires Run(states, capacity) && i + 1 < |states| && t < |states[i].threads| && t < |states[i + 1].threads|
    requires states[i].threads[t] == Locked(Front) && states[i + 1].threads[t].Acted?
    ensures states[i + 1].threads[t].result.Some? && Removals(states, i) < |Arguments(states, i)|
    ensures states[i + 1].threads[t].result.value == Arguments(states, i)[Removals(states, i)]
    ensures states[i + 1].data == states[i].data && states[i + 1].popped == states[i].popped
  {
    RunHistory(states, capacity, i);
    RunInv(states, capacity, i);
    assert Next(states[i], states[i + 1]);
    var u: nat :| u < |states[i].threads| && Step(states[i], states[i + 1], u);
    if u != t { OthersStay(states[i], states[i + 1], u, t, capacity); }
    FrontReturns(states[i], states[i + 1], t, capacity);
  }

  // ------------------------------------------------------------------ blocking

  /** Thread t is in a call and cannot move. */
  ghost predicate Blocked<T(!new)>(s: State<T>, t: nat)
    requires t < |s.threads|
  {
    !s.threads[t].Idle? && forall s' :: !Step(s, s', t)
  }

  /** A thread in a call is blocked exactly by an empty semaphore or a taken mutex. */
  lemma BlockedIff<T(!new)>(s: State<T>, t: nat, capacity: nat)
    requires Inv(s, capacity) && t < |s.threads| && !s.threads[t].Idle?
    ensures Blocked(s, t) <==> match s.threads[t] {
      case Waiting(op) => if op.Push? then s.space == 0 else s.stored == 0
      case Holding(_) => s.mutex.Some?
      case _ => false
    }
  {
    match s.threads[t] {
      case Idle =>
      case Waiting(op) =>
        if op.Push? && s.space > 0 { assert Step(s, At(s, t, Holding(op)).(space := s.space - 1), t); }
        if !op.Push? && s.stored > 0 { assert Step(s, At(s, t, Holding(op)).(stored := s.stored - 1), t); }
      case Holding(op) =>
        if s.mutex == None { assert Step(s, At(s, t, Locked(op)).(mutex := Some(t)), t); }
      case Locked(op) =>
        InsideMoves(s, t, capacity);
      case Read(_, _) =>
        InsideMoves(s, t, capacity);
      case Acted(op, r) =>
        assert Step(s, At(s, t, Unlocked(op, r)).(mutex := None), t);
      case Unlocked(op, r) =>
        if op.Push? || op.Front? {
          assert Step(s, At(s, t, Idle).(stored := s.stored + 1), t);
        } else {
          assert Step(s, At(s, t, Idle).(space := s.space + 1), t);
        }
    }
  }

  lemma InsideMoves<T(!new)>(s: State<T>, t: nat, capacity: nat)
    requires Inv(s, capacity) && t < |s.threads| && (s.threads[t].Locked? || s.threads[t].Read?)
    ensures exists s' :: Step(s, s', t)
  {
    ItemsAt(s.threads, t);
    match s.threads[t] {
      case Locked(op) =>
        match op {
          case Push(x) =>
            assert Step(s, At(s, t, Acted(Push(x), None)).(data := s.data + [x], pushed := s.pushed + [x]), t);
          case Front => assert Step(s, At(s, t, Acted(Front, Some(s.data[0]))), t);
          case PopFront => assert Step(s, At(s, t, Read(PopFront, s.data[0])), t);
          case Pop =>
            assert Step(s, At(s, t, Acted(Pop, None)).(data := s.data[1..], popped := s.popped + [s.data[0]]), t);
        }
      case Read(op, head) =>
        assert Step(s, At(s, t, Acted(op, Some(head))).(data := s.data[1..], popped := s.popped + [s.data[0]]), t);
    }
  }

  /** Every thread in a call waits, all to push or all to take. */
  ghost predicate AllWait<T>(s: State<T>, push: bool) {
    forall t :: 0 <= t < |s.threads| && !s.threads[t].Idle? ==> s.threads[t].Waiting? && s.threads[t].op.Push? == push
  }

  /** If no thread in a call can move, then they all wait for a place in a full queue, or they
      all wait for an item in an empty one. Producers and consumers never block each other. */
  lemma NoMutualBlocking<T(!new)>(s: State<T>, capacity: nat)
    requires Inv(s, capacity) && capacity > 0
    requires forall t :: 0 <= t < |s.threads| && !s.threads[t].Idle? ==> Blocked(s, t)
    ensures s.mutex == None
    ensures (|s.data| == capacity && AllWait(s, true)) || (s.data == [] && AllWait(s, false))
         || (forall t :: 0 <= t < |s.threads| ==> s.threads[t].Idle?)
  {
    if s.mutex.Some? {
      BlockedIff(s, s.mutex.value, capacity);
      assert false;
    }
    forall t | 0 <= t < |s.threads| && !s.threads[t].Idle?
      ensures s.threads[t].Waiting? && if s.threads[t].op.Push? then s.space == 0 else s.stored == 0
    {
      BlockedIff(s, t, capacity);
    }
    IdleSums(s.threads);
  }
}
