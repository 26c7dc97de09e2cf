/** The `length` counter. Its updates are a load and a store under two different locks, so they
    can tear; this module says when they do not, and what the counter is worth then. */
module QueueLength {
  import opened TwoLockMachine
  import opened QueueRefinement
  import opened QueueTheorems
  import opened QueueProgress

  predicate Storing<A>(pc: Pc<A>) {
    pc.PushStoreLen? || pc.PopStoreLen?
  }

  /** No two threads are between their load and their store of `length`. */
  ghost predicate NoTear<A>(s: State<A>) {
    forall t, u :: 0 <= t < |s.threads| && 0 <= u < |s.threads| && t != u
      ==> !(Storing(s.threads[t]) && Storing(s.threads[u]))
  }

  /** Pushes past line 29 minus lock-holding pops past line 45 or 61. */
  function Net<A>(labels: seq<Label<A>>): int {
    if labels == [] then 0
    else (if labels[0].Counted? then if labels[0].up then 1 else -1 else 0) + Net(labels[1..])
  }

  ghost predicate RegistersOk<A>(s: State<A>) {
    && s.length < LENGTH_LIMIT
    && forall t :: 0 <= t < |s.threads| && Storing(s.threads[t]) ==> s.threads[t].v == s.length
  }

  lemma ModAdd(x: int, y: int)
    ensures (x % LENGTH_LIMIT + y) % LENGTH_LIMIT == (x + y) % LENGTH_LIMIT
  {
  }

  lemma CounterStep<A>(s: State<A>, l: Label<A>, s': State<A>)
    requires Step(s, l, s') && RegistersOk(s) && NoTear(s)
    ensures RegistersOk(s')
    ensures s'.length == (s.length + Net([l])) % LENGTH_LIMIT
  {
    hide Retired, Chain, ThreadStep, NoTear;
    if !l.Invoke? && !l.Write? && !l.Alloc? && !l.Free? {
      if Storing(s.threads[l.t]) {
        CountingStep(s, l.t);
      } else {
        OtherStep(s, l.t);
      }
    }
  }

  lemma CountingStep<A>(s: State<A>, t: nat)
    requires Enabled(s, t) && Storing(s.threads[t]) && RegistersOk(s) && NoTear(s)
    ensures var (s', l) := ThreadStep(s, t);
      RegistersOk(s') && l.Counted? && s'.length == (s.length + (if l.up then 1 else -1)) % LENGTH_LIMIT
  {
    var s' := ThreadStep(s, t).0;
    forall u | 0 <= u < |s'.threads| ensures !Storing(s'.threads[u]) {
      assert u != t ==> !(Storing(s.threads[t]) && Storing(s.threads[u]));
    }
  }

  lemma OtherStep<A>(s: State<A>, t: nat)
    requires Enabled(s, t) && !Storing(s.threads[t]) && RegistersOk(s)
    ensures var (s', l) := ThreadStep(s, t);
      RegistersOk(s') && !l.Counted? && s'.length == s.length
  {
  }

  lemma {:induction false} NetSplit<A>(p: seq<Label<A>>, q: seq<Label<A>>)
    ensures Net(p + q) == Net(p) + Net(q)
  {
    if p == [] {
      assert p + q == q;
    } else {
      NetSplit(p[1..], q);
      assert (p + q)[1..] == p[1..] + q;
    }
  }

  lemma NothingCounted<A>(s: State<A>, labels: seq<Label<A>>)
    requires RegistersOk(s)
    ensures s.length == (s.length + Net(labels[..0])) % LENGTH_LIMIT
  {
  }

  /** While no two updates overlap, `length` is exact modulo 2^32 in every state of the run. */
  lemma {:induction false} CounterIsExact<A>(states: seq<State<A>>, labels: seq<Label<A>>, k: nat)
    requires Run(states, labels) && k <= |labels| && RegistersOk(states[0])
    requires forall i :: 0 <= i < k ==> NoTear(states[i])
    ensures RegistersOk(states[k])
    ensures states[k].length == (states[0].length + Net(labels[..k])) % 0x1_0000_0000
  {
    hide Step, RegistersOk, NoTear, Net;
    if k == 0 {
      NothingCounted(states[0], labels);
    } else {
      CounterIsExact(states, labels, k - 1);
      var l := labels[k - 1];
      assert Step(states[k - 1], l, states[k - 1 + 1]);
      CounterStep(states[k - 1], l, states[k]);
      assert labels[..k] == labels[..k - 1] + [l];
      NetSplit(labels[..k - 1], [l]);
      ModAdd(states[0].length + Net(labels[..k - 1]), Net([l]));
    }
  }

  // ---------- when only one side is at work ----------

  predicate PushesOnly<A>(labels: seq<Label<A>>) {
    forall i :: 0 <= i < |labels| ==> labels[i].Invoke? ==> labels[i].op.Push?
  }

  predicate PopsOnly<A>(labels: seq<Label<A>>) {
    forall i :: 0 <= i < |labels| ==> labels[i].Invoke? ==> !labels[i].op.Push?
  }

  predicate OnPushSide<A>(pc: Pc<A>) {
    pc.Idle? || pc.PushAcquire? || pc.InTail() || pc.PushDone?
  }

  predicate OnPopSide<A>(pc: Pc<A>) {
    pc.Idle? || pc.PopAcquire? || pc.InHead() || pc.PopDone?
  }

  ghost predicate OneSide<A>(s: State<A>, pushes: bool) {
    forall t :: 0 <= t < |s.threads| ==>
      if pushes then OnPushSide(s.threads[t]) else OnPopSide(s.threads[t])
  }

  lemma SideStep<A>(s: State<A>, l: Label<A>, s': State<A>, pushes: bool)
    requires Step(s, l, s') && OneSide(s, pushes)
    requires l.Invoke? ==> l.op.Push? == pushes
    ensures OneSide(s', pushes)
  {
    if !l.Invoke? && !l.Write? && !l.Alloc? && !l.Free? {
      SideThreadStep(s, l.t, pushes);
    }
  }

  lemma SideThreadStep<A>(s: State<A>, t: nat, pushes: bool)
    requires Enabled(s, t) && OneSide(s, pushes)
    ensures OneSide(ThreadStep(s, t).0, pushes)
  {
  }

  /** Calls of one side are serialised by their lock, so they never tear. */
  lemma {:induction false} OneSideNeverTears<A>(
    states: seq<State<A>>, labels: seq<Label<A>>, pushes: bool, k: nat)
    requires Run(states, labels) && k <= |labels| && LocksOk(states[0]) && states[0].Quiet()
    requires if pushes then PushesOnly(labels) else PopsOnly(labels)
    ensures LocksOk(states[k]) && OneSide(states[k], pushes) && NoTear(states[k])
  {
    if k > 0 {
      OneSideNeverTears(states, labels, pushes, k - 1);
      assert Step(states[k - 1], labels[k - 1], states[k - 1 + 1]);
      StepLocks(states[k - 1], labels[k - 1], states[k]);
      SideStep(states[k - 1], labels[k - 1], states[k], pushes);
    }
  }

  /** With only pushes, or only pops, the counter is exact under every schedule. */
  lemma OneSideIsExact<A>(states: seq<State<A>>, labels: seq<Label<A>>, pushes: bool)
    requires Run(states, labels) && LocksOk(states[0]) && states[0].Quiet() && states[0].length < LENGTH_LIMIT
    requires if pushes then PushesOnly(labels) else PopsOnly(labels)
    ensures states[|labels|].length == (states[0].length + Net(labels)) % 0x1_0000_0000
  {
    forall i | 0 <= i < |labels| ensures NoTear(states[i]) {
      OneSideNeverTears(states, labels, pushes, i);
    }
    CounterIsExact(states, labels, |labels|);
    assert labels[..|labels|] == labels;
  }

  // ---------- what the counter is worth when nobody is inside a call ----------

  /** Lock-holding pops that found the queue empty; they lower `length` all the same. */
  function Empties<A>(labels: seq<Label<A>>): nat {
    if labels == [] then 0 else (if labels[0].FoundEmpty? then 1 else 0) + Empties(labels[1..])
  }

  /** What thread at `pc` has done to the queue but not yet to the counter. */
  function Owes<A>(pc: Pc<A>): int {
    if pc.PushTail? || pc.PushClear? || pc.PushLoadLen? || pc.PushStoreLen? then 1
    else if pc.PopLoadLen? || pc.PopStoreLen? then -1
    else 0
  }

  function Owed<A>(threads: seq<Pc<A>>): int {
    if threads == [] then 0 else Owes(threads[0]) + Owed(threads[1..])
  }

  lemma {:induction false} OwedUpdate<A>(threads: seq<Pc<A>>, t: nat, pc: Pc<A>)
    requires t < |threads|
    ensures Owed(threads[t := pc]) == Owed(threads) - Owes(threads[t]) + Owes(pc)
  {
    if t == 0 {
      assert threads[t := pc][1..] == threads[1..];
    } else {
      OwedUpdate(threads[1..], t - 1, pc);
      assert threads[t := pc][1..] == threads[1..][t - 1 := pc];
    }
  }

  lemma {:induction false} QuietOwesNothing<A>(threads: seq<Pc<A>>)
    requires forall t :: 0 <= t < |threads| ==> threads[t].Idle?
    ensures Owed(threads) == 0
  {
    if threads != [] {
      QuietOwesNothing(threads[1..]);
    }
  }

  function Effect<A>(l: Label<A>): int {
    if l.Linked? then 1 else if l.Took? || l.FoundEmpty? then -1 else 0
  }

  lemma PushOwes<A>(s: State<A>, t: nat)
    requires Enabled(s, t) && (s.threads[t].PushAcquire? || s.threads[t].InTail() || s.threads[t].PushDone?)
    ensures var (s', l) := ThreadStep(s, t); Effect(l) + Owes(s.threads[t]) == Net([l]) + Owes(s'.threads[t])
  {
  }

  lemma PopOwes<A>(s: State<A>, t: nat)
    requires Enabled(s, t) && (s.threads[t].PopAcquire? || s.threads[t].InHead() || s.threads[t].PopDone?)
    ensures var (s', l) := ThreadStep(s, t); Effect(l) + Owes(s.threads[t]) == Net([l]) + Owes(s'.threads[t])
  {
  }

  lemma StepOwes<A>(s: State<A>, l: Label<A>, s': State<A>)
    requires Step(s, l, s')
    ensures Effect(l) + Owed(s.threads) == Net([l]) + Owed(s'.threads)
  {
    if l.Invoke? {
      OwedUpdate(s.threads, l.t, s'.threads[l.t]);
    } else if !l.Write? && !l.Alloc? && !l.Free? {
      StepLowersRank(s, l.t);
      if s.threads[l.t].PushAcquire? || s.threads[l.t].InTail() || s.threads[l.t].PushDone? {
        PushOwes(s, l.t);
      } else {
        PopOwes(s, l.t);
      }
      OwedUpdate(s.threads, l.t, s'.threads[l.t]);
    }
  }

  lemma {:induction false} CountedSoFar<A>(states: seq<State<A>>, labels: seq<Label<A>>)
    requires Run(states, labels)
    ensures |Enqueued(labels)| - |Dequeued(labels)| - Empties(labels) + Owed(states[0].threads)
         == Net(labels) + Owed(states[|labels|].threads)
    decreases |labels|
  {
    if labels != [] {
      assert Step(states[0], labels[0], states[0 + 1]);
      StepOwes(states[0], labels[0], states[1]);
      CountedSoFar(states[1..], labels[1..]);
      assert states[1..][|labels| - 1] == states[|labels|];
      NetSplit([labels[0]], labels[1..]);
      assert [labels[0]] + labels[1..] == labels;
    }
  }

  /** Between calls, `length` is the true queue size minus the pops that found the queue empty. */
  lemma QuietLength<A>(states: seq<State<A>>, labels: seq<Label<A>>)
    requires CleanRun(states, labels) && Init(states[0]) && states[|labels|].Quiet()
    requires forall i :: 0 <= i < |labels| ==> NoTear(states[i])
    ensures var s := states[|labels|];
      && s.length == (|Chain(s)| - 1 - Empties(labels)) % 0x1_0000_0000
      && (|Chain(s)| == 1 && Empties(labels) == 1 ==> s.length == 0xFFFF_FFFF)
  {
    hide Step, Clean, Chain, NoTear, NoDup, RegistersOk, Net, Empties, Enqueued, Dequeued, Owed, State.Quiet, Init;
    EmptyAtFirst(states[0]);
    CounterIsExact(states, labels, |labels|);
    assert labels[..|labels|] == labels;
    CountedSoFar(states, labels);
    NothingOwed(states[|labels|]);
    Conservation(states, labels);
  }

  lemma PushSideTakesNothing<A>(s: State<A>, l: Label<A>, s': State<A>)
    requires Step(s, l, s') && OneSide(s, true)
    ensures !l.Took? && !l.FoundEmpty?
  {
    hide Chain, Retired;
    if l.Took? || l.FoundEmpty? {
      PopsTake(s, l.t);
    }
  }

  lemma PopsTake<A>(s: State<A>, t: nat)
    requires Enabled(s, t) && (ThreadStep(s, t).1.Took? || ThreadStep(s, t).1.FoundEmpty?)
    ensures !OnPushSide(s.threads[t])
  {
  }

  lemma {:induction false} NothingTaken<A>(labels: seq<Label<A>>)
    requires forall i :: 0 <= i < |labels| ==> !labels[i].Took? && !labels[i].FoundEmpty?
    ensures Dequeued(labels) == [] && Empties(labels) == 0
  {
    if labels != [] {
      NothingTaken(labels[1..]);
    }
  }

  /** With pushes alone, whatever nodes they push, a list that started empty has the length that is the number
      of its nodes, while that is below 2^32. */
  lemma PushesAreCounted<A>(states: seq<State<A>>, labels: seq<Label<A>>)
    requires Run(states, labels) && Init(states[0]) && PushesOnly(labels) && states[|labels|].Quiet()
    requires |Enqueued(labels)| < 0x1_0000_0000
    ensures states[|labels|].length == |Enqueued(labels)|
  {
    hide Step, NoTear, LocksOk, RegistersOk, Net, Empties, Enqueued, Dequeued, Owed, PushesOnly, State.Quiet, Init;
    EmptyAtFirst(states[0]);
    NothingTakenBeside(states, labels);
    OneSideIsExact(states, labels, true);
    CountedSoFar(states, labels);
    NothingOwed(states[|labels|]);
    Fits(|Enqueued(labels)|);
  }

  lemma Fits(n: int)
    requires 0 <= n < 0x1_0000_0000
    ensures n % 0x1_0000_0000 == n
  {
  }

  lemma NothingTakenBeside<A>(states: seq<State<A>>, labels: seq<Label<A>>)
    requires Run(states, labels) && Init(states[0]) && PushesOnly(labels)
    ensures Dequeued(labels) == [] && Empties(labels) == 0
  {
    InitLocks(states[0]);
    forall i | 0 <= i < |labels| ensures !labels[i].Took? && !labels[i].FoundEmpty? {
      OneSideNeverTears(states, labels, true, i);
      assert Step(states[i], labels[i], states[i + 1]);
      PushSideTakesNothing(states[i], labels[i], states[i + 1]);
    }
    NothingTaken(labels);
  }

  lemma NothingOwed<A>(s: State<A>)
    requires s.Quiet()
    ensures Owed(s.threads) == 0
  {
    QuietOwesNothing(s.threads);
  }

  lemma EmptyAtFirst<A>(s: State<A>)
    requires Init(s)
    ensures s.length == 0 && RegistersOk(s) && LocksOk(s) && s.Quiet() && Owed(s.threads) == 0
  {
    InitLocks(s);
    QuietOwesNothing(s.threads);
  }
}
