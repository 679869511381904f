/** What holds of every run of the IO chain, for every number of threads and every
    schedule: the pointers each iteration is given, the absence of races and of early
    reuse of a slot, and progress to the end of the loop. */
module IoChainTheorems {
  import opened Values
  import opened IoChain
  import opened IoChainSafety

  lemma {:induction false} RunInv(c: Config, s: State, sched: seq<nat>)
    requires Init(c, s)
    ensures Inv(c, Run(c, s, sched))
  {
    if sched == [] {
      InitInv(c, s);
    } else {
      var rest, t := sched[..|sched| - 1], sched[|sched| - 1];
      RunInv(c, s, rest);
      if CanStep(Run(c, s, rest), t) {
        StepInv(c, Run(c, s, rest), t);
      }
    }
  }

  /** The states of all runs of the loop, for any number of threads. */
  ghost predicate Reachable(c: Config, r: State) {
    exists s, sched :: Init(c, s) && r == Run(c, s, sched)
  }

  lemma ReachableInv(c: Config, r: State)
    requires Reachable(c, r)
    ensures Inv(c, r)
  {
    var s, sched :| Init(c, s) && r == Run(c, s, sched);
    RunInv(c, s, sched);
  }

  // ---------------------------------------------------------------------------
  // Safety
  // ---------------------------------------------------------------------------

  /** In every interleaving, get_in and get_out of iteration k return the first pointer
      plus the advances of iterations 0 .. k-1, and every iteration past the two calls
      was given both. */
  lemma PointersAreDue(c: Config, r: State, k: nat)
    requires Reachable(c, r)
    ensures k in r.gotIn ==> r.gotIn[k] == InOf(c, k)
    ensures k in r.gotOut ==> r.gotOut[k] == OutOf(c, k)
    ensures Numbered(r)
    ensures k < r.next && Phase(r, k) >= Rank(WriteIn) ==> k in r.gotIn
    ensures k < r.next && Phase(r, k) >= Rank(DropOut) ==> k in r.gotOut
  {
    ReachableInv(c, r);
  }

  /** When iteration k is about to write a slot of the ring, every other iteration that
      reads its pointers from that slot, however many times the ring has been round, is
      done with the chain or has not been numbered. */
  lemma NoSlotIsOverwrittenEarly(c: Config, r: State, t: nat, i: nat)
    requires Reachable(c, r)
    requires t < |r.threads| && (r.threads[t].pc == WriteIn || r.threads[t].pc == WriteOut)
    requires i < r.next && i != r.threads[t].iter + 1 && i % 33 == (r.threads[t].iter + 1) % 33
    ensures Numbered(r) && Phase(r, i) >= Rank(Work)
  {
    ReachableInv(c, r);
    OtherReadersAreDone(r, t, i);
  }

  lemma OtherReadersAreDone(r: State, t: nat, i: nat)
    requires Numbered(r) && NextLock(r) && Order(Phases(r))
    requires t < |r.threads| && 8 <= Rank(r.threads[t].pc) < 17
    requires i < r.next && i != r.threads[t].iter + 1 && At(i) == At(r.threads[t].iter + 1)
    ensures Phase(r, i) >= 17
  {
    var k := r.threads[t].iter;
    assert Phase(r, k) == Rank(r.threads[t].pc);
    assert i <= k ==> i + 32 <= k;
    assert i > k ==> k + 32 <= i - 1;
    assert i > 0 ==> Phase(r, i - 1) >= 8;
  }

  /** The shared fields of the chain. */
  datatype Field = NextCounter | InPtr(slot: nat) | OutPtr(slot: nat)

  /** The shared field that the next step of a thread reads or writes, if any. */
  function Touches(th: Thread): Option<Field> {
    match th.pc
    case TakeNumber => Some(NextCounter)
    case BumpNext => Some(NextCounter)
    case ReadIn => Some(InPtr(At(th.iter)))
    case WriteIn => Some(InPtr(At(th.iter + 1)))
    case ReadOut => Some(OutPtr(At(th.iter)))
    case WriteOut => Some(OutPtr(At(th.iter + 1)))
    case _ => None
  }

  /** A step neither reads nor writes a shared field that it does not touch: with any other value in the field it does
      the same, and leaves that value. */
  lemma CounterUntouched(c: Config, s: State, t: nat, n: nat)
    requires Shape(s) && CanStep(s, t) && Touches(s.threads[t]) != Some(NextCounter)
    ensures Step(c, s.(next := n), t) == Step(c, s, t).(next := n)
  {
  }

  /** The slots with another pointer in slot j. */
  function WithPtr(slots: seq<Slot>, j: nat, p: int): (r: seq<Slot>)
    requires j < |slots|
    ensures |r| == |slots|
  {
    slots[j := slots[j].(ptr := p)]
  }

  lemma HolderElsewhere(slots: seq<Slot>, i: nat, h: Option<nat>, j: nat, p: int)
    requires i < |slots| && j < |slots|
    ensures var w := WithPtr(slots, j, p);
            w[i := w[i].(holder := h)] == WithPtr(slots[i := slots[i].(holder := h)], j, p)
  {
  }

  lemma PtrElsewhere(slots: seq<Slot>, i: nat, q: int, j: nat, p: int)
    requires i < |slots| && j < |slots| && i != j
    ensures var w := WithPtr(slots, j, p);
            w[i := w[i].(ptr := q)] == WithPtr(slots[i := slots[i].(ptr := q)], j, p)
  {
  }

  lemma InsUntouched(c: Config, s: State, t: nat, j: nat, p: int)
    requires Shape(s) && j < 33 && t < |s.threads| && Touches(s.threads[t]) != Some(InPtr(j))
    ensures InsAfter(c, s.(ins := WithPtr(s.ins, j, p)), t) == WithPtr(InsAfter(c, s, t), j, p)
  {
    var th := s.threads[t];
    match th.pc
    case WantIn => HolderElsewhere(s.ins, At(th.iter), Some(t), j, p);
    case WantInNext => HolderElsewhere(s.ins, At(th.iter + 1), Some(t), j, p);
    case WriteIn => PtrElsewhere(s.ins, At(th.iter + 1), th.inPtr + c.advIn(th.iter), j, p);
    case DropInNext => HolderElsewhere(s.ins, At(th.iter + 1), None, j, p);
    case DropIn => HolderElsewhere(s.ins, At(th.iter), None, j, p);
    case _ =>
  }

  lemma OutsUntouched(c: Config, s: State, t: nat, j: nat, p: int)
    requires Shape(s) && j < 33 && t < |s.threads| && Touches(s.threads[t]) != Some(OutPtr(j))
    ensures OutsAfter(c, s.(outs := WithPtr(s.outs, j, p)), t) == WithPtr(OutsAfter(c, s, t), j, p)
  {
    var th := s.threads[t];
    match th.pc
    case WantOutNext => HolderElsewhere(s.outs, At(th.iter + 1), Some(t), j, p);
    case WantOut => HolderElsewhere(s.outs, At(th.iter), Some(t), j, p);
    case DropOut => HolderElsewhere(s.outs, At(th.iter), None, j, p);
    case WriteOut => PtrElsewhere(s.outs, At(th.iter + 1), th.outPtr + c.advOut(th.iter), j, p);
    case DropOutNext => HolderElsewhere(s.outs, At(th.iter + 1), None, j, p);
    case _ =>
  }

  lemma InPtrUntouched(c: Config, s: State, t: nat, j: nat, p: int)
    requires Shape(s) && j < 33 && CanStep(s, t) && Touches(s.threads[t]) != Some(InPtr(j))
    ensures var r, s' := Step(c, s.(ins := WithPtr(s.ins, j, p)), t), Step(c, s, t);
            r == s'.(ins := WithPtr(s'.ins, j, p))
  {
    var u := s.(ins := WithPtr(s.ins, j, p));
    InsUntouched(c, s, t, j, p);
    assert ThreadAfter(u, t) == ThreadAfter(s, t);
  }

  lemma OutPtrUntouched(c: Config, s: State, t: nat, j: nat, p: int)
    requires Shape(s) && j < 33 && CanStep(s, t) && Touches(s.threads[t]) != Some(OutPtr(j))
    ensures var r, s' := Step(c, s.(outs := WithPtr(s.outs, j, p)), t), Step(c, s, t);
            r == s'.(outs := WithPtr(s'.outs, j, p))
  {
    var u := s.(outs := WithPtr(s.outs, j, p));
    OutsUntouched(c, s, t, j, p);
    assert ThreadAfter(u, t) == ThreadAfter(s, t);
  }

  /** No two threads are ever about to touch the same shared field. */
  lemma NoRace(c: Config, r: State, t: nat, u: nat)
    requires Reachable(c, r)
    requires t < |r.threads| && u < |r.threads| && t != u
    ensures Touches(r.threads[t]).Some? ==> Touches(r.threads[t]) != Touches(r.threads[u])
  {
    ReachableInv(c, r);
    FieldsAreLocked(r, t);
    FieldsAreLocked(r, u);
  }

  /** A shared field is touched only under its lock. */
  lemma FieldsAreLocked(r: State, t: nat)
    requires Numbered(r) && NextLock(r) && InLocks(r) && OutLocks(r) && t < |r.threads|
    ensures match Touches(r.threads[t])
            case Some(NextCounter) => r.nextHolder == Some(t)
            case Some(InPtr(j)) => j < IOC_SIZE && r.ins[j].holder == Some(t)
            case Some(OutPtr(j)) => j < IOC_SIZE && r.outs[j].holder == Some(t)
            case None => true
  {
    match Touches(r.threads[t])
    case Some(InPtr(j)) =>
      assert HasIn(r.threads[t], j);
    case Some(OutPtr(j)) =>
      assert HasOut(r.threads[t], j);
    case _ =>
  }

  // ---------------------------------------------------------------------------
  // Progress
  // ---------------------------------------------------------------------------

  /** Iteration k is the lowest-numbered one that is not finished. */
  ghost predicate IsLowest(s: State, k: nat)
    requires Numbered(s)
  {
    k < s.next && Phase(s, k) < FINISHED && forall i :: 0 <= i < k ==> Phase(s, i) == FINISHED
  }

  /** The lowest-numbered unfinished iteration can always take its next step. */
  lemma LowestCanStep(c: Config, s: State, k: nat)
    requires Inv(c, s) && IsLowest(s, k)
    ensures CanStep(s, s.runner[k])
  {
    var t := s.runner[k];
    var j, j' := At(k), At(k + 1);
    match s.threads[t].pc
    case WantIn =>
      InLockIsFree(s, k, j);
    case WantInNext =>
      InLockIsFree(s, k, j');
    case WantOutNext =>
      OutLockIsFree(s, k, j');
    case WantOut =>
      OutLockIsFree(s, k, j);
    case _ =>
  }

  /** A thread that holds a slot lock runs an unfinished iteration. */
  lemma HolderIsLive(s: State, u: nat, k: nat)
    requires Numbered(s) && u < |s.threads| && 5 <= Rank(s.threads[u].pc) && k < s.next
    requires forall i :: 0 <= i < k ==> Phase(s, i) == FINISHED
    ensures k <= s.threads[u].iter < s.next && Phase(s, s.threads[u].iter) == Rank(s.threads[u].pc)
    ensures s.runner[s.threads[u].iter] == u
  {
    assert Phase(s, s.threads[u].iter) == Rank(s.threads[u].pc);
  }

  lemma InLockIsFree(s: State, k: nat, j: nat)
    requires Numbered(s) && NextLock(s) && InLocks(s) && k < s.next && 4 <= Phase(s, k) <= 5
    requires forall i :: 0 <= i < k ==> Phase(s, i) == FINISHED
    requires j == if Phase(s, k) == 4 then At(k) else At(k + 1)
    ensures s.ins[j].holder == None
  {
    assert s.next == k + 1;
    if s.ins[j].holder.Some? {
      var u := s.ins[j].holder.value;
      assert u < |s.threads| && HasIn(s.threads[u], j);
      HolderIsLive(s, u, k);
      assert false;
    }
  }

  lemma OutLockIsFree(s: State, k: nat, j: nat)
    requires Numbered(s) && NextLock(s) && OutLocks(s) && Order(Phases(s))
    requires k < s.next && (Phase(s, k) == 6 || Phase(s, k) == 11)
    requires forall i :: 0 <= i < k ==> Phase(s, i) == FINISHED
    requires j == if Phase(s, k) == 11 then At(k) else At(k + 1)
    ensures s.outs[j].holder == None
  {
    if s.outs[j].holder.Some? {
      var u := s.outs[j].holder.value;
      assert u < |s.threads| && HasOut(s.threads[u], j);
      HolderIsLive(s, u, k);
      assert false;
    }
  }

  ghost function Sum(f: Thread -> int, ths: seq<Thread>): int {
    if ths == [] then 0 else Sum(f, ths[..|ths| - 1]) + f(ths[|ths| - 1])
  }

  lemma {:induction false} SumUpdate(f: Thread -> int, ths: seq<Thread>, t: nat, th: Thread)
    requires t < |ths|
    ensures Sum(f, ths[t := th]) == Sum(f, ths) - f(ths[t]) + f(th)
  {
    var n := |ths| - 1;
    if t == n {
      assert ths[t := th][..n] == ths[..n];
    } else {
      assert ths[t := th][..n] == ths[..n][t := th];
      SumUpdate(f, ths[..n], t, th);
    }
  }

  /** A sum of non-negative terms is zero exactly when every term is. */
  lemma {:induction false} SumZero(f: Thread -> int, ths: seq<Thread>)
    requires forall th: Thread :: f(th) >= 0
    ensures Sum(f, ths) >= 0
    ensures Sum(f, ths) == 0 <==> forall t :: 0 <= t < |ths| ==> f(ths[t]) == 0
  {
    if ths != [] {
      var n := |ths| - 1;
      SumZero(f, ths[..n]);
      assert forall t :: 0 <= t < n ==> ths[..n][t] == ths[t];
    }
  }

  /** The steps a thread still has to take before it is idle again. */
  function StepsLeft(th: Thread): int {
    if th.pc == Idle then 0 else FINISHED - Rank(th.pc)
  }

  /** One for a thread that the loop gave an iteration which has no number yet. */
  function Unnumbered(th: Thread): int {
    if 1 <= Rank(th.pc) <= 3 then 1 else 0
  }

  ghost function Left(s: State): int {
    FINISHED * s.todo + Sum(StepsLeft, s.threads)
  }

  /** The parallel loop is over. */
  ghost predicate Completed(s: State) {
    s.todo == 0 && forall t :: 0 <= t < |s.threads| ==> s.threads[t].pc == Idle
  }

  lemma LeftZero(s: State)
    ensures Left(s) >= 0 && (Left(s) == 0 <==> Completed(s))
  {
    SumZero(StepsLeft, s.threads);
    assert forall t :: 0 <= t < |s.threads| ==> (StepsLeft(s.threads[t]) == 0 <==> s.threads[t].pc == Idle);
  }

  /** Every step is progress. */
  lemma StepLeft(c: Config, s: State, t: nat)
    requires Shape(s) && CanStep(s, t)
    ensures Left(Step(c, s, t)) == Left(s) - 1
  {
    SumUpdate(StepsLeft, s.threads, t, ThreadAfter(s, t));
  }

  lemma {:induction false} AllIdleSum(f: Thread -> int, ths: seq<Thread>)
    requires forall t :: 0 <= t < |ths| ==> f(ths[t]) == 0
    ensures Sum(f, ths) == 0
  {
    if ths != [] {
      var n := |ths| - 1;
      assert forall t :: 0 <= t < n ==> ths[..n][t] == ths[t];
      AllIdleSum(f, ths[..n]);
    }
  }

  /** Whatever the schedule, a run takes one step for each of the 18 steps of each
      iteration and then it is over; it can neither run longer nor end earlier. */
  lemma {:induction false} EveryRunEnds(c: Config, s: State, sched: seq<nat>)
    requires Init(c, s)
    ensures Taken(c, s, sched) + Left(Run(c, s, sched)) == FINISHED * c.total
    ensures Taken(c, s, sched) <= FINISHED * c.total
    ensures Taken(c, s, sched) == FINISHED * c.total <==> Completed(Run(c, s, sched))
  {
    if sched == [] {
      AllIdleSum(StepsLeft, s.threads);
    } else {
      var rest, t := sched[..|sched| - 1], sched[|sched| - 1];
      EveryRunEnds(c, s, rest);
      if CanStep(Run(c, s, rest), t) {
        StepLeft(c, Run(c, s, rest), t);
      }
    }
    LeftZero(Run(c, s, sched));
  }

  lemma {:induction false} RunConserves(c: Config, s: State, sched: seq<nat>)
    requires Init(c, s)
    ensures var r := Run(c, s, sched); r.todo + Sum(Unnumbered, r.threads) + r.next == c.total
  {
    if sched == [] {
      AllIdleSum(Unnumbered, s.threads);
    } else {
      var rest, t := sched[..|sched| - 1], sched[|sched| - 1];
      RunConserves(c, s, rest);
      var m := Run(c, s, rest);
      if CanStep(m, t) {
        SumUpdate(Unnumbered, m.threads, t, ThreadAfter(m, t));
      }
    }
  }

  lemma {:induction false} LowestUnfinished(s: State, n: nat) returns (k: nat)
    requires Numbered(s) && n < s.next && Phase(s, n) < FINISHED
    ensures k <= n && IsLowest(s, k)
    decreases n
  {
    if i :| 0 <= i < n && Phase(s, i) < FINISHED {
      k := LowestUnfinished(s, i);
    } else {
      k := n;
    }
  }

  /** No deadlock: until the loop is over some thread can step, even with more threads
      than slots; if a numbered iteration is unfinished, the lowest one can. */
  lemma NoDeadlock(c: Config, r: State)
    requires Reachable(c, r) && |r.threads| > 0 && !Completed(r)
    ensures exists t :: 0 <= t < |r.threads| && CanStep(r, t)
    ensures Numbered(r)
    ensures forall k: nat :: IsLowest(r, k) ==> CanStep(r, r.runner[k])
  {
    ReachableInv(c, r);
    forall k: nat | IsLowest(r, k)
      ensures CanStep(r, r.runner[k])
    {
      LowestCanStep(c, r, k);
    }
    SomeoneCanStep(c, r);
  }

  lemma SomeoneCanStep(c: Config, r: State)
    requires Inv(c, r) && |r.threads| > 0 && !Completed(r)
    ensures exists t :: 0 <= t < |r.threads| && CanStep(r, t)
  {
    if t :| 0 <= t < |r.threads| && Rank(r.threads[t].pc) >= 4 {
      assert Phase(r, r.threads[t].iter) < FINISHED;
      var k := LowestUnfinished(r, r.threads[t].iter);
      LowestCanStep(c, r, k);
    } else if t :| 0 <= t < |r.threads| && 2 <= Rank(r.threads[t].pc) {
      assert CanStep(r, t);
    } else if t :| 0 <= t < |r.threads| && r.threads[t].pc == WantNext {
      assert CanStep(r, t);
    } else {
      assert r.threads[0].pc == Idle;
      assert CanStep(r, 0);
    }
  }

  /** At the end of the loop every iteration has been numbered, has been given its
      pointers and has finished, every lock is free, and the ring hands the next caller
      the pointers behind all iterations. */
  lemma CompletedRun(c: Config, r: State)
    requires Reachable(c, r) && Completed(r)
    ensures r.next == c.total && Numbered(r)
    ensures forall k :: 0 <= k < c.total ==> Phase(r, k) == FINISHED
    ensures forall k :: 0 <= k < c.total ==> k in r.gotIn && r.gotIn[k] == InOf(c, k)
    ensures forall k :: 0 <= k < c.total ==> k in r.gotOut && r.gotOut[k] == OutOf(c, k)
    ensures r.nextHolder == None
    ensures forall j :: 0 <= j < IOC_SIZE ==> r.ins[j].holder == None && r.outs[j].holder == None
    ensures r.ins[At(c.total)].ptr == InOf(c, c.total) && r.outs[At(c.total)].ptr == OutOf(c, c.total)
  {
    ReachableInv(c, r);
    AllNumbered(c, r);
    AllFinished(r);
    AllFree(r);
    assert Waiting(Phases(r), r.next);
  }

  lemma AllNumbered(c: Config, r: State)
    requires Reachable(c, r) && Completed(r)
    ensures r.next == c.total
  {
    var s, sched :| Init(c, s) && r == Run(c, s, sched);
    RunConserves(c, s, sched);
    AllIdleSum(Unnumbered, r.threads);
  }

  lemma AllFinished(r: State)
    requires Numbered(r) && Completed(r)
    ensures forall k :: 0 <= k < r.next ==> Phases(r)[k] == Phase(r, k) == FINISHED
  {
  }

  lemma AllFree(r: State)
    requires Numbered(r) && NextLock(r) && InLocks(r) && OutLocks(r) && Completed(r)
    ensures r.nextHolder == None
    ensures forall j :: 0 <= j < IOC_SIZE ==> r.ins[j].holder == None && r.outs[j].holder == None
  {
    forall j | 0 <= j < IOC_SIZE
      ensures r.ins[j].holder == None && r.outs[j].holder == None
    {
      assert forall t: nat :: t < |r.threads| ==> !HasIn(r.threads[t], j) && !HasOut(r.threads[t], j);
    }
  }
}
