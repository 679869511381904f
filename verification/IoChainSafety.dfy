/** The invariant of the IO chain is kept by every step of every thread. */
module IoChainSafety {
  import opened Values
  import opened IoChain

  /** The order lets iteration k go on. */
  ghost predicate MayAdvance(ph: seq<nat>, k: nat) {
    && k < |ph|
    && (ph[k] == 4 && k > 0 ==> ph[k - 1] >= 11)
    && (ph[k] == 5 ==> forall i :: 0 <= i && i + 32 <= k ==> ph[i] >= 17)
    && (ph[k] == 11 && k > 0 ==> ph[k - 1] >= 16)
  }

  lemma OrderAdvances(ph: seq<nat>, k: nat)
    requires Order(ph) && MayAdvance(ph, k)
    ensures Order(ph[k := ph[k] + 1])
  {
  }

  // A step that writes no pointer keeps every pointer that is still waited for.

  lemma InPtrsAdvance(c: Config, ph: seq<nat>, k: nat, ins: seq<Slot>, ins': seq<Slot>)
    requires |ins| == |ins'| == IOC_SIZE && InPtrs(c, ph, ins) && k < |ph| && ph[k] != 9
    requires forall j :: 0 <= j < IOC_SIZE ==> ins'[j].ptr == ins[j].ptr
    ensures InPtrs(c, ph[k := ph[k] + 1], ins')
  {
    var ph' := ph[k := ph[k] + 1];
    forall i: nat | Waiting(ph', i) && (i == 0 || ph'[i - 1] >= 10)
      ensures ins'[At(i)].ptr == InOf(c, i)
    {
      assert Waiting(ph, i);
    }
  }

  lemma OutPtrsAdvance(c: Config, ph: seq<nat>, k: nat, outs: seq<Slot>, outs': seq<Slot>)
    requires |outs| == |outs'| == IOC_SIZE && OutPtrs(c, ph, outs) && k < |ph| && ph[k] != 14
    requires forall j :: 0 <= j < IOC_SIZE ==> outs'[j].ptr == outs[j].ptr
    ensures OutPtrs(c, ph[k := ph[k] + 1], outs')
  {
    var ph' := ph[k := ph[k] + 1];
    forall i: nat | Waiting(ph', i) && (i == 0 || ph'[i - 1] >= 15)
      ensures outs'[At(i)].ptr == OutOf(c, i)
    {
      assert Waiting(ph, i);
    }
  }

  /** Two waiting iterations never share the slot that iteration k is about to write: the
      ring is reused only behind the slowest reader. */
  lemma SlotIsFresh(ph: seq<nat>, k: nat, i: nat)
    requires Order(ph) && k < |ph| && 6 <= ph[k] < 17
    requires Waiting(ph, i) && i != k + 1
    requires i == 0 || ph[i - 1] >= 6
    ensures At(i) != At(k + 1)
  {
    assert i <= k && At(i) == At(k + 1) ==> i + 32 <= k;
    assert i > k + 1 && At(i) == At(k + 1) ==> k + 32 <= i - 1;
  }

  lemma InPtrsWrite(c: Config, ph: seq<nat>, k: nat, ins: seq<Slot>, ins': seq<Slot>)
    requires |ins| == IOC_SIZE && InPtrs(c, ph, ins) && Order(ph) && k < |ph| && ph[k] == 9
    requires ins' == ins[At(k + 1) := ins[At(k + 1)].(ptr := InOf(c, k) + c.advIn(k))]
    ensures InPtrs(c, ph[k := ph[k] + 1], ins')
  {
    var ph' := ph[k := ph[k] + 1];
    forall i: nat | Waiting(ph', i) && (i == 0 || ph'[i - 1] >= 10)
      ensures ins'[At(i)].ptr == InOf(c, i)
    {
      assert Waiting(ph, i);
      if i != k + 1 {
        SlotIsFresh(ph, k, i);
      }
    }
  }

  lemma OutPtrsWrite(c: Config, ph: seq<nat>, k: nat, outs: seq<Slot>, outs': seq<Slot>)
    requires |outs| == IOC_SIZE && OutPtrs(c, ph, outs) && Order(ph) && k < |ph| && ph[k] == 14
    requires outs' == outs[At(k + 1) := outs[At(k + 1)].(ptr := OutOf(c, k) + c.advOut(k))]
    ensures OutPtrs(c, ph[k := ph[k] + 1], outs')
  {
    var ph' := ph[k := ph[k] + 1];
    forall i: nat | Waiting(ph', i) && (i == 0 || ph'[i - 1] >= 15)
      ensures outs'[At(i)].ptr == OutOf(c, i)
    {
      assert Waiting(ph, i);
      if i != k + 1 {
        SlotIsFresh(ph, k, i);
      }
    }
  }

  /** One thread moves; it keeps, takes or drops its slot locks accordingly. */
  lemma InLocksMove(s: State, s': State, t: nat, th: Thread)
    requires Shape(s) && Shape(s') && InLocks(s) && t < |s.threads| && s'.threads == s.threads[t := th]
    requires forall j: nat :: j < IOC_SIZE ==> InLockMoves(s, s', t, j)
    ensures InLocks(s')
  {
    forall j: nat, u: nat | j < IOC_SIZE && u < |s'.threads|
      ensures s'.ins[j].holder == Some(u) <==> HasIn(s'.threads[u], j)
    {
      assert InLockMoves(s, s', t, j);
      assert u != t ==> (HasIn(s'.threads[u], j) <==> HasIn(s.threads[u], j));
    }
    forall j: nat | j < IOC_SIZE && s'.ins[j].holder.Some?
      ensures s'.ins[j].holder.value < |s'.threads|
    {
      assert InLockMoves(s, s', t, j);
    }
  }

  lemma OutLocksMove(s: State, s': State, t: nat, th: Thread)
    requires Shape(s) && Shape(s') && OutLocks(s) && t < |s.threads| && s'.threads == s.threads[t := th]
    requires forall j: nat :: j < IOC_SIZE ==> OutLockMoves(s, s', t, j)
    ensures OutLocks(s')
  {
    forall j: nat, u: nat | j < IOC_SIZE && u < |s'.threads|
      ensures s'.outs[j].holder == Some(u) <==> HasOut(s'.threads[u], j)
    {
      assert OutLockMoves(s, s', t, j);
      assert u != t ==> (HasOut(s'.threads[u], j) <==> HasOut(s.threads[u], j));
    }
    forall j: nat | j < IOC_SIZE && s'.outs[j].holder.Some?
      ensures s'.outs[j].holder.value < |s'.threads|
    {
      assert OutLockMoves(s, s', t, j);
    }
  }

  /** The three facts the locks give a thread when it acquires one. */
  lemma AcquireIn(s: State, t: nat)
    requires Numbered(s) && NextLock(s) && InLocks(s)
    requires t < |s.threads| && s.threads[t].pc == WantIn && CanStep(s, t)
    ensures var k := s.threads[t].iter; k > 0 ==> Phase(s, k - 1) >= 11
  {
    var k := s.threads[t].iter;
    if k > 0 {
      var u, j := s.threads[s.runner[k - 1]], At(k);
      assert Phase(s, k - 1) >= 8;
      assert Phase(s, k - 1) < 11 ==> HasIn(u, j);
    }
  }

  lemma AcquireInNext(s: State, t: nat, i: nat)
    requires Numbered(s) && NextLock(s) && InLocks(s) && Order(Phases(s))
    requires t < |s.threads| && s.threads[t].pc == WantInNext && CanStep(s, t)
    requires i + 32 <= s.threads[t].iter
    ensures Phase(s, i) >= 17
  {
    var k := s.threads[t].iter;
    if i + 32 < k {
      assert Phases(s)[k - 1] == Phase(s, k - 1) >= 8;
      assert Phases(s)[i] == Phase(s, i);
    } else {
      var u, j := s.threads[s.runner[i]], At(k + 1);
      assert Phase(s, i) >= 8 && At(i) == j;
      assert Phase(s, i) < 17 ==> HasIn(u, j);
    }
  }

  lemma AcquireOut(s: State, t: nat)
    requires Numbered(s) && NextLock(s) && OutLocks(s)
    requires t < |s.threads| && s.threads[t].pc == WantOut && CanStep(s, t)
    ensures var k := s.threads[t].iter; k > 0 ==> Phase(s, k - 1) >= 16
  {
    var k := s.threads[t].iter;
    if k > 0 {
      var u, j := s.threads[s.runner[k - 1]], At(k);
      assert Phase(s, k - 1) >= 8;
      assert Phase(s, k - 1) < 16 ==> HasOut(u, j);
    }
  }

  /** A step moves its thread to the next program point and touches no other thread. */
  ghost predicate Moves(s: State, s': State, t: nat) {
    && t < |s.threads| && |s'.threads| == |s.threads|
    && var th := s'.threads[t];
       && s'.threads == s.threads[t := th]
       && (if s.threads[t].pc == Work then th.pc == Idle else Rank(th.pc) == Rank(s.threads[t].pc) + 1)
       && (s.threads[t].pc != TakeNumber ==> th.iter == s.threads[t].iter)
       && (s.threads[t].pc != BumpNext ==> s'.next == s.next && s'.runner == s.runner)
  }

  lemma StepThread(c: Config, s: State, t: nat)
    requires Shape(s) && CanStep(s, t)
    ensures Moves(s, Step(c, s, t), t)
  {
  }

  lemma StepAdvances(c: Config, s: State, t: nat)
    requires Numbered(s) && CanStep(s, t) && Rank(s.threads[t].pc) >= 4
    ensures Numbered(Step(c, s, t))
    ensures var k := s.threads[t].iter;
            && k < s.next && Phases(s)[k] == Rank(s.threads[t].pc)
            && Phases(Step(c, s, t)) == Phases(s)[k := Phases(s)[k] + 1]
  {
    var s' := Step(c, s, t);
    StepThread(c, s, t);
    MovePhases(s, s', t, s'.threads[t]);
  }

  lemma StepOrder(c: Config, s: State, t: nat)
    requires Numbered(s) && NextLock(s) && InLocks(s) && OutLocks(s) && Order(Phases(s))
    requires CanStep(s, t) && Rank(s.threads[t].pc) >= 4
    ensures Numbered(Step(c, s, t)) && Order(Phases(Step(c, s, t)))
  {
    StepAdvances(c, s, t);
    LockAdvances(s, t);
    OrderAdvances(Phases(s), s.threads[t].iter);
  }

  /** The lock that a thread waits for is free only when the order lets its iteration go on. */
  lemma LockAdvances(s: State, t: nat)
    requires Numbered(s) && NextLock(s) && InLocks(s) && OutLocks(s) && Order(Phases(s))
    requires CanStep(s, t) && Rank(s.threads[t].pc) >= 4
    ensures MayAdvance(Phases(s), s.threads[t].iter)
  {
    var k := s.threads[t].iter;
    if s.threads[t].pc == WantIn {
      AcquireIn(s, t);
    } else if s.threads[t].pc == WantInNext {
      forall i: nat | i + 32 <= k
        ensures Phases(s)[i] >= 17
      {
        AcquireInNext(s, t, i);
      }
    } else if s.threads[t].pc == WantOut {
      AcquireOut(s, t);
    }
  }

  /** The holder of one slot lock follows the program point of the moving thread. */
  ghost predicate InLockMoves(s: State, s': State, t: nat, j: nat)
    requires Shape(s) && Shape(s') && t < |s'.threads| && j < IOC_SIZE
  {
    if HasIn(s'.threads[t], j) then
      s'.ins[j].holder == Some(t) && (s.ins[j].holder == None || s.ins[j].holder == Some(t))
    else
      s'.ins[j].holder == if s.ins[j].holder == Some(t) then None else s.ins[j].holder
  }

  ghost predicate OutLockMoves(s: State, s': State, t: nat, j: nat)
    requires Shape(s) && Shape(s') && t < |s'.threads| && j < IOC_SIZE
  {
    if HasOut(s'.threads[t], j) then
      s'.outs[j].holder == Some(t) && (s.outs[j].holder == None || s.outs[j].holder == Some(t))
    else
      s'.outs[j].holder == if s.outs[j].holder == Some(t) then None else s.outs[j].holder
  }

  lemma StepInSlot(c: Config, s: State, t: nat, j: nat)
    requires Shape(s) && CanStep(s, t) && j < IOC_SIZE
    requires s.ins[j].holder == Some(t) <==> HasIn(s.threads[t], j)
    ensures InLockMoves(s, Step(c, s, t), t, j)
  {
  }

  lemma StepOutSlot(c: Config, s: State, t: nat, j: nat)
    requires Shape(s) && CanStep(s, t) && j < IOC_SIZE
    requires s.outs[j].holder == Some(t) <==> HasOut(s.threads[t], j)
    ensures OutLockMoves(s, Step(c, s, t), t, j)
  {
  }

  lemma StepInLocks(c: Config, s: State, t: nat)
    requires Shape(s) && InLocks(s) && OutLocks(s) && CanStep(s, t)
    ensures InLocks(Step(c, s, t))
  {
    var s' := Step(c, s, t);
    StepThread(c, s, t);
    forall j: nat | j < IOC_SIZE
      ensures InLockMoves(s, s', t, j)
    {
      assert s.ins[j].holder == Some(t) <==> HasIn(s.threads[t], j);
      StepInSlot(c, s, t, j);
    }
    InLocksMove(s, s', t, s'.threads[t]);
  }

  lemma StepOutLocks(c: Config, s: State, t: nat)
    requires Shape(s) && InLocks(s) && OutLocks(s) && CanStep(s, t)
    ensures OutLocks(Step(c, s, t))
  {
    var s' := Step(c, s, t);
    StepThread(c, s, t);
    forall j: nat | j < IOC_SIZE
      ensures OutLockMoves(s, s', t, j)
    {
      assert s.outs[j].holder == Some(t) <==> HasOut(s.threads[t], j);
      StepOutSlot(c, s, t, j);
    }
    OutLocksMove(s, s', t, s'.threads[t]);
  }

  lemma StepNextLock(c: Config, s: State, t: nat)
    requires Numbered(s) && NextLock(s) && CanStep(s, t)
    ensures Numbered(Step(c, s, t)) && NextLock(Step(c, s, t))
  {
    var s' := Step(c, s, t);
    var th := s'.threads[t];
    StepThread(c, s, t);
    if s.threads[t].pc == BumpNext {
      BumpPhases(s, s', t, th);
      assert s.next > 0 ==> s.runner[s.next - 1] != t || Phase(s, s.next - 1) == FINISHED;
    } else if Rank(s.threads[t].pc) < 3 {
      EntryPhases(s, s', t, th);
    } else {
      MovePhases(s, s', t, th);
    }
  }

  lemma StepInPtrs(c: Config, s: State, t: nat)
    requires Numbered(s) && Order(Phases(s)) && InPtrs(c, Phases(s), s.ins) && Carried(c, s.threads)
    requires CanStep(s, t) && Rank(s.threads[t].pc) >= 4
    ensures Numbered(Step(c, s, t)) && InPtrs(c, Phases(Step(c, s, t)), Step(c, s, t).ins)
  {
    var s' := Step(c, s, t);
    StepAdvances(c, s, t);
    if s.threads[t].pc == WriteIn {
      InPtrsWrite(c, Phases(s), s.threads[t].iter, s.ins, s'.ins);
    } else {
      InPtrsAdvance(c, Phases(s), s.threads[t].iter, s.ins, s'.ins);
    }
  }

  lemma StepOutPtrs(c: Config, s: State, t: nat)
    requires Numbered(s) && Order(Phases(s)) && OutPtrs(c, Phases(s), s.outs) && Carried(c, s.threads)
    requires CanStep(s, t) && Rank(s.threads[t].pc) >= 4
    ensures Numbered(Step(c, s, t)) && OutPtrs(c, Phases(Step(c, s, t)), Step(c, s, t).outs)
  {
    var s' := Step(c, s, t);
    StepAdvances(c, s, t);
    if s.threads[t].pc == WriteOut {
      OutPtrsWrite(c, Phases(s), s.threads[t].iter, s.outs, s'.outs);
    } else {
      OutPtrsAdvance(c, Phases(s), s.threads[t].iter, s.outs, s'.outs);
    }
  }

  // What the threads and the history record stays right.

  /** The pointer that get_in reads is the one due to its iteration. */
  lemma ReadInIsDue(c: Config, ph: seq<nat>, ins: seq<Slot>, k: nat)
    requires |ins| == IOC_SIZE && Order(ph) && InPtrs(c, ph, ins) && k < |ph| && ph[k] == Rank(ReadIn)
    ensures ins[At(k)].ptr == InOf(c, k)
  {
    assert Waiting(ph, k);
  }

  lemma StepGivenIn(c: Config, s: State, t: nat)
    requires Numbered(s) && Order(Phases(s)) && InPtrs(c, Phases(s), s.ins) && GivenIn(c, Phases(s), s.gotIn)
    requires CanStep(s, t) && Rank(s.threads[t].pc) >= 4
    ensures Numbered(Step(c, s, t)) && GivenIn(c, Phases(Step(c, s, t)), Step(c, s, t).gotIn)
  {
    StepAdvances(c, s, t);
    var k := s.threads[t].iter;
    if s.threads[t].pc == ReadIn {
      ReadInIsDue(c, Phases(s), s.ins, k);
    }
  }

  /** The pointer that get_out reads is the one due to its iteration. */
  lemma ReadOutIsDue(c: Config, ph: seq<nat>, outs: seq<Slot>, k: nat)
    requires |outs| == IOC_SIZE && Order(ph) && OutPtrs(c, ph, outs) && k < |ph| && ph[k] == Rank(ReadOut)
    ensures outs[At(k)].ptr == OutOf(c, k)
  {
    assert Waiting(ph, k);
  }

  lemma StepGivenOut(c: Config, s: State, t: nat)
    requires Numbered(s) && Order(Phases(s)) && OutPtrs(c, Phases(s), s.outs) && GivenOut(c, Phases(s), s.gotOut)
    requires CanStep(s, t) && Rank(s.threads[t].pc) >= 4
    ensures Numbered(Step(c, s, t)) && GivenOut(c, Phases(Step(c, s, t)), Step(c, s, t).gotOut)
  {
    StepAdvances(c, s, t);
    var k := s.threads[t].iter;
    if s.threads[t].pc == ReadOut {
      ReadOutIsDue(c, Phases(s), s.outs, k);
    }
  }

  lemma StepCarried(c: Config, s: State, t: nat)
    requires Numbered(s) && Order(Phases(s)) && InPtrs(c, Phases(s), s.ins) && OutPtrs(c, Phases(s), s.outs)
    requires CanStep(s, t) && Carried(c, s.threads)
    ensures Carried(c, Step(c, s, t).threads)
  {
    var k := s.threads[t].iter;
    if s.threads[t].pc == ReadIn {
      StepAdvances(c, s, t);
      ReadInIsDue(c, Phases(s), s.ins, k);
    } else if s.threads[t].pc == ReadOut {
      StepAdvances(c, s, t);
      ReadOutIsDue(c, Phases(s), s.outs, k);
    }
  }

  /** The steps before an iteration has a number. */
  lemma StepEntry(c: Config, s: State, t: nat)
    requires Inv(c, s) && CanStep(s, t) && Rank(s.threads[t].pc) < 3
    ensures Inv(c, Step(c, s, t))
  {
    var s' := Step(c, s, t);
    EntryPhases(s, s', t, s'.threads[t]);
    StepNextLock(c, s, t);
    StepInLocks(c, s, t);
    StepOutLocks(c, s, t);
    StepCarried(c, s, t);
  }

  /** A new number is waited for by nobody else and changes no pointer. */
  lemma BumpKeeps(c: Config, ph: seq<nat>, ins: seq<Slot>, outs: seq<Slot>)
    requires |ins| == |outs| == IOC_SIZE && Order(ph) && InPtrs(c, ph, ins) && OutPtrs(c, ph, outs)
    ensures Order(ph + [4]) && InPtrs(c, ph + [4], ins) && OutPtrs(c, ph + [4], outs)
  {
    forall i: nat | Waiting(ph + [4], i)
      ensures i <= |ph| ==> Waiting(ph, i)
    {
    }
  }

  lemma StepBump(c: Config, s: State, t: nat)
    requires Inv(c, s) && CanStep(s, t) && s.threads[t].pc == BumpNext
    ensures Inv(c, Step(c, s, t))
  {
    var s' := Step(c, s, t);
    BumpPhases(s, s', t, s'.threads[t]);
    StepNextLock(c, s, t);
    StepInLocks(c, s, t);
    StepOutLocks(c, s, t);
    StepCarried(c, s, t);
    BumpKeeps(c, Phases(s), s.ins, s.outs);
  }

  lemma StepInv(c: Config, s: State, t: nat)
    requires Inv(c, s) && CanStep(s, t)
    ensures Inv(c, Step(c, s, t))
  {
    if Rank(s.threads[t].pc) < 3 {
      StepEntry(c, s, t);
    } else if s.threads[t].pc == BumpNext {
      StepBump(c, s, t);
    } else {
      StepNextLock(c, s, t);
      StepInLocks(c, s, t);
      StepOutLocks(c, s, t);
      StepOrder(c, s, t);
      StepInPtrs(c, s, t);
      StepOutPtrs(c, s, t);
      StepGivenIn(c, s, t);
      StepGivenOut(c, s, t);
      StepCarried(c, s, t);
    }
  }
}
