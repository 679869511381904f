/** The IO chain of bitshuffle: a ring of locked slots that hands the input and the
    output pointer of one iteration to the next, across any number of threads.

    The OpenMP build of the chain is a step relation. A step is one lock acquisition,
    one lock release or one access to a shared field, by one thread. A schedule is any
    sequence of thread numbers; a thread whose turn comes while its lock is taken waits.
 */
module IoChain {
  import opened Values

  /** The number of slots of the ring. */
  const IOC_SIZE: nat := 33

  /** Where a thread is in the four calls of an iteration, in program order. */
  datatype Pc =
    | Idle          // between iterations of the parallel loop
    | WantNext      // get_in: set next_lock
    | TakeNumber    // get_in: this_iter = next
    | BumpNext      // get_in: next ++
    | WantIn        // get_in: set in_pl[this_iter].lock
    | WantInNext    // get_in: set in_pl[this_iter + 1].lock
    | WantOutNext   // get_in: set out_pl[this_iter + 1].lock
    | DropNext      // get_in: unset next_lock
    | ReadIn        // get_in: read in_pl[this_iter].ptr
    | WriteIn       // set_next_in: write in_pl[this_iter + 1].ptr
    | DropInNext    // set_next_in: unset in_pl[this_iter + 1].lock
    | WantOut       // get_out: set out_pl[this_iter].lock
    | ReadOut       // get_out: read out_pl[this_iter].ptr
    | DropOut       // get_out: unset out_pl[this_iter].lock
    | WriteOut      // set_next_out: write out_pl[this_iter + 1].ptr
    | DropOutNext   // set_next_out: unset out_pl[this_iter + 1].lock
    | DropIn        // set_next_out: unset in_pl[this_iter].lock
    | Work          // the block itself, after the last call on the chain

  function Rank(pc: Pc): (r: nat)
    ensures r <= 17
  {
    match pc
    case Idle => 0
    case WantNext => 1
    case TakeNumber => 2
    case BumpNext => 3
    case WantIn => 4
    case WantInNext => 5
    case WantOutNext => 6
    case DropNext => 7
    case ReadIn => 8
    case WriteIn => 9
    case DropInNext => 10
    case WantOut => 11
    case ReadOut => 12
    case DropOut => 13
    case WriteOut => 14
    case DropOutNext => 15
    case DropIn => 16
    case Work => 17
  }

  /** The rank of an iteration that has left the loop body. */
  const FINISHED: nat := 18

  datatype Thread = Thread(pc: Pc, iter: nat, inPtr: int, outPtr: int)

  datatype Slot = Slot(holder: Option<nat>, ptr: int)

  /** What the iterations do: iteration k moves the input pointer by advIn(k) and the
      output pointer by advOut(k). */
  datatype Config = Config(total: nat, in0: int, out0: int, advIn: nat -> int, advOut: nat -> int)

  /** The chain, the threads, the iterations the loop has not handed out yet, and a
      history: which thread ran an iteration and which pointers the iteration was given. */
  datatype State = State(
    next: nat, nextHolder: Option<nat>, ins: seq<Slot>, outs: seq<Slot>,
    threads: seq<Thread>, todo: nat,
    runner: seq<nat>, gotIn: map<nat, int>, gotOut: map<nat, int>)

  /** The input pointer of iteration k: the first one plus all earlier advances. */
  ghost function InOf(c: Config, k: nat): int {
    if k == 0 then c.in0 else InOf(c, k - 1) + c.advIn(k - 1)
  }

  /** The output pointer of iteration k. */
  ghost function OutOf(c: Config, k: nat): int {
    if k == 0 then c.out0 else OutOf(c, k - 1) + c.advOut(k - 1)
  }

  /** With blocks of a bytes in and b bytes out, iteration k reads at k * a and writes at k * b from the start. */
  lemma {:induction false} EqualBlocks(c: Config, a: int, b: int, k: nat)
    requires forall i: nat {:trigger c.advIn(i)} {:trigger c.advOut(i)} :: c.advIn(i) == a && c.advOut(i) == b
    ensures InOf(c, k) == c.in0 + k * a && OutOf(c, k) == c.out0 + k * b
  {
    if k > 0 {
      EqualBlocks(c, a, b, k - 1);
      assert k * a == (k - 1) * a + a && k * b == (k - 1) * b + b;
    }
  }

  /** ioc_init, with every thread idle and all iterations still to be handed out. The
      pointers of slots other than slot 0 hold anything. */
  ghost predicate Init(c: Config, s: State) {
    && s.next == 0 && s.nextHolder == None && s.todo == c.total
    && |s.ins| == IOC_SIZE && |s.outs| == IOC_SIZE
    && (forall j :: 0 <= j < IOC_SIZE ==> s.ins[j].holder == None)
    && (forall j :: 0 <= j < IOC_SIZE ==> s.outs[j].holder == None)
    && s.ins[0].ptr == c.in0 && s.outs[0].ptr == c.out0
    && (forall t :: 0 <= t < |s.threads| ==> s.threads[t].pc == Idle)
    && s.runner == [] && s.gotIn == map[] && s.gotOut == map[]
  }

  predicate Shape(s: State) {
    |s.ins| == IOC_SIZE && |s.outs| == IOC_SIZE
  }

  function At(k: nat): (j: nat)
    ensures j < IOC_SIZE
  {
    k % IOC_SIZE
  }

  /** Whether thread t is free to take its next step. */
  predicate CanStep(s: State, t: nat)
    requires Shape(s)
  {
    && t < |s.threads|
    && var th := s.threads[t];
       match th.pc
       case Idle => s.todo > 0
       case WantNext => s.nextHolder == None
       case WantIn => s.ins[At(th.iter)].holder == None
       case WantInNext => s.ins[At(th.iter + 1)].holder == None
       case WantOutNext => s.outs[At(th.iter + 1)].holder == None
       case WantOut => s.outs[At(th.iter)].holder == None
       case _ => true
  }

  /** Program order. */
  function After(pc: Pc): (q: Pc)
    ensures if pc == Work then q == Idle else Rank(q) == Rank(pc) + 1
  {
    match pc
    case Idle => WantNext
    case WantNext => TakeNumber
    case TakeNumber => BumpNext
    case BumpNext => WantIn
    case WantIn => WantInNext
    case WantInNext => WantOutNext
    case WantOutNext => DropNext
    case DropNext => ReadIn
    case ReadIn => WriteIn
    case WriteIn => DropInNext
    case DropInNext => WantOut
    case WantOut => ReadOut
    case ReadOut => DropOut
    case DropOut => WriteOut
    case WriteOut => DropOutNext
    case DropOutNext => DropIn
    case DropIn => Work
    case Work => Idle
  }

  /** The private variables of thread t after its step. */
  function ThreadAfter(s: State, t: nat): Thread
    requires Shape(s) && t < |s.threads|
  {
    var th := s.threads[t];
    Thread(
      After(th.pc),
      if th.pc == TakeNumber then s.next else th.iter,
      if th.pc == ReadIn then s.ins[At(th.iter)].ptr else th.inPtr,
      if th.pc == ReadOut then s.outs[At(th.iter)].ptr else th.outPtr)
  }

  /** The input half of the ring after the step of thread t. */
  function InsAfter(c: Config, s: State, t: nat): (ins: seq<Slot>)
    requires Shape(s) && t < |s.threads|
    ensures |ins| == IOC_SIZE
  {
    var th := s.threads[t];
    var j, j' := At(th.iter), At(th.iter + 1);
    match th.pc
    case WantIn => s.ins[j := s.ins[j].(holder := Some(t))]
    case WantInNext => s.ins[j' := s.ins[j'].(holder := Some(t))]
    case WriteIn => s.ins[j' := s.ins[j'].(ptr := th.inPtr + c.advIn(th.iter))]
    case DropInNext => s.ins[j' := s.ins[j'].(holder := None)]
    case DropIn => s.ins[j := s.ins[j].(holder := None)]
    case _ => s.ins
  }

  /** The output half of the ring after the step of thread t. */
  function OutsAfter(c: Config, s: State, t: nat): (outs: seq<Slot>)
    requires Shape(s) && t < |s.threads|
    ensures |outs| == IOC_SIZE
  {
    var th := s.threads[t];
    var j, j' := At(th.iter), At(th.iter + 1);
    match th.pc
    case WantOutNext => s.outs[j' := s.outs[j'].(holder := Some(t))]
    case WantOut => s.outs[j := s.outs[j].(holder := Some(t))]
    case DropOut => s.outs[j := s.outs[j].(holder := None)]
    case WriteOut => s.outs[j' := s.outs[j'].(ptr := th.outPtr + c.advOut(th.iter))]
    case DropOutNext => s.outs[j' := s.outs[j'].(holder := None)]
    case _ => s.outs
  }

  /** The step of thread t, field by field. */
  function Step(c: Config, s: State, t: nat): (s': State)
    requires Shape(s) && CanStep(s, t)
    ensures Shape(s') && |s'.threads| == |s.threads|
  {
    var th := s.threads[t];
    var numbers := th.pc == BumpNext;
    State(
      if numbers then s.next + 1 else s.next,
      if th.pc == WantNext then Some(t) else if th.pc == DropNext then None else s.nextHolder,
      InsAfter(c, s, t),
      OutsAfter(c, s, t),
      s.threads[t := ThreadAfter(s, t)],
      if th.pc == Idle then s.todo - 1 else s.todo,
      if numbers then s.runner + [t] else s.runner,
      if th.pc == ReadIn then s.gotIn[th.iter := s.ins[At(th.iter)].ptr] else s.gotIn,
      if th.pc == ReadOut then s.gotOut[th.iter := s.outs[At(th.iter)].ptr] else s.gotOut)
  }

  /** The state after a schedule; a turn of a blocked thread changes nothing. */
  ghost function Run(c: Config, s: State, sched: seq<nat>): (s': State)
    requires Shape(s)
    ensures Shape(s') && |s'.threads| == |s.threads|
  {
    if sched == [] then s
    else
      var rest := sched[..|sched| - 1];
      var t := sched[|sched| - 1];
      var m := Run(c, s, rest);
      if CanStep(m, t) then Step(c, m, t) else m
  }

  /** The turns of a schedule that were taken. */
  ghost function Taken(c: Config, s: State, sched: seq<nat>): nat
    requires Shape(s)
  {
    if sched == [] then 0
    else
      var rest := sched[..|sched| - 1];
      Taken(c, s, rest) + (if CanStep(Run(c, s, rest), sched[|sched| - 1]) then 1 else 0)
  }

  // ---------------------------------------------------------------------------
  // The invariant
  // ---------------------------------------------------------------------------

  ghost predicate Numbered(s: State) {
    && Shape(s)
    && |s.runner| == s.next
    && (forall k :: 0 <= k < s.next ==> s.runner[k] < |s.threads|)
    && (forall t :: 0 <= t < |s.threads| && Rank(s.threads[t].pc) >= 4 ==>
          s.threads[t].iter < s.next && s.runner[s.threads[t].iter] == t)
    && (forall t :: 0 <= t < |s.threads| && s.threads[t].pc == BumpNext ==> s.threads[t].iter == s.next)
  }

  /** How far iteration k has come. */
  ghost function Phase(s: State, k: nat): (r: nat)
    requires Numbered(s) && k < s.next
    ensures 4 <= r <= FINISHED
  {
    var th := s.threads[s.runner[k]];
    if th.iter == k && Rank(th.pc) >= 4 then Rank(th.pc) else FINISHED
  }

  ghost predicate NextLock(s: State)
    requires Numbered(s)
  {
    && (forall t :: 0 <= t < |s.threads| && 2 <= Rank(s.threads[t].pc) <= 7 ==> s.nextHolder == Some(t))
    && (s.nextHolder.Some? ==>
          s.nextHolder.value < |s.threads| && 2 <= Rank(s.threads[s.nextHolder.value].pc) <= 7)
    && (forall k :: 0 <= k && k + 1 < s.next ==> Phase(s, k) >= 8)
  }

  ghost predicate HasIn(th: Thread, j: nat) {
    || (5 <= Rank(th.pc) <= 16 && At(th.iter) == j)
    || (6 <= Rank(th.pc) <= 10 && At(th.iter + 1) == j)
  }

  ghost predicate HasOut(th: Thread, j: nat) {
    || (7 <= Rank(th.pc) <= 15 && At(th.iter + 1) == j)
    || (12 <= Rank(th.pc) <= 13 && At(th.iter) == j)
  }

  /** The holder of a slot lock is exactly the thread whose program point says so. */
  ghost predicate InLocks(s: State)
    requires Shape(s)
  {
    && (forall j :: 0 <= j < IOC_SIZE && s.ins[j].holder.Some? ==> s.ins[j].holder.value < |s.threads|)
    && (forall j, t {:trigger HasIn(s.threads[t], j)} :: 0 <= j < IOC_SIZE && 0 <= t < |s.threads| ==>
          (s.ins[j].holder == Some(t) <==> HasIn(s.threads[t], j)))
  }

  ghost predicate OutLocks(s: State)
    requires Shape(s)
  {
    && (forall j :: 0 <= j < IOC_SIZE && s.outs[j].holder.Some? ==> s.outs[j].holder.value < |s.threads|)
    && (forall j, t {:trigger HasOut(s.threads[t], j)} :: 0 <= j < IOC_SIZE && 0 <= t < |s.threads| ==>
          (s.outs[j].holder == Some(t) <==> HasOut(s.threads[t], j)))
  }

  /** The phases of all numbered iterations. */
  ghost function Phases(s: State): (ph: seq<nat>)
    requires Numbered(s)
    ensures |ph| == s.next && forall k :: 0 <= k < s.next ==> ph[k] == Phase(s, k)
  {
    seq(s.next, k requires 0 <= k < s.next => Phase(s, k))
  }

  /** The order the locks impose on iterations: a slot is reused only after the iteration
      that read it is done with the chain; the pointers of an iteration are read only
      after the previous iteration has published them. */
  ghost predicate Order(ph: seq<nat>) {
    && (forall i, k :: 0 <= i && i + 32 <= k < |ph| && ph[k] >= 6 ==> ph[i] >= 17)
    && (forall i, k :: 0 <= i && i + 1 == k < |ph| && ph[k] >= 5 ==> ph[i] >= 11)
    && (forall i, k :: 0 <= i && i + 1 == k < |ph| && ph[k] >= 12 ==> ph[i] >= 16)
  }

  /** Iteration k still needs its pointers. */
  ghost predicate Waiting(ph: seq<nat>, k: nat) {
    k <= |ph| && (k < |ph| ==> ph[k] < 17)
  }

  /** A slot that the previous iteration has written and whose reader is not done holds
      the pointer of its reader. */
  ghost predicate InPtrs(c: Config, ph: seq<nat>, ins: seq<Slot>)
    requires |ins| == IOC_SIZE
  {
    forall k: nat {:trigger Waiting(ph, k)} :: Waiting(ph, k) && (k == 0 || ph[k - 1] >= 10) ==>
        ins[At(k)].ptr == InOf(c, k)
  }

  ghost predicate OutPtrs(c: Config, ph: seq<nat>, outs: seq<Slot>)
    requires |outs| == IOC_SIZE
  {
    forall k: nat {:trigger Waiting(ph, k)} :: Waiting(ph, k) && (k == 0 || ph[k - 1] >= 15) ==>
        outs[At(k)].ptr == OutOf(c, k)
  }

  /** The history holds the input pointers that are due. */
  ghost predicate GivenIn(c: Config, ph: seq<nat>, gotIn: map<nat, int>) {
    && (forall k :: k in gotIn ==> k < |ph| && gotIn[k] == InOf(c, k))
    && (forall k :: 0 <= k < |ph| && ph[k] >= 9 ==> k in gotIn)
  }

  ghost predicate GivenOut(c: Config, ph: seq<nat>, gotOut: map<nat, int>) {
    && (forall k :: k in gotOut ==> k < |ph| && gotOut[k] == OutOf(c, k))
    && (forall k :: 0 <= k < |ph| && ph[k] >= 13 ==> k in gotOut)
  }

  /** The threads hold the pointers that are due. */
  ghost predicate Carried(c: Config, threads: seq<Thread>) {
    && (forall t :: 0 <= t < |threads| && Rank(threads[t].pc) >= 9 ==> threads[t].inPtr == InOf(c, threads[t].iter))
    && (forall t :: 0 <= t < |threads| && Rank(threads[t].pc) >= 13 ==> threads[t].outPtr == OutOf(c, threads[t].iter))
  }

  ghost predicate Inv(c: Config, s: State) {
    && Numbered(s) && NextLock(s) && InLocks(s) && OutLocks(s)
    && Order(Phases(s))
    && InPtrs(c, Phases(s), s.ins) && OutPtrs(c, Phases(s), s.outs)
    && GivenIn(c, Phases(s), s.gotIn) && GivenOut(c, Phases(s), s.gotOut)
    && Carried(c, s.threads)
  }

  lemma InitInv(c: Config, s: State)
    requires Init(c, s)
    ensures Inv(c, s)
  {
  }

  /** Moving one running thread to its next program point changes the phase of its own
      iteration and of no other. */
  lemma MovePhases(s: State, s': State, t: nat, th: Thread)
    requires Numbered(s) && t < |s.threads| && Rank(s.threads[t].pc) >= 4
    requires Shape(s') && s'.next == s.next && s'.runner == s.runner
    requires s'.threads == s.threads[t := th] && th.iter == s.threads[t].iter
    requires Rank(th.pc) == Rank(s.threads[t].pc) + 1 || (s.threads[t].pc == Work && th.pc == Idle)
    ensures Numbered(s')
    ensures th.iter < s.next && Phases(s)[th.iter] == Rank(s.threads[t].pc)
    ensures Phases(s') == Phases(s)[th.iter := Phases(s)[th.iter] + 1]
  {
    assert forall k :: 0 <= k < s.next && k != th.iter ==> Phase(s', k) == Phase(s, k);
  }

  /** Moving a thread that has no iteration yet changes no phase. */
  lemma EntryPhases(s: State, s': State, t: nat, th: Thread)
    requires Numbered(s) && t < |s.threads| && Rank(s.threads[t].pc) < 3
    requires Shape(s') && s'.next == s.next && s'.runner == s.runner
    requires s'.threads == s.threads[t := th] && Rank(th.pc) < 4
    requires th.pc == BumpNext ==> th.iter == s.next
    ensures Numbered(s')
    ensures Phases(s') == Phases(s)
  {
    assert forall k :: 0 <= k < s.next ==> Phase(s', k) == Phase(s, k);
  }

  /** Numbering a new iteration. */
  lemma BumpPhases(s: State, s': State, t: nat, th: Thread)
    requires Numbered(s) && NextLock(s) && t < |s.threads| && s.threads[t].pc == BumpNext
    requires Shape(s') && s'.next == s.next + 1 && s'.runner == s.runner + [t]
    requires s'.threads == s.threads[t := th] && th.iter == s.next && th.pc == WantIn
    ensures Numbered(s')
    ensures Phases(s') == Phases(s) + [4]
  {
    forall k | 0 <= k < s.next
      ensures Phase(s', k) == Phase(s, k)
    {
      assert s'.runner[k] == s.runner[k];
    }
  }
}
