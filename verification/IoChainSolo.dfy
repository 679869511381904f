/** A thread that is alone on the IO chain: its 18 steps move both pointers on and leave all locks free. */
module IoChainSolo {
  import opened Values
  import opened IoChain
  import opened IoChainTheorems

  /** The pointers that a call on the chain gives when no other thread is in one, and the chain after it. */
  datatype Turn = Turn(inPtr: int, outPtr: int, chain: State)

  /** The calls of one iteration, one after the other. */
  function SerialTurn(s: State, adv: int): (r: Turn)
    requires Shape(s)
    ensures Shape(r.chain)
  {
    var k := s.next;
    var p, q := s.ins[At(k)].ptr, s.outs[At(k)].ptr;
    Turn(p, q, s.(next := k + 1,
                  ins := s.ins[At(k + 1) := s.ins[At(k + 1)].(ptr := p + adv)],
                  outs := s.outs[At(k + 1) := s.outs[At(k + 1)].(ptr := q + adv)]))
  }

  ghost predicate LocksFree(s: State) {
    && Shape(s) && s.nextHolder == None
    && forall j :: 0 <= j < IOC_SIZE ==> s.ins[j].holder == None && s.outs[j].holder == None
  }

  function Held(slots: seq<Slot>, j: nat, held: bool, t: nat): seq<Slot>
    requires j < |slots|
  {
    if held then slots[j := slots[j].(holder := Some(t))] else slots
  }

  /** The input slots of s after n steps of thread t. */
  function InsAt(s: State, t: nat, adv: int, n: nat): seq<Slot>
    requires Shape(s)
  {
    var k := s.next;
    var ins := if n >= 10 then SerialTurn(s, adv).chain.ins else s.ins;
    Held(Held(ins, At(k), 5 <= n <= 16, t), At(k + 1), 6 <= n <= 10, t)
  }

  function OutsAt(s: State, t: nat, adv: int, n: nat): seq<Slot>
    requires Shape(s)
  {
    var k := s.next;
    var outs := if n >= 15 then SerialTurn(s, adv).chain.outs else s.outs;
    Held(Held(outs, At(k), 12 <= n <= 13, t), At(k + 1), 7 <= n <= 15, t)
  }

  /** r is s after n steps of thread t and of no other one. */
  ghost predicate Solo(s: State, r: State, t: nat, adv: int, n: nat)
    requires Shape(s)
  {
    && Shape(r) && t < |r.threads| && Rank(r.threads[t].pc) == n
    && r.ins == InsAt(s, t, adv, n) && r.outs == OutsAt(s, t, adv, n)
    && r.next == (if n >= 4 then s.next + 1 else s.next)
    && r.nextHolder == (if 2 <= n <= 7 then Some(t) else None)
    && (n >= 3 ==> r.threads[t].iter == s.next)
    && (n >= 9 ==> r.threads[t].inPtr == s.ins[At(s.next)].ptr)
    && (n >= 13 ==> r.threads[t].outPtr == s.outs[At(s.next)].ptr)
  }

  lemma NextSlot(k: nat)
    ensures At(k) != At(k + 1)
  {
  }

  lemma SoloCan(s: State, r: State, t: nat, adv: int, n: nat)
    requires LocksFree(s) && Solo(s, r, t, adv, n) && 0 < n
    ensures CanStep(r, t)
  {
    NextSlot(s.next);
  }

  lemma SoloInsStep(c: Config, s: State, r: State, t: nat, adv: int, n: nat)
    requires LocksFree(s) && Solo(s, r, t, adv, n) && 0 < n <= 17 && c.advIn(s.next) == adv
    ensures InsAfter(c, r, t) == InsAt(s, t, adv, n + 1)
  {
    NextSlot(s.next);
  }

  lemma SoloOutsStep(c: Config, s: State, r: State, t: nat, adv: int, n: nat)
    requires LocksFree(s) && Solo(s, r, t, adv, n) && 0 < n <= 17 && c.advOut(s.next) == adv
    ensures OutsAfter(c, r, t) == OutsAt(s, t, adv, n + 1)
  {
    NextSlot(s.next);
  }

  lemma SoloThread(s: State, r: State, t: nat, adv: int, n: nat)
    requires Shape(s) && Solo(s, r, t, adv, n) && 0 < n < 17
    ensures var th := ThreadAfter(r, t);
            && Rank(th.pc) == n + 1 && (n >= 2 ==> th.iter == s.next)
            && (n >= 8 ==> th.inPtr == s.ins[At(s.next)].ptr) && (n >= 12 ==> th.outPtr == s.outs[At(s.next)].ptr)
  {
    NextSlot(s.next);
  }

  lemma SoloStep(c: Config, s: State, r: State, t: nat, adv: int, n: nat)
    requires LocksFree(s) && Solo(s, r, t, adv, n) && 0 < n < 17
    requires c.advIn(s.next) == adv && c.advOut(s.next) == adv
    ensures CanStep(r, t) && Solo(s, Step(c, r, t), t, adv, n + 1)
  {
    SoloCan(s, r, t, adv, n);
    SoloInsStep(c, s, r, t, adv, n);
    SoloOutsStep(c, s, r, t, adv, n);
    SoloThread(s, r, t, adv, n);
  }

  function Only(t: nat, n: nat): (sched: seq<nat>)
    ensures |sched| == n
  {
    seq(n, i => t)
  }

  lemma {:induction false} SoloRun(c: Config, s: State, t: nat, adv: int, n: nat)
    requires LocksFree(s) && t < |s.threads| && s.threads[t].pc == Idle && s.todo > 0 && 0 < n <= 17
    requires c.advIn(s.next) == adv && c.advOut(s.next) == adv
    ensures Solo(s, Run(c, s, Only(t, n)), t, adv, n)
  {
    assert Only(t, n)[..n - 1] == Only(t, n - 1) && Only(t, n)[n - 1] == t;
    if n == 1 {
      assert Run(c, s, Only(t, 0)) == s;
    } else {
      SoloRun(c, s, t, adv, n - 1);
      SoloStep(c, s, Run(c, s, Only(t, n - 1)), t, adv, n - 1);
    }
  }

  /** r is the chain after one turn on s, and thread t has the pointers of the turn. */
  ghost predicate TurnTaken(s: State, r: State, t: nat, adv: int)
    requires Shape(s)
  {
    var one := SerialTurn(s, adv);
    && r.next == one.chain.next && r.ins == one.chain.ins && r.outs == one.chain.outs && LocksFree(r)
    && t < |r.threads| && r.threads[t].pc == Idle
    && r.threads[t].inPtr == one.inPtr && r.threads[t].outPtr == one.outPtr
  }

  /** The 18 steps of a thread that is alone are the calls one after the other: of the one iteration that is handed
      out, on any state of the chain in which the locks are free. */
  lemma SerialTurnIsRun(c: Config, s: State, t: nat, adv: int)
    requires LocksFree(s) && t < |s.threads| && s.threads[t].pc == Idle
    requires c.advIn(s.next) == adv && c.advOut(s.next) == adv
    ensures TurnTaken(s, Run(c, s.(todo := 1), Only(t, FINISHED)), t, adv)
  {
    var u := s.(todo := 1);
    LoneTurn(c, u, t, adv);
    assert SerialTurn(u, adv).chain.ins == SerialTurn(s, adv).chain.ins;
    assert SerialTurn(u, adv).chain.outs == SerialTurn(s, adv).chain.outs;
  }

  lemma LoneTurn(c: Config, s: State, t: nat, adv: int)
    requires LocksFree(s) && t < |s.threads| && s.threads[t].pc == Idle && s.todo > 0
    requires c.advIn(s.next) == adv && c.advOut(s.next) == adv
    ensures TurnTaken(s, Run(c, s, Only(t, FINISHED)), t, adv)
  {
    var m := Run(c, s, Only(t, 17));
    SoloRun(c, s, t, adv, 17);
    assert Only(t, 18)[..17] == Only(t, 17) && Only(t, 18)[17] == t;
    SoloCan(s, m, t, adv, 17);
    SoloInsStep(c, s, m, t, adv, 17);
    SoloOutsStep(c, s, m, t, adv, 17);
    SerialTurnFree(s, adv);
  }

  /** So it is after the loop, whatever the schedule was: a thread takes a turn with an advance of its own, and the
      locks are free for the next one. */
  lemma TurnAfterLoop(c: Config, r: State, d: Config, t: nat, adv: int)
    requires Reachable(c, r) && Completed(r) && t < |r.threads|
    requires d.advIn(r.next) == adv && d.advOut(r.next) == adv
    ensures LocksFree(r) && TurnTaken(r, Run(d, r.(todo := 1), Only(t, FINISHED)), t, adv)
    ensures LocksFree(SerialTurn(r, adv).chain)
  {
    ReachableInv(c, r);
    CompletedRun(c, r);
    SerialTurnIsRun(d, r, t, adv);
    SerialTurnFree(r, adv);
  }

  lemma SerialTurnFree(s: State, adv: int)
    requires LocksFree(s)
    ensures LocksFree(SerialTurn(s, adv).chain)
  {
  }
}
