/** What resched, yield, proc_exit and proc_run promise, proved about the
    functions of ProcessSpec. */
module ProcessLemmas {
  import opened Machine
  import opened ProcessSpec

  // ----- The circular scan -----

  lemma ScanPosOfSlot(prev: int, q: nat)
    requires prev < MAX_PROCS && 1 <= q <= MAX_PROCS
    ensures ScanSlot(prev, q) < MAX_PROCS && ScanPos(prev, ScanSlot(prev, q)) == q
  {
  }

  /** resched picks the READY slot that comes first in the circular scan
      after `prev`, and slot 0 when no slot is READY. */
  lemma SelectIsNearestReady(t: seq<Pcb>, prev: int)
    requires |t| == MAX_PROCS && prev < MAX_PROCS
    ensures Select(t, prev) < MAX_PROCS
    ensures (forall j | 0 <= j < MAX_PROCS :: t[j].state != Ready) ==> Select(t, prev) == 0
    ensures forall j | 0 <= j < MAX_PROCS && t[j].state == Ready ::
      t[Select(t, prev)].state == Ready && ScanPos(prev, Select(t, prev)) <= ScanPos(prev, j)
  {
    var q := FirstReady(t, prev, 1);
    if q <= MAX_PROCS {
      ScanPosOfSlot(prev, q);
    }
    forall j | 0 <= j < MAX_PROCS && t[j].state == Ready
      ensures t[Select(t, prev)].state == Ready && ScanPos(prev, Select(t, prev)) <= ScanPos(prev, j)
    {
      var qj := ScanPos(prev, j);
      assert t[ScanSlot(prev, qj)].state == Ready;
      assert q <= qj;
    }
  }

  /** The slot resched picks is READY, or it is the idle slot 0. */
  lemma SelectReadyOrIdle(t: seq<Pcb>, prev: int)
    requires |t| == MAX_PROCS && prev < MAX_PROCS
    ensures Select(t, prev) < MAX_PROCS
    ensures t[Select(t, prev)].state == Ready || Select(t, prev) == 0
  {
    SelectIsNearestReady(t, prev);
  }

  /** With no current process the scan starts at slot 1 and visits slot 0 last. */
  lemma BootScanOrder()
    ensures ScanSlot(-1, 1) == 1 && ScanSlot(-1, MAX_PROCS) == 0
    ensures forall j | 1 <= j < MAX_PROCS :: ScanPos(-1, j) == j
    ensures ScanPos(-1, 0) == MAX_PROCS
  {
  }

  /** So with no current process a READY slot 0 is chosen only when no other slot is READY. */
  lemma BootPicksSlotZeroLast(t: seq<Pcb>)
    requires |t| == MAX_PROCS
    ensures Select(t, -1) == 0 ==> forall j | 1 <= j < MAX_PROCS :: t[j].state != Ready
    ensures t[1].state == Ready ==> Select(t, -1) == 1
  {
    SelectIsNearestReady(t, -1);
  }

  // ----- resched -----

  /** resched changes nothing and dispatches nothing exactly when slot 0 is
      not the idle process, or the scan comes back to the running slot. */
  lemma ReschedNoOp(s: Sched, sp: nat)
    requires Shaped(s)
    ensures var r := Resched(s, sp);
      (r.events == [] <==>
         (s.tab[0].state == Terminated || s.tab[0].pid != 0
          || (Select(s.tab, s.currentPid) == s.currentPid && s.currentPid >= 0)))
      && (r.events == [] ==> r.s == s)
  {
  }

  /** A dispatching resched: the chosen slot becomes CURRENT and current;
      the outgoing slot is READY afterwards (demoted if it was CURRENT);
      no other slot changes; the first dispatch jumps in through the
      bootstrap path and every other one goes through ctxsw, which saves
      the caller's stack pointer into the outgoing slot. */
  lemma ReschedDispatches(s: Sched, sp: nat)
    requires WellFormed(s) && s.tab[0].state != Terminated && s.tab[0].pid == 0
    requires !(Select(s.tab, s.currentPid) == s.currentPid && s.currentPid >= 0)
    ensures var next := Select(s.tab, s.currentPid); var prev := s.currentPid; var r := Resched(s, sp);
      next < MAX_PROCS && |r.s.tab| == MAX_PROCS
      && r.s.currentPid == next && r.s.currpid == Some(next) && !r.s.firstDispatch
      && r.s.tab[next].state == Current
      && (prev >= 0 ==> r.s.tab[prev].state == Ready)
      && (forall i | 0 <= i < MAX_PROCS && i != next && i != prev :: r.s.tab[i] == s.tab[i])
      && (s.firstDispatch ==> r.events == [Bootstrap(next, s.tab[next].esp, s.tab[next].entry)])
      && (!s.firstDispatch ==>
            r.events == [Switch(prev, next)] && (prev >= 0 ==> r.s.tab[prev].esp == sp))
  {
    SelectReadyOrIdle(s.tab, s.currentPid);
  }

  /** first_dispatch goes from 1 to 0 on the first dispatch and stays 0;
      only that dispatch uses the bootstrap path. */
  lemma BootstrapOnlyOnce(s: Sched, sp: nat)
    requires Shaped(s)
    ensures var r := Resched(s, sp);
      (r.events != [] ==> |r.events| == 1 && !r.s.firstDispatch
                          && (r.events[0].Bootstrap? <==> s.firstDispatch))
      && (!s.firstDispatch ==> !r.s.firstDispatch)
  {
  }

  /** resched keeps the table invariant; in particular at most one slot is CURRENT. */
  lemma ReschedKeepsWellFormed(s: Sched, sp: nat)
    requires WellFormed(s)
    ensures WellFormed(Resched(s, sp).s)
    ensures var t := Resched(s, sp).s.tab;
      forall i, j | 0 <= i < MAX_PROCS && 0 <= j < MAX_PROCS && t[i].state == Current && t[j].state == Current :: i == j
  {
    SelectReadyOrIdle(s.tab, s.currentPid);
    if s.tab[0].state != Terminated && s.tab[0].pid == 0 {
      var prev := s.currentPid;
      var next := Select(s.tab, prev);
      if !(next == prev && prev >= 0) {
        var t1 := if prev >= 0 && s.tab[prev].state == Current
                  then s.tab[prev := s.tab[prev].(state := Ready)] else s.tab;
        var t2 := t1[next := t1[next].(state := Current)];
        var t3 := if !s.firstDispatch && prev >= 0 then t2[prev := t2[prev].(esp := sp)] else t2;
        assert Resched(s, sp).s == Sched(t3, next, Some(next), false);
        assert forall i | 0 <= i < MAX_PROCS ::
          t3[i].pid == s.tab[i].pid && t3[i].mem == s.tab[i].mem && t3[i].stackBase == s.tab[i].stackBase
          && t3[i].memsz == s.tab[i].memsz && (Live(t3[i]) <==> Live(s.tab[i]))
          && (t3[i].state == Current <==> i == next);
      }
    }
  }

  /** resched only moves slots between READY and CURRENT and saves esp:
      which slots are live, their stacks, pids and entries stay as they were. */
  lemma ReschedKeepsStacks(s: Sched, sp: nat)
    requires WellFormed(s)
    ensures var t := Resched(s, sp).s.tab;
      |t| == MAX_PROCS
      && forall i | 0 <= i < MAX_PROCS ::
           t[i].mem == s.tab[i].mem && t[i].entry == s.tab[i].entry && (Live(t[i]) <==> Live(s.tab[i]))
           && t[i].pid == s.tab[i].pid && t[i].stackBase == s.tab[i].stackBase && t[i].memsz == s.tab[i].memsz
  {
    SelectReadyOrIdle(s.tab, s.currentPid);
    if s.tab[0].state != Terminated && s.tab[0].pid == 0 {
      var prev := s.currentPid;
      var next := Select(s.tab, prev);
      if !(next == prev && prev >= 0) {
        var t1 := if prev >= 0 && s.tab[prev].state == Current
                  then s.tab[prev := s.tab[prev].(state := Ready)] else s.tab;
        assert forall i | 0 <= i < MAX_PROCS :: t1[i].state != Current && (Live(t1[i]) <==> Live(s.tab[i]));
        var t2 := t1[next := t1[next].(state := Current)];
        var t3 := if !s.firstDispatch && prev >= 0 then t2[prev := t2[prev].(esp := sp)] else t2;
        assert Resched(s, sp).s.tab == t3;
      }
    }
  }

  // ----- yield -----

  /** The table yield hands to resched is well formed. */
  lemma RearmedWellFormed(s: Sched)
    requires WellFormed(s)
    ensures var t := if s.currpid.Some? then s.tab[s.currpid.value := s.tab[s.currpid.value].(state := Ready)]
                     else s.tab;
      WellFormed(s.(tab := t))
  {
  }

  lemma YieldKeepsWellFormed(s: Sched, sp: nat)
    requires WellFormed(s)
    ensures WellFormed(Yield(s, sp).s)
  {
    RearmedWellFormed(s);
    var t := if s.currpid.Some? then s.tab[s.currpid.value := s.tab[s.currpid.value].(state := Ready)]
             else s.tab;
    ReschedKeepsWellFormed(s.(tab := t), sp);
  }

  /** When the yielding process is the only READY one, resched comes back to
      it and returns early: the process keeps running but stays READY, not CURRENT. */
  lemma YieldAloneStaysReady(s: Sched, sp: nat, c: nat)
    requires WellFormed(s) && s.currpid == Some(c)
    requires s.tab[0].state != Terminated && s.tab[0].pid == 0
    requires forall j | 0 <= j < MAX_PROCS && j != c :: s.tab[j].state != Ready
    ensures Yield(s, sp).events == []
    ensures Yield(s, sp).s.currentPid == c && Yield(s, sp).s.tab[c].state == Ready
  {
    var t := s.tab[c := s.tab[c].(state := Ready)];
    SelectIsNearestReady(t, c);
    assert Select(t, c) == c;
  }

  /** A yield when exactly one other process is READY switches to it. Only
      slots a and b are live and slot 0 always is, so one of the two is the
      shell, pid 0. */
  lemma YieldToOther(s: Sched, a: nat, b: nat, sp: nat)
    requires WellFormed(s) && !s.firstDispatch && a != b && a < MAX_PROCS && b < MAX_PROCS
    requires s.currpid == Some(a) && s.tab[b].state == Ready
    requires s.tab[0].state != Terminated && s.tab[0].pid == 0
    requires forall j | 0 <= j < MAX_PROCS && j != a && j != b :: s.tab[j].state == Terminated
    ensures var r := Yield(s, sp);
      r.events == [Switch(a, b)] && r.s.currentPid == b && r.s.currpid == Some(b)
      && r.s.tab[b].state == Current && r.s.tab[a].state == Ready
      && r.s.tab[0].state != Terminated && r.s.tab[0].pid == 0
      && (forall j | 0 <= j < MAX_PROCS && j != a && j != b :: r.s.tab[j] == s.tab[j])
  {
    var t := s.tab[a := s.tab[a].(state := Ready)];
    SelectIsNearestReady(t, a);
    assert ScanPos(a, b) < ScanPos(a, a);
    assert Select(t, a) == b;
  }

  /** Two processes that keep yielding alternate: a, b, a, b, ... As in
      YieldToOther, one of the two is the shell, pid 0. */
  lemma TwoProcessesAlternate(s: Sched, a: nat, b: nat, sp1: nat, sp2: nat)
    requires WellFormed(s) && !s.firstDispatch && a != b && a < MAX_PROCS && b < MAX_PROCS
    requires s.currpid == Some(a) && s.tab[b].state == Ready
    requires s.tab[0].state != Terminated && s.tab[0].pid == 0
    requires forall j | 0 <= j < MAX_PROCS && j != a && j != b :: s.tab[j].state == Terminated
    ensures Yield(s, sp1).events == [Switch(a, b)]
    ensures var r2 := Yield(Yield(s, sp1).s, sp2);
      r2.events == [Switch(b, a)] && r2.s.currentPid == a
      && r2.s.tab[a].state == Current && r2.s.tab[b].state == Ready
  {
    YieldToOther(s, a, b, sp1);
    YieldKeepsWellFormed(s, sp1);
    var s1 := Yield(s, sp1).s;
    assert s1.tab[0].state != Terminated && s1.tab[0].pid == 0;
    YieldToOther(s1, b, a, sp2);
  }

  // ----- proc_exit -----

  lemma ExitedWellFormed(s: Sched)
    requires WellFormed(s) && s.currpid.Some?
    ensures CanExit(s) && WellFormed(Exited(s))
    ensures Exited(s).tab[s.currpid.value].state == Terminated
  {
  }

  lemma ExitKeepsWellFormed(s: Sched, sp: nat)
    requires WellFormed(s) && s.currpid.Some?
    ensures CanExit(s) && WellFormed(Exit(s, sp).s)
  {
    ExitedWellFormed(s);
    ReschedKeepsWellFormed(Exited(s), sp);
  }

  /** After the first dispatch, every proc_exit of a process other than pid 0
      reaches ctxsw with current_pid == -1: the save goes through
      &proctab[-1].esp, one slot before the table. */
  lemma ExitSwitchesFromOutsideTable(s: Sched, sp: nat)
    requires WellFormed(s) && s.currpid.Some? && s.currpid.value != 0 && !s.firstDispatch
    requires s.tab[0].state != Terminated
    ensures CanExit(s)
    ensures Exit(s, sp).events == [Switch(-1, Select(Exited(s).tab, -1))]
    ensures !(0 <= Exit(s, sp).events[0].from < MAX_PROCS)
  {
    ExitedWellFormed(s);
    SelectReadyOrIdle(Exited(s).tab, -1);
  }

  /** When pid 0 itself exits, resched's idle guard returns and proc_exit spins forever. */
  lemma ExitOfIdleHalts(s: Sched, sp: nat)
    requires WellFormed(s) && s.currpid == Some(0)
    ensures CanExit(s)
    ensures Exit(s, sp) == Step(Exited(s), [Halt(0)])
  {
  }

  // ----- proc_run -----

  /** Boot: with only the shell created in slot 0, proc_run jumps into it
      through the bootstrap path, at its prepared esp and entry. */
  lemma RunBootsIntoShell(s: Sched, sp: nat)
    requires WellFormed(s) && s.firstDispatch
    requires s.tab[0].state != Terminated && s.tab[0].pid == 0
    requires forall j | 1 <= j < MAX_PROCS :: s.tab[j].state == Terminated
    ensures Run(s, sp).events == [Bootstrap(0, s.tab[0].esp, s.tab[0].entry)]
    ensures Run(s, sp).s.tab[0].state == Current && Run(s, sp).s.currentPid == 0
  {
    assert s.tab[0].state == Ready;
    SelectIsNearestReady(s.tab, -1);
  }

  lemma RunKeepsWellFormed(s: Sched, sp: nat)
    requires WellFormed(s) && s.firstDispatch
    ensures WellFormed(Run(s, sp).s)
  {
    ReschedKeepsWellFormed(s.(currentPid := -1), sp);
  }
}
