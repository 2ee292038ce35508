/** proc.c, the older process table: pids come from a counter that is never
    rewound, and proc_run runs every READY process to completion in slot
    order. A process's entry is a call that does not touch the table. */
module LegacyProc {
  import opened ProcessSpec

  /** pcb_t of proc.h, less the `mem` and `memsz` fields proc.c never uses. */
  datatype Slot = Slot(pid: int, state: ProcState, entry: nat)

  /** A slot as proc_init leaves it. */
  const EMPTY_SLOT: Slot := Slot(-1, Terminated, 0)

  /** What proc_run sees at the moment it calls a process's entry. */
  datatype Entry = Entry(slot: nat, currentPid: int, state: ProcState)

  /** The READY slots among the first n of t, in ascending order. */
  function ReadyUpTo(t: seq<Slot>, n: nat): seq<nat>
    requires n <= |t|
  {
    if n == 0 then [] else ReadyUpTo(t, n - 1) + (if t[n - 1].state == Ready then [n - 1] else [])
  }

  /** The entries proc_run makes for the slots ps: each with current_pid set to it and CURRENT. */
  function Entered(ps: seq<nat>): seq<Entry>
  {
    seq(|ps|, k requires 0 <= k < |ps| => Entry(ps[k], ps[k], Current))
  }

  /** The table once proc_run has been through the first n slots: each READY slot among them TERMINATED. */
  function RanUpTo(t: seq<Slot>, n: nat): (u: seq<Slot>)
    requires n <= |t|
    ensures |u| == |t|
    ensures forall j | 0 <= j < |t| ::
      u[j] == (if j < n && t[j].state == Ready then t[j].(state := Terminated) else t[j])
  {
    seq(|t|, j requires 0 <= j < |t| => if j < n && t[j].state == Ready then t[j].(state := Terminated) else t[j])
  }

  /** ReadyUpTo lists exactly the READY slots below n, each once, in ascending order. */
  lemma {:induction false} ReadyUpToExact(t: seq<Slot>, n: nat)
    requires n <= |t|
    ensures forall a | 0 <= a < |ReadyUpTo(t, n)| :: ReadyUpTo(t, n)[a] < n && t[ReadyUpTo(t, n)[a]].state == Ready
    ensures forall j | 0 <= j < n :: j in ReadyUpTo(t, n) <==> t[j].state == Ready
    ensures forall a, b | 0 <= a < b < |ReadyUpTo(t, n)| :: ReadyUpTo(t, n)[a] < ReadyUpTo(t, n)[b]
  {
    if n > 0 {
      ReadyUpToExact(t, n - 1);
      var r := ReadyUpTo(t, n - 1);
      var e: seq<nat> := if t[n - 1].state == Ready then [n - 1] else [];
      assert ReadyUpTo(t, n) == r + e;
      assert forall a | 0 <= a < |r| :: (r + e)[a] == r[a];
    }
  }

  /** With no READY slot among the first n, there is nothing to run. */
  lemma {:induction false} NoneReady(t: seq<Slot>, n: nat)
    requires n <= |t| && forall j | 0 <= j < n :: t[j].state != Ready
    ensures ReadyUpTo(t, n) == []
  {
    if n > 0 {
      NoneReady(t, n - 1);
    }
  }

  /** After proc_run no slot is READY any more. */
  lemma NoReadyAfterRun(t: seq<Slot>)
    ensures forall j | 0 <= j < |t| :: RanUpTo(t, |t|)[j].state != Ready
    ensures ReadyUpTo(RanUpTo(t, |t|), |t|) == []
  {
    NoneReady(RanUpTo(t, |t|), |t|);
  }

  class LegacyTable {
    const tab: array<Slot>
    var currentPid: int
    var nextPid: nat
    /** The pids proc_create has returned. */
    ghost var issued: seq<nat>
    /** The entry calls proc_run has made. */
    ghost var entered: seq<Entry>

    ghost predicate Valid()
      reads this
    {
      tab.Length == MAX_PROCS && nextPid <= MAX_PROCS && -1 <= currentPid < MAX_PROCS
      && |issued| == nextPid && (forall k | 0 <= k < |issued| :: issued[k] == k)
    }

    /** The static storage: a zero-filled table, current_pid == -1, next_pid == 0. */
    constructor ()
      ensures Valid() && fresh(tab)
      ensures tab[..] == seq(MAX_PROCS, _ => Slot(0, Current, 0))
      ensures currentPid == -1 && nextPid == 0 && issued == [] && entered == []
    {
      tab := new Slot[MAX_PROCS](_ => Slot(0, Current, 0));
      currentPid := -1;
      nextPid := 0;
      issued := [];
      entered := [];
    }

    /** proc_init: every slot pid -1, TERMINATED, entry 0; next_pid is not reset. */
    method Init()
      requires Valid()
      modifies tab
      ensures Valid()
      ensures tab[..] == seq(MAX_PROCS, _ => EMPTY_SLOT)
    {
      for i := 0 to MAX_PROCS
        invariant forall j | 0 <= j < i :: tab[j] == EMPTY_SLOT
      {
        tab[i] := EMPTY_SLOT;
      }
      assert tab[..] == seq(MAX_PROCS, _ => EMPTY_SLOT);
    }

    /** proc_create: the next pid from the counter, or -1 once MAX_PROCS pids
        have been handed out. A pid is never handed out twice. */
    method Create(func: nat) returns (pid: int)
      requires Valid()
      modifies this, tab
      ensures Valid() && currentPid == old(currentPid) && entered == old(entered)
      ensures old(nextPid) >= MAX_PROCS ==>
        pid == -1 && nextPid == old(nextPid) && tab[..] == old(tab[..]) && issued == old(issued)
      ensures old(nextPid) < MAX_PROCS ==>
        pid == old(nextPid) && nextPid == old(nextPid) + 1 && issued == old(issued) + [pid]
        && pid !in old(issued)
        && tab[..] == old(tab[..])[pid := Slot(pid, Ready, func)]
    {
      if nextPid >= MAX_PROCS {
        return -1;
      }
      pid := nextPid;
      nextPid := nextPid + 1;
      issued := issued + [pid];
      tab[pid] := Slot(pid, Ready, func);
    }

    /** proc_run: in ascending slot order, make each READY slot CURRENT with
        current_pid set to it, call its entry, then proc_exit. */
    method Run()
      requires Valid()
      modifies this, tab
      ensures Valid() && nextPid == old(nextPid) && issued == old(issued)
      ensures tab[..] == RanUpTo(old(tab[..]), MAX_PROCS)
      ensures entered == old(entered) + Entered(ReadyUpTo(old(tab[..]), MAX_PROCS))
      ensures currentPid == if ReadyUpTo(old(tab[..]), MAX_PROCS) == [] then old(currentPid) else -1
    {
      ghost var t0 := tab[..];
      for i := 0 to MAX_PROCS
        invariant Valid() && nextPid == old(nextPid) && issued == old(issued)
        invariant tab[..] == RanUpTo(t0, i)
        invariant entered == old(entered) + Entered(ReadyUpTo(t0, i))
        invariant currentPid == if ReadyUpTo(t0, i) == [] then old(currentPid) else -1
      {
        if tab[i].state == Ready {
          currentPid := i;
          tab[i] := tab[i].(state := Current);
          entered := entered + [Entry(i, currentPid, tab[i].state)];
          Exit();
        }
        assert tab[..] == RanUpTo(t0, i + 1);
      }
    }

    /** proc_exit: nothing when no process is current; otherwise that slot becomes TERMINATED. */
    method Exit()
      requires Valid()
      modifies this, tab
      ensures Valid() && nextPid == old(nextPid) && issued == old(issued) && entered == old(entered)
      ensures old(currentPid) < 0 ==> currentPid == old(currentPid) && tab[..] == old(tab[..])
      ensures old(currentPid) >= 0 ==>
        currentPid == -1 && tab[..] == old(tab[..])[old(currentPid) := old(tab[currentPid]).(state := Terminated)]
    {
      if currentPid < 0 {
        return;
      }
      tab[currentPid] := tab[currentPid].(state := Terminated);
      currentPid := -1;
    }
  }
}
