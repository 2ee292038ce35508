/** The process table and round-robin dispatcher of process.c, as values:
    which slot proc_create takes, which slot resched picks, and what
    resched, yield and proc_exit do to the table and the dispatch flag.
    The two pieces of machine code (the bootstrap jump and ctxsw) are
    recorded as events instead of being executed. */
module ProcessSpec {
  import opened Machine

  /** MAX_PROCS of process.h. */
  const MAX_PROCS: nat := 100

  /** PROC_STACK_SIZE: bytes of heap taken for each process stack. */
  const PROC_STACK_SIZE: nat := 4096

  /** proc_state_t; the zero value of the C enum is PR_CURRENT. */
  datatype ProcState = Current | Ready | Terminated

  /** pcb_t. Code and stack addresses are 32-bit values, 0 standing for NULL;
      `stackBase` and `mem` point into the heap arena. */
  datatype Pcb = Pcb(pid: int, state: ProcState, entry: nat, stackBase: Ptr, esp: nat, mem: Ptr, memsz: nat)

  /** A slot as proc_init leaves it. */
  const EMPTY_PCB: Pcb := Pcb(-1, Terminated, 0, Null, 0, Null, 0)

  /** A slot of the zero-initialised static table, before proc_init. */
  const ZERO_PCB: Pcb := Pcb(0, Current, 0, Null, 0, Null, 0)

  /** What resched hands to the machine code. */
  datatype Event =
    | Bootstrap(to: nat, esp: nat, entry: nat)  // load esp, jump to entry; the boot stack is abandoned
    | Switch(from: int, to: nat)                 // ctxsw(&proctab[from].esp, &proctab[to].esp)
    | Halt(pid: nat)                             // proc_exit's resched returned: `while (1);`

  /** The dispatcher's state: proctab, current_pid, currpid (as a slot index) and first_dispatch. */
  datatype Sched = Sched(tab: seq<Pcb>, currentPid: int, currpid: Option<nat>, firstDispatch: bool)

  /** The state after a call and the events it recorded, in order. */
  datatype Step = Step(s: Sched, events: seq<Event>)

  /** What the C code needs to index the table without going out of bounds. */
  predicate Shaped(s: Sched)
  {
    |s.tab| == MAX_PROCS && -1 <= s.currentPid < MAX_PROCS
    && (s.currpid.Some? ==> s.currpid.value < MAX_PROCS)
  }

  predicate Live(p: Pcb)
  {
    p.state != Terminated
  }

  /** The invariant process.c keeps between calls. */
  predicate WellFormed(s: Sched)
  {
    Shaped(s)
    && s.currpid == (if s.currentPid >= 0 then Some(s.currentPid) else None)
    && (s.firstDispatch ==> s.currentPid == -1)
    && (s.currentPid >= 0 ==> Live(s.tab[s.currentPid]))
    && (forall i | 0 <= i < MAX_PROCS :: s.tab[i].state == Current ==> i == s.currentPid)
    && (forall i | 0 <= i < MAX_PROCS :: Live(s.tab[i]) ==>
          s.tab[i].pid == i && s.tab[i].mem.At? && s.tab[i].stackBase == s.tab[i].mem
          && s.tab[i].memsz == PROC_STACK_SIZE)
    && (forall i | 0 <= i < MAX_PROCS :: !Live(s.tab[i]) ==> s.tab[i].mem == Null)
  }

  // ----- proc_create -----

  /** The lowest TERMINATED slot at or after i, or |t| when there is none. */
  function LowestTerminated(t: seq<Pcb>, i: nat): (k: nat)
    requires i <= |t|
    ensures i <= k <= |t|
    ensures k < |t| ==> t[k].state == Terminated
    ensures forall j | i <= j < k :: t[j].state != Terminated
    decreases |t| - i
  {
    if i == |t| then |t|
    else if t[i].state == Terminated then i
    else LowestTerminated(t, i + 1)
  }

  /** The initial esp of a stack at address `stack`: its end rounded down to
      16 bytes, less the two 4-byte words pushed below it. */
  function InitialEsp(stack: nat): (esp: nat)
    requires stack + PROC_STACK_SIZE < WORD_MOD
    ensures stack <= esp && esp + 8 <= stack + PROC_STACK_SIZE
    ensures (esp + 8) % 16 == 0 && stack + PROC_STACK_SIZE - 16 < esp + 8
  {
    var top := stack + PROC_STACK_SIZE;
    top - top % 16 - 8
  }

  // ----- resched: the circular scan -----

  /** The slot the scan starts after: `(prev < 0) ? 0 : prev`. */
  function Start(prev: int): nat
    requires prev < MAX_PROCS
  {
    if prev < 0 then 0 else prev
  }

  /** The slot the scan visits at step i = 1 .. MAX_PROCS. */
  function ScanSlot(prev: int, i: nat): nat
    requires prev < MAX_PROCS
  {
    (Start(prev) + i) % MAX_PROCS
  }

  /** At which step the scan visits slot j. */
  function ScanPos(prev: int, j: nat): (q: nat)
    requires prev < MAX_PROCS && j < MAX_PROCS
    ensures 1 <= q <= MAX_PROCS && ScanSlot(prev, q) == j
  {
    if j > Start(prev) then j - Start(prev) else j + MAX_PROCS - Start(prev)
  }

  /** The first step at or after i whose slot is READY; MAX_PROCS + 1 when none is. */
  function FirstReady(t: seq<Pcb>, prev: int, i: nat): (q: nat)
    requires |t| == MAX_PROCS && prev < MAX_PROCS && 1 <= i <= MAX_PROCS + 1
    ensures i <= q <= MAX_PROCS + 1
    ensures q <= MAX_PROCS ==> t[ScanSlot(prev, q)].state == Ready
    ensures forall p | i <= p < q :: t[ScanSlot(prev, p)].state != Ready
    decreases MAX_PROCS + 1 - i
  {
    if i > MAX_PROCS then i
    else if t[ScanSlot(prev, i)].state == Ready then i
    else FirstReady(t, prev, i + 1)
  }

  /** resched's choice: the first READY slot of the scan, or slot 0. */
  function Select(t: seq<Pcb>, prev: int): nat
    requires |t| == MAX_PROCS && prev < MAX_PROCS
  {
    var q := FirstReady(t, prev, 1);
    if q > MAX_PROCS then 0 else ScanSlot(prev, q)
  }

  // ----- resched, yield, proc_exit, proc_run -----

  /** resched. `sp` is the caller's stack pointer, which ctxsw saves into the
      outgoing slot. */
  function Resched(s: Sched, sp: nat): Step
    requires Shaped(s)
  {
    if s.tab[0].state == Terminated || s.tab[0].pid != 0 then Step(s, [])
    else
      var prev := s.currentPid;
      var next := Select(s.tab, prev);
      if next == prev && prev >= 0 then Step(s, [])
      else
        var t1 := if prev >= 0 && s.tab[prev].state == Current
                  then s.tab[prev := s.tab[prev].(state := Ready)] else s.tab;
        var t2 := t1[next := t1[next].(state := Current)];
        if s.firstDispatch then
          Step(Sched(t2, next, Some(next), false), [Bootstrap(next, t2[next].esp, t2[next].entry)])
        else
          // ctxsw stores the live stack pointer through &proctab[prev].esp; with
          // prev == -1 that store lands outside the table, which is not modelled.
          var t3 := if prev >= 0 then t2[prev := t2[prev].(esp := sp)] else t2;
          Step(Sched(t3, next, Some(next), false), [Switch(prev, next)])
  }

  /** yield: re-arm the running slot as READY (pid 0 included), then resched. */
  function Yield(s: Sched, sp: nat): Step
    requires Shaped(s)
  {
    var t := if s.currpid.Some? then s.tab[s.currpid.value := s.tab[s.currpid.value].(state := Ready)]
             else s.tab;
    Resched(s.(tab := t), sp)
  }

  /** What proc_exit demands: a current process whose pid names a slot. */
  predicate CanExit(s: Sched)
  {
    Shaped(s) && s.currpid.Some? && 0 <= s.tab[s.currpid.value].pid < MAX_PROCS
  }

  /** The table proc_exit hands to resched: the slot TERMINATED, its mem
      NULL (the stack has gone back to the heap), currpid and current_pid cleared. */
  function Exited(s: Sched): (e: Sched)
    requires CanExit(s)
    ensures Shaped(e)
  {
    var pid := s.tab[s.currpid.value].pid;
    Sched(s.tab[pid := s.tab[pid].(state := Terminated, mem := Null)], -1, None, s.firstDispatch)
  }

  /** proc_exit. When resched returns instead of dispatching, proc_exit spins forever. */
  function Exit(s: Sched, sp: nat): Step
    requires CanExit(s)
  {
    var r := Resched(Exited(s), sp);
    if r.events == [] then Step(r.s, [Halt(s.tab[s.currpid.value].pid)]) else r
  }

  /** proc_run: forget the current pid and resched. */
  function Run(s: Sched, sp: nat): Step
    requires Shaped(s)
  {
    Resched(s.(currentPid := -1), sp)
  }
}
