/** process.c as state: the static `proctab`, `current_pid`, `currpid` and
    `first_dispatch`, updated in place, with every process stack taken from
    and given back to the heap arena of mem.c. */
module Process {
  import opened Machine
  import opened MemSpec
  import opened ProcessSpec
  import Mem
  import MemLemmas
  import ProcessLemmas

  /** Every live slot owns a distinct block that the heap has handed out. */
  ghost predicate StacksIn(t: seq<Pcb>, owned: set<nat>)
  {
    (forall i | 0 <= i < |t| && Live(t[i]) :: t[i].mem.At? && t[i].mem.off in owned)
    && (forall i, j | 0 <= i < |t| && 0 <= j < |t| && i != j && Live(t[i]) && Live(t[j]) :: t[i].mem != t[j].mem)
  }

  lemma StacksInKept(t: seq<Pcb>, u: seq<Pcb>, owned: set<nat>)
    requires StacksIn(t, owned) && |u| == |t|
    requires forall i | 0 <= i < |t| :: u[i].mem == t[i].mem && (Live(u[i]) <==> Live(t[i]))
    ensures StacksIn(u, owned)
  {
  }

  /** Filling a free slot with a new READY process on a newly handed-out block
      keeps the table invariant and the stack ownership. */
  lemma InstallKeeps(s: Sched, owned: set<nat>, k: nat, p: Pcb)
    requires WellFormed(s) && StacksIn(s.tab, owned) && k < MAX_PROCS && !Live(s.tab[k])
    requires p.pid == k && p.state == Ready && p.mem.At? && p.stackBase == p.mem
    requires p.memsz == PROC_STACK_SIZE && p.mem.off !in owned
    ensures WellFormed(s.(tab := s.tab[k := p]))
    ensures StacksIn(s.tab[k := p], owned + {p.mem.off})
  {
  }

  /** The dispatch history: empty until first_dispatch is cleared, then one
      bootstrap jump followed by switches (and halts) only. */
  ghost predicate TraceOk(trace: seq<Event>, firstDispatch: bool)
  {
    (firstDispatch <==> trace == [])
    && (trace != [] ==> trace[0].Bootstrap?)
    && (forall i | 1 <= i < |trace| :: !trace[i].Bootstrap?)
  }

  class ProcessTable {
    /** The heap that process stacks come from. */
    const arena: Mem.Arena
    /** Address of the first byte of the heap arena. */
    const heapBase: nat
    /** Address of proc_exit, pushed as the return address of every new process. */
    const exitAddr: nat

    const tab: array<Pcb>
    var currentPid: int
    /** `currpid`, as the index of the slot it points to. */
    var currpid: Option<nat>
    var firstDispatch: bool
    /** 32-bit words stored into process stacks, by address. */
    var stackWords: map<nat, nat>
    /** The bootstrap jumps, context switches and halts performed so far. */
    ghost var trace: seq<Event>

    ghost function View(): Sched
      reads this, tab
    {
      Sched(tab[..], currentPid, currpid, firstDispatch)
    }

    /** Bounds that hold from the start. */
    ghost predicate Shape()
      reads this, tab, arena
    {
      tab.Length == MAX_PROCS && Shaped(View()) && arena.Valid()
      && heapBase + HEAP_SIZE < WORD_MOD && exitAddr < WORD_MOD
      && TraceOk(trace, firstDispatch)
    }

    /** The invariant kept between calls once proc_init has run. */
    ghost predicate Valid()
      reads this, tab, arena
    {
      Shape() && WellFormed(View()) && StacksIn(tab[..], Allocated(arena.blocks))
    }

    /** The static storage before proc_init: a zero-filled table (every slot
        reads pid 0, PR_CURRENT), current_pid == -1, currpid == NULL,
        first_dispatch == 1. */
    constructor (arena: Mem.Arena, heapBase: nat, exitAddr: nat)
      requires arena.Valid() && heapBase + HEAP_SIZE < WORD_MOD && exitAddr < WORD_MOD
      ensures Shape() && fresh(tab)
      ensures tab[..] == seq(MAX_PROCS, _ => ZERO_PCB)
      ensures currentPid == -1 && currpid == None && firstDispatch && trace == [] && stackWords == map[]
      ensures this.arena == arena && this.heapBase == heapBase && this.exitAddr == exitAddr
      ensures arena.blocks == old(arena.blocks)
    {
      this.arena := arena;
      this.heapBase := heapBase;
      this.exitAddr := exitAddr;
      tab := new Pcb[MAX_PROCS](_ => ZERO_PCB);
      currentPid := -1;
      currpid := None;
      firstDispatch := true;
      stackWords := map[];
      trace := [];
    }

    /** proc_init: every slot empty. Called at boot, before any process exists. */
    method Init()
      requires Shape() && currpid == None && currentPid == -1
      modifies tab
      ensures Valid()
      ensures tab[..] == seq(MAX_PROCS, _ => EMPTY_PCB)
    {
      for i := 0 to MAX_PROCS
        invariant forall j | 0 <= j < i :: tab[j] == EMPTY_PCB
      {
        tab[i] := EMPTY_PCB;
      }
      assert tab[..] == seq(MAX_PROCS, _ => EMPTY_PCB);
    }

    /** proc_create: take the lowest TERMINATED slot and a 4096-byte stack,
        push proc_exit and func below the 16-byte aligned top of the stack,
        and fill in the record. -1 when no slot is free (no allocation is
        attempted) or the heap has no room. */
    method Create(func: nat) returns (pid: int)
      requires Valid() && func < WORD_MOD
      modifies this, tab, arena
      ensures Valid()
      ensures currentPid == old(currentPid) && currpid == old(currpid)
      ensures firstDispatch == old(firstDispatch) && trace == old(trace)
      ensures var k := LowestTerminated(old(tab[..]), 0); var r := MemSpec.Alloc(old(arena.blocks), PROC_STACK_SIZE);
        k < MAX_PROCS && r.ptr.At? ==> r.ptr.off + PROC_STACK_SIZE <= HEAP_SIZE
      ensures var k := LowestTerminated(old(tab[..]), 0);
        (k == MAX_PROCS ==>
           pid == -1 && tab[..] == old(tab[..]) && arena.blocks == old(arena.blocks) && stackWords == old(stackWords))
        && (k < MAX_PROCS ==>
              var r := MemSpec.Alloc(old(arena.blocks), PROC_STACK_SIZE);
              arena.blocks == r.blocks
              && (r.ptr.Null? ==> pid == -1 && tab[..] == old(tab[..]) && stackWords == old(stackWords))
              && (r.ptr.At? ==>
                    var esp := InitialEsp(heapBase + r.ptr.off);
                    pid == k
                    && tab[..] == old(tab[..])[k := Pcb(k, Ready, func, r.ptr, esp, r.ptr, PROC_STACK_SIZE)]
                    && stackWords == old(stackWords)[esp + 4 := exitAddr][esp := func]
                    && heapBase + r.ptr.off <= esp && esp + 8 <= heapBase + r.ptr.off + PROC_STACK_SIZE
                    && Allocated(arena.blocks) == old(Allocated(arena.blocks)) + {r.ptr.off}))
    {
      var k := 0;
      while k < MAX_PROCS
        invariant k <= MAX_PROCS
        invariant LowestTerminated(tab[..], k) == LowestTerminated(tab[..], 0)
      {
        if tab[k].state == Terminated {
          break;
        }
        k := k + 1;
      }
      if k == MAX_PROCS {
        return -1;
      }
      ghost var before := arena.blocks;
      MemLemmas.AllocInUse(before, PROC_STACK_SIZE);
      var stack := arena.Alloc(PROC_STACK_SIZE);
      if stack.Null? {
        return -1;
      }
      MemLemmas.AllocWithinArena(before, PROC_STACK_SIZE);
      var top := heapBase + stack.off + PROC_STACK_SIZE;
      var sp := top - top % 16;
      sp := sp - 4;
      stackWords := stackWords[sp := exitAddr];
      sp := sp - 4;
      stackWords := stackWords[sp := func];
      var p := Pcb(k, Ready, func, stack, sp, stack, PROC_STACK_SIZE);
      InstallKeeps(View(), Allocated(before), k, p);
      tab[k] := p;
      pid := k;
    }

    /** The circular scan of resched: the first READY slot after `prev`
        (slots 1, ..., 99, 0 when prev < 0), or 0 when none is READY. */
    method SelectNext(prev: int) returns (next: nat)
      requires tab.Length == MAX_PROCS && prev < MAX_PROCS
      ensures next == Select(tab[..], prev)
    {
      var start := if prev < 0 then 0 else prev;
      var i := 1;
      while i <= MAX_PROCS
        invariant 1 <= i <= MAX_PROCS + 1
        invariant FirstReady(tab[..], prev, i) == FirstReady(tab[..], prev, 1)
      {
        var pid := (start + i) % MAX_PROCS;
        if tab[pid].state == Ready {
          return pid;
        }
        i := i + 1;
      }
      return 0;
    }

    /** The dispatching half of resched, once the idle guard has passed and
        the scan has chosen a slot other than the running one: demote,
        promote, then the bootstrap jump or ctxsw. */
    method Dispatch(prev: int, next: nat, sp: nat)
      requires Valid() && tab[0].state != Terminated && tab[0].pid == 0
      requires prev == currentPid && next == Select(tab[..], prev) && !(next == prev && prev >= 0)
      modifies this, tab
      ensures Valid()
      ensures var r := ProcessSpec.Resched(old(View()), sp);
        View() == r.s && trace == old(trace) + r.events && r.events != []
      ensures stackWords == old(stackWords)
    {
      ghost var r := ProcessSpec.Resched(View(), sp);
      ProcessLemmas.ReschedKeepsWellFormed(View(), sp);
      ProcessLemmas.ReschedKeepsStacks(View(), sp);
      ProcessLemmas.BootstrapOnlyOnce(View(), sp);
      ProcessLemmas.SelectReadyOrIdle(tab[..], prev);
      StacksInKept(tab[..], r.s.tab, Allocated(arena.blocks));
      if prev >= 0 && tab[prev].state == Current {
        tab[prev] := tab[prev].(state := Ready);
      }
      tab[next] := tab[next].(state := Current);
      currentPid := next;
      currpid := Some(next);
      if firstDispatch {
        firstDispatch := false;
        trace := trace + [Bootstrap(next, tab[next].esp, tab[next].entry)];
        assert View() == r.s;
        return;
      }
      // ctxsw(&proctab[prev].esp, &proctab[next].esp): with prev == -1 the
      // save lands one slot before the table and is only recorded.
      if prev >= 0 {
        tab[prev] := tab[prev].(esp := sp);
      }
      trace := trace + [Switch(prev, next)];
      assert View() == r.s;
    }

    /** resched. `sp` is the stack pointer ctxsw saves for the outgoing
        process; `dispatched` is false when resched returns early. */
    method Resched(sp: nat) returns (dispatched: bool)
      requires Valid()
      modifies this, tab
      ensures Valid()
      ensures var r := ProcessSpec.Resched(old(View()), sp);
        View() == r.s && trace == old(trace) + r.events && (dispatched <==> r.events != [])
      ensures stackWords == old(stackWords)
    {
      if tab[0].state == Terminated || tab[0].pid != 0 {
        return false;
      }
      var prev := currentPid;
      var next := SelectNext(prev);
      if next == prev && prev >= 0 {
        return false;
      }
      Dispatch(prev, next, sp);
      dispatched := true;
    }

    /** yield: the running slot (pid 0 included) goes back to READY, then resched. */
    method Yield(sp: nat)
      requires Valid()
      modifies this, tab
      ensures Valid()
      ensures var r := ProcessSpec.Yield(old(View()), sp);
        View() == r.s && trace == old(trace) + r.events
      ensures stackWords == old(stackWords)
    {
      ProcessLemmas.RearmedWellFormed(View());
      if currpid.Some? {
        var c := currpid.value;
        tab[c] := tab[c].(state := Ready);
      }
      var _ := Resched(sp);
    }

    /** The part of proc_exit before its resched: the running slot becomes
        TERMINATED, its stack goes back to the heap and mem is cleared, then
        currpid and current_pid are cleared. */
    method Retire() returns (pid: nat)
      requires Valid() && currpid.Some?
      modifies this, tab, arena
      ensures Valid() && CanExit(old(View()))
      ensures pid == old(currpid.value) && View() == Exited(old(View()))
      ensures old(tab[currpid.value].mem).At? && Freeable(old(arena.blocks), old(tab[currpid.value].mem))
      ensures arena.blocks == MemSpec.Free(old(arena.blocks), old(tab[currpid.value].mem))
      ensures Allocated(arena.blocks) == old(Allocated(arena.blocks)) - {old(tab[currpid.value].mem).off}
      ensures stackWords == old(stackWords) && trace == old(trace)
    {
      ProcessLemmas.ExitedWellFormed(View());
      pid := tab[currpid.value].pid;
      assert Live(tab[pid]);
      tab[pid] := tab[pid].(state := Terminated);
      MemLemmas.AllocatedFreeable(arena.blocks, tab[pid].mem.off);
      MemLemmas.FreeInUse(arena.blocks, tab[pid].mem.off);
      arena.Free(tab[pid].mem);
      tab[pid] := tab[pid].(mem := Null);
      currpid := None;
      currentPid := -1;
    }

    /** proc_exit: retire the running process and resched; when resched
        returns instead of dispatching, the process spins forever. */
    method Exit(sp: nat)
      requires Valid() && currpid.Some?
      modifies this, tab, arena
      ensures Valid() && CanExit(old(View()))
      ensures var r := ProcessSpec.Exit(old(View()), sp);
        View() == r.s && trace == old(trace) + r.events
      ensures old(tab[currpid.value].mem).At? && Freeable(old(arena.blocks), old(tab[currpid.value].mem))
      ensures arena.blocks == MemSpec.Free(old(arena.blocks), old(tab[currpid.value].mem))
      ensures Allocated(arena.blocks) == old(Allocated(arena.blocks)) - {old(tab[currpid.value].mem).off}
      ensures stackWords == old(stackWords)
    {
      var pid := Retire();
      var dispatched := Resched(sp);
      if !dispatched {
        trace := trace + [Halt(pid)];
      }
    }

    /** proc_run, the boot-time start of dispatching: forget the current pid and resched. */
    method Run(sp: nat)
      requires Valid() && firstDispatch
      modifies this, tab
      ensures Valid()
      ensures var r := ProcessSpec.Run(old(View()), sp);
        View() == r.s && trace == old(trace) + r.events
      ensures stackWords == old(stackWords)
    {
      currentPid := -1;
      var _ := Resched(sp);
    }
  }
}
