/** kmain's start-up sequence: mem_init, proc_init, proc_create of the
    shell as pid 0, then sched_start, whose proc_run jumps into the shell. */
module Boot {
  import opened Machine
  import opened MemSpec
  import opened ProcessSpec
  import Mem
  import MemLemmas
  import ProcessLemmas
  import Process

  /** The table proc_create leaves after proc_init when the shell takes slot 0. */
  function ShellTable(heapBase: nat, shell: nat): (t: seq<Pcb>)
    requires heapBase + HEAP_SIZE < WORD_MOD
    ensures |t| == MAX_PROCS
  {
    seq(MAX_PROCS, _ => EMPTY_PCB)[0 := Pcb(0, Ready, shell, At(H), InitialEsp(heapBase + H), At(H), PROC_STACK_SIZE)]
  }

  /** mem_init, proc_init and proc_create(null_process): the shell gets pid 0
      and the first stack of the heap, at payload offset 12. */
  method Setup(heapBase: nat, shell: nat, exit: nat) returns (t: Process.ProcessTable, pid: int)
    requires heapBase + HEAP_SIZE < WORD_MOD && shell < WORD_MOD && exit < WORD_MOD
    ensures t.Valid() && pid == 0 && fresh(t.tab)
    ensures t.arena.blocks == MemLemmas.Stacks(1)
    ensures t.tab[..] == ShellTable(heapBase, shell)
    ensures t.currentPid == -1 && t.currpid == None && t.firstDispatch && t.trace == []
    ensures t.stackWords == map[InitialEsp(heapBase + H) + 4 := exit][InitialEsp(heapBase + H) := shell]
  {
    var heap := new Mem.Arena();
    heap.Init();
    t := new Process.ProcessTable(heap, heapBase, exit);
    t.Init();
    MemLemmas.FifteenStacksFit(0);
    assert LowestTerminated(t.tab[..], 0) == 0;
    pid := t.Create(shell);
  }

  /** kmain: after Setup, sched_start's proc_run makes the only dispatch, the
      bootstrap jump into the shell at the esp proc_create prepared. `shell`
      is the address of null_process, `exit` that of proc_exit, and `sp` the
      boot stack pointer. */
  method Kmain(heapBase: nat, shell: nat, exit: nat, sp: nat) returns (t: Process.ProcessTable, pid: int)
    requires heapBase + HEAP_SIZE < WORD_MOD && shell < WORD_MOD && exit < WORD_MOD
    ensures t.Valid() && pid == 0
    ensures t.arena.blocks == MemLemmas.Stacks(1)
    ensures t.trace == [Bootstrap(0, InitialEsp(heapBase + H), shell)]
    ensures t.tab[0] == Pcb(0, Current, shell, At(H), InitialEsp(heapBase + H), At(H), PROC_STACK_SIZE)
    ensures t.currentPid == 0 && t.currpid == Some(0) && !t.firstDispatch
    ensures t.stackWords == map[InitialEsp(heapBase + H) + 4 := exit][InitialEsp(heapBase + H) := shell]
  {
    t, pid := Setup(heapBase, shell, exit);
    ghost var s := t.View();
    assert forall j | 1 <= j < MAX_PROCS :: s.tab[j].state == Terminated;
    ProcessLemmas.RunBootsIntoShell(s, sp);
    t.Run(sp);
  }
}
