# kacchiOS kernel core in Dafny

A model of the sequential core of kacchiOS, a small cooperative i386 kernel.
The model covers four parts, each with proofs about it:

- **The first-fit free-list heap** (`mem.c`).
- **The process table and round-robin dispatcher** (`process.c`). Its process stacks come from that heap.
- **The older run-to-completion table** (`proc.c`).
- **The shell's helpers** (`kernel.c`): `int_to_string`, the line editor and the command choice. The start-up sequence of `kmain` is modelled as well.

Layout:

| file | module | what |
|---|---|---|
| common.dfy | `Machine` | 32-bit bounds, `Option`, `Ptr` (NULL or an offset into the heap arena) |
| heap.dfy | `MemSpec` | the block list as a value; `Alloc`, `Free`, first fit, split, coalescing pass |
| heap_lemmas.dfy | `MemLemmas` | tiling, first fit, split rule, round trip, blocks in use, the 15-stack limit |
| arena.dfy | `Mem` | class `Arena`: `mem_init`, `mem_alloc`, `mem_free` updating `free_list` in place |
| process_spec.dfy | `ProcessSpec` | the dispatcher as a value: slot scan, `resched`, `yield`, `proc_exit`, `proc_run` |
| process_lemmas.dfy | `ProcessLemmas` | what the dispatcher promises, proved about `ProcessSpec` |
| process_table.dfy | `Process` | class `ProcessTable`: `proctab` as an array, linked to an `Arena` |
| process_print.dfy | `ProcessPrint` | `serial_put_int` and the hex column of `proc_list` |
| legacy_proc.dfy | `LegacyProc` | class `LegacyTable`: the `proc.c` table |
| numerals.dfy | `Numerals` | decimal and hex spellings, their parsers and round trips |
| kernel.dfy | `Kernel` | `int_to_string`, the line editor, command choice |
| boot.dfy | `Boot` | `kmain`: heap, table, shell as pid 0, first dispatch |

**The heap.** The heap is a sequence of `Block(size, free)` headers in address order.
- Block *k* starts at `Offset(bs, k)`, the header-plus-payload sum of the blocks before it. So the `next` link is simply the following element.
- The arena is tiled when these sums add up to 65536 and every size is a multiple of 4.
- The header is 12 bytes: `sizeof(mem_block_t)` on i386.
- The empty sequence is `free_list == NULL`, the state before `mem_init`.
- A pointer into the heap is `At(off)`, the payload's offset from the start of the arena.

**The process table.** `ProcessTable` keeps `proctab` as an `array<Pcb>`, along with `current_pid`, `currpid` (the slot it points to) and `first_dispatch`.
- The two pieces of inline machine code are not executed. They are recorded in a ghost trace of events:
  - `Bootstrap(to, esp, entry)` for the first jump;
  - `Switch(from, to)` for `ctxsw`;
  - `Halt(pid)` for the spin after `proc_exit` when its `resched` returns.
- `SelectNext`, `Dispatch`, `Resched`, `Yield`, `Exit` and `Run` are each proved equal to the matching function of `ProcessSpec`, and `Retire` to `Exited`. The lemmas about those functions carry the behavioural properties. `Init` and `Create` have no such function; their contracts state the new table directly.
- The table's invariant ties every live slot to a distinct block that the heap has handed out and not yet freed.

The `kmain` start-up sequence is modelled in boot.dfy.

## Model

| member | source | states |
|---|---|---|
| MemSpec.Initial | mem.c:17-21 | mem_init leaves one free block at offset 0 whose header plus payload is the whole 64 KiB arena; the list is tiled and has no free neighbours |
| MemSpec.Round4 | mem.c:29 | the request rounded up to a multiple of 4 in a 32-bit size_t: at least the request and less than 4 above it, except that requests above 2^32-4 wrap to 0 |
| MemSpec.FirstFit | mem.c:30-32 | the index found is free and large enough, and no earlier block is; or no block fits |
| MemSpec.BlockIndex | mem.c:55 | `ptr - sizeof(mem_block_t)`: the block found has its payload at the given offset |
| MemLemmas.OffsetMonotone | mem.c:34-39 | the list is in strictly ascending address order, as splitting places the new header right after the handed-out payload: each block's header and payload end at or before the header of any later block |
| MemSpec.Carve | mem.c:33-42 | definition; its properties are proved in MemLemmas.AllocSplitsOnlyWithRoom, MemLemmas.AllocKeepsTiling and MemLemmas.AllocInUse |
| MemSpec.Alloc | mem.c:27-48 | definition; its properties are proved in MemLemmas.AllocIsFirstFit, MemLemmas.AllocKeepsTiling, MemLemmas.AllocWithinArena and MemLemmas.AllocInUse |
| MemSpec.MergeAt | mem.c:60-62 | definition; its properties are proved in MemLemmas.CoalesceShape |
| MemSpec.Coalesce | mem.c:58-66 | definition; its properties are proved in MemLemmas.CoalesceShape, MemLemmas.CoalesceLeavesNoAdjacentFree and MemLemmas.CoalesceIdentity |
| MemSpec.Free | mem.c:52-67 | definition; its properties are proved in MemLemmas.FreeKeepsTiling, MemLemmas.FreeNull, MemLemmas.FreeInUse and MemLemmas.AllocThenFree |
| Mem.Arena.Init | mem.c:17-21 | mem_init sets the list to the single initial block |
| Mem.Arena.Alloc | mem.c:27-48 | the walk ends in exactly the state and pointer of `MemSpec.Alloc` and keeps the arena tiled |
| Mem.Arena.Free | mem.c:52-67 | marking plus the coalescing pass (which stays on a block after a merge) end in exactly `MemSpec.Free` and keep the arena tiled |
| MemLemmas.AllocKeepsTiling | mem.c:33-43 | after mem_alloc the blocks still tile the arena, in order, with aligned sizes |
| MemLemmas.AllocIsFirstFit | mem.c:29-47 | mem_alloc returns NULL exactly when no free block holds the rounded size, and then the list is unchanged; otherwise the returned block is the first free block that fits and is now in use |
| MemLemmas.AllocSplitsOnlyWithRoom | mem.c:33-42 | the chosen block is split only when it exceeds rounded size + 12; the new free block starts right after the requested bytes and holds the rest less one header; the chosen block shrinks to exactly the rounded size; otherwise the whole block is handed out |
| MemLemmas.AllocWithinArena | mem.c:43 | the returned payload starts 12 bytes past a header and ends inside the arena |
| MemLemmas.AllocInUse | mem.c:42-43 | a successful alloc adds exactly the returned payload to the set of blocks in use, and it was not in use before |
| MemLemmas.CoalesceLeavesNoAdjacentFree | mem.c:58-66 | the pass leaves no two neighbouring free blocks |
| MemLemmas.CoalesceShape | mem.c:60-62 | merging keeps the total span, the alignment and the set of blocks in use |
| MemLemmas.CoalesceIdentity | mem.c:58-66 | the pass changes nothing when no two neighbours are free |
| MemLemmas.FreeKeepsTiling | mem.c:52-67 | mem_free keeps the arena tiled, and after freeing a block no two neighbours are free |
| MemLemmas.FreeNull | mem.c:53 | mem_free(NULL) changes nothing |
| MemLemmas.FreeInUse | mem.c:55-66 | mem_free takes exactly the freed payload out of the set of blocks in use |
| MemLemmas.AllocThenFree | mem.c:27-66 | round trip: when no two neighbours were free, freeing what mem_alloc returned restores the identical block list |
| MemLemmas.SplitThenMerge | mem.c:33-62 | in the split case, marking the handed-out block free lets the pass fold it back into its split-off tail, which restores the original block |
| MemLemmas.AtMostFifteenStacks | mem.c:4 | a tiled arena holds at most 15 blocks in use of 4096 bytes or more |
| MemLemmas.SixteenthStackFails | mem.c:27-47 | with 15 such blocks in use, a 4096-byte request returns NULL |
| MemLemmas.FifteenStacksFit | mem.c:17-47 | from mem_init, 15 successive 4096-byte requests succeed at offsets 12, 4120, 8228, ... and the sixteenth fails |
| ProcessSpec.LowestTerminated | process.c:54-58 | the slot found is TERMINATED and every lower slot is not, or there is none |
| ProcessSpec.InitialEsp | process.c:69-72 | the prepared esp, with the two pushed words above it, lies inside the stack, with esp + 8 on a 16-byte boundary within 16 bytes of the stack's end |
| ProcessSpec.ScanPos | process.c:109-111 | every slot is visited by exactly one of the scan steps 1 .. 100 |
| ProcessSpec.FirstReady | process.c:110-116 | the scan step found visits a READY slot and no earlier step does |
| ProcessSpec.Select | process.c:108-121 | definition; its properties are proved in ProcessLemmas.SelectIsNearestReady and ProcessLemmas.BootPicksSlotZeroLast |
| ProcessSpec.Resched | process.c:98-153 | definition; its properties are proved in ProcessLemmas.ReschedNoOp, ProcessLemmas.ReschedDispatches, ProcessLemmas.BootstrapOnlyOnce, ProcessLemmas.ReschedKeepsWellFormed and ProcessLemmas.ReschedKeepsStacks |
| ProcessSpec.Yield | process.c:155-165 | definition; its properties are proved in ProcessLemmas.YieldKeepsWellFormed, ProcessLemmas.YieldAloneStaysReady, ProcessLemmas.YieldToOther and ProcessLemmas.TwoProcessesAlternate |
| ProcessSpec.Exit | process.c:168-184 | definition; its properties are proved in ProcessLemmas.ExitKeepsWellFormed, ProcessLemmas.ExitSwitchesFromOutsideTable and ProcessLemmas.ExitOfIdleHalts |
| ProcessSpec.Run | process.c:93-96 | definition; its properties are proved in ProcessLemmas.RunBootsIntoShell and ProcessLemmas.RunKeepsWellFormed |
| ProcessSpec.Exited | process.c:169-180 | the state proc_exit hands to resched still indexes the table |
| ProcessLemmas.SelectIsNearestReady | process.c:108-121 | resched's choice is the READY slot visited first after `old` in circular order, and slot 0 when no slot is READY |
| ProcessLemmas.BootScanOrder | process.c:109-111 | when old < 0 the scan visits slots 1, 2, ..., 99 and then slot 0 last |
| ProcessLemmas.BootPicksSlotZeroLast | process.c:109-121 | when old < 0, slot 0 is chosen only when no other slot is READY, and a READY slot 1 is always chosen |
| ProcessLemmas.ReschedNoOp | process.c:100-126 | resched changes nothing and dispatches nothing exactly when slot 0 is TERMINATED, or its pid is not 0, or the choice is the running slot |
| ProcessLemmas.ReschedDispatches | process.c:128-152 | otherwise the chosen slot becomes CURRENT and current_pid/currpid name it; the outgoing slot ends READY; no other slot changes; the first dispatch is the bootstrap jump to the slot's esp and entry, and every other is a ctxsw that saves the stack pointer into the outgoing slot |
| ProcessLemmas.BootstrapOnlyOnce | process.c:137-152 | a dispatch is a bootstrap jump exactly when first_dispatch was set, and first_dispatch is clear after any dispatch and never set again |
| ProcessLemmas.ReschedKeepsWellFormed | process.c:98-153 | resched keeps the table invariant; at most one slot is CURRENT |
| ProcessLemmas.ReschedKeepsStacks | process.c:128-152 | resched changes no slot's liveness, stack or entry |
| ProcessLemmas.YieldKeepsWellFormed | process.c:155-165 | yield keeps the table invariant |
| ProcessLemmas.YieldAloneStaysReady | process.c:155-165 | when the yielding process is the only READY one, resched returns early: it keeps running but stays READY, not CURRENT |
| ProcessLemmas.YieldToOther | process.c:155-165 | with exactly one other process READY, yield switches to it and leaves the yielding one READY; since slot 0 is live and only the two slots are, one of them is the shell, pid 0 |
| ProcessLemmas.TwoProcessesAlternate | process.c:155-165 | two processes that keep yielding alternate, a to b and then b to a; one of them is the shell, pid 0 |
| ProcessLemmas.ExitKeepsWellFormed | process.c:168-181 | proc_exit keeps the table invariant |
| ProcessLemmas.ExitSwitchesFromOutsideTable | process.c:168-184 | after the first dispatch, every proc_exit of a process other than pid 0 reaches ctxsw with old == -1, outside the table |
| ProcessLemmas.ExitOfIdleHalts | process.c:168-184 | when pid 0 exits, resched's guard returns and proc_exit spins |
| ProcessLemmas.RunBootsIntoShell | process.c:93-149 | at boot with only slot 0 created, proc_run jumps into it at its prepared esp and entry |
| ProcessLemmas.RunKeepsWellFormed | process.c:93-96 | proc_run keeps the table invariant |
| Process.ProcessTable.constructor | process.c:8-13 | the static storage: a zero-filled table, current_pid = -1, currpid = NULL, first_dispatch = 1 |
| Process.ProcessTable.Init | process.c:37-47 | every slot pid -1, TERMINATED, with null entry, stack, esp and mem and memsz 0 |
| Process.ProcessTable.Create | process.c:52-91 | -1 with nothing changed (not even the heap) when no slot is TERMINATED; -1 with the table unchanged when mem_alloc fails; otherwise the lowest TERMINATED slot gets pid == index, READY, entry, mem == stack_base == the new block, memsz 4096 and the prepared esp, with func at esp and proc_exit just above it, both inside the block |
| Process.InstallKeeps | process.c:77-83 | filling a TERMINATED slot with a READY record on a newly handed-out block keeps the table invariant, and every live slot still owns a distinct block |
| Process.ProcessTable.SelectNext | process.c:108-121 | the scan loop returns `Select` of the table |
| Process.ProcessTable.Dispatch | process.c:128-152 | demote, promote and the bootstrap-or-switch step end in exactly `ProcessSpec.Resched` |
| Process.ProcessTable.Resched | process.c:98-153 | the new table, pids, flag and appended events are exactly `ProcessSpec.Resched`; the invariant, including stack ownership, is kept |
| Process.ProcessTable.Yield | process.c:155-165 | the new state and events are exactly `ProcessSpec.Yield` |
| Process.ProcessTable.Retire | process.c:168-180 | the slot becomes TERMINATED, its stack block goes back to the heap (and only it leaves the set in use), mem is NULL, currpid and current_pid are cleared |
| Process.ProcessTable.Exit | process.c:168-184 | the new state and events are exactly `ProcessSpec.Exit`, and the heap is the mem_free of the exiting stack |
| Process.ProcessTable.Run | process.c:93-96 | the new state and events are exactly `ProcessSpec.Run` |
| ProcessPrint.PutInt | process.c:19-34 | "0" for zero, the decimal digits (which parse back to the value) for a positive value, nothing for a negative one |
| ProcessPrint.EntryHex | process.c:212-218 | eight upper-case hex digits, most significant first, then NUL; they parse back to the address |
| LegacyProc.ReadyUpToExact | proc.c:39-40 | the slots proc_run runs are exactly the READY ones, once each, in ascending order |
| LegacyProc.NoneReady | proc.c:39-40 | with no READY slot, proc_run enters nothing |
| LegacyProc.RanUpTo | proc.c:38-54 | every READY slot among the first n becomes TERMINATED and every other slot is unchanged; further properties are proved in LegacyProc.NoReadyAfterRun |
| LegacyProc.NoReadyAfterRun | proc.c:38-54 | after proc_run no slot is READY |
| LegacyProc.LegacyTable.Init | proc.c:9-14 | every slot pid -1, TERMINATED, entry 0 |
| LegacyProc.LegacyTable.Create | proc.c:19-36 | -1 with nothing changed once next_pid reaches 100; otherwise pid = next_pid, next_pid + 1, the slot gets pid, READY, entry; the pid was never handed out before |
| LegacyProc.LegacyTable.Run | proc.c:38-54 | each READY slot, in ascending order, is entered with current_pid set to it and state CURRENT, then ends TERMINATED; current_pid ends -1 if anything ran |
| LegacyProc.LegacyTable.Exit | proc.c:56-68 | nothing when current_pid < 0; otherwise that slot becomes TERMINATED and current_pid is -1 |
| Numerals.DigitsRoundTrip | kernel.c:97-100 | the decimal digits of n parse back to n |
| Numerals.DecimalRoundTrip | kernel.c:92-106 | the signed spelling parses back to the value |
| Numerals.DecimalLength | kernel.c:131 | every 32-bit value takes at most 11 characters, so 12-byte buffers hold it with the NUL |
| Numerals.RevDigitsReversed | kernel.c:97-113 | the least-significant-first digits, reversed, are the decimal digits |
| Numerals.RevDecimal | kernel.c:97-113 | the magnitude's digits, least significant first, then '-' for a negative value, reversed, give the signed decimal spelling |
| Numerals.HexAt | process.c:214-216 | `(addr >> 4j) & 0xF` is digit j of the hex spelling |
| Numerals.Hex8RoundTrip | process.c:212-218 | eight hex digits spell any 32-bit address exactly |
| Kernel.WriteRevDigits | kernel.c:97-100 | the digit loop writes the digits least significant first |
| Kernel.ReverseInPlace | kernel.c:109-113 | the swap loop reverses str[0..i) and leaves the rest alone |
| Kernel.WriteRevDecimal | kernel.c:92-104 | for a non-zero value, it writes as many characters as the decimal spelling has, and they are that spelling reversed |
| Kernel.IntToString | kernel.c:82-114 | for any 32-bit value but INT_MIN, str holds its decimal spelling (a '-' exactly when negative, "0" for zero) followed by NUL, in at most 11 characters |
| Kernel.EditedBounded | kernel.c:39-41 | the line never exceeds 127 characters and holds only printable ones (32-126) |
| Kernel.TypeThenErase | kernel.c:34-41 | typing a printable character and then backspace restores the line |
| Kernel.EraseOnEmpty | kernel.c:34 | backspace or DEL on an empty line does nothing |
| Kernel.FullLineIgnores | kernel.c:39 | on a full line every key but an erase key is ignored |
| Kernel.EditKey | kernel.c:33-41 | definition; its properties are proved in Kernel.EditedBounded, Kernel.TypeThenErase, Kernel.EraseOnEmpty and Kernel.FullLineIgnores |
| Kernel.Edited | kernel.c:21-43 | definition; its properties are proved in Kernel.EditedBounded, Kernel.TypeThenErase, Kernel.EraseOnEmpty, Kernel.FullLineIgnores and Kernel.ReadLine |
| Kernel.LineEnd | kernel.c:28 | the line ends at the first CR or LF |
| Kernel.ReadLine | kernel.c:21-43 | after the read loop input[0..pos) is the edited line of the keys before the first CR or LF, pos < 128, and NUL is written at pos |
| Kernel.CString | kernel.c:44 | what strcmp compares: the characters before the first NUL |
| Kernel.Classify | kernel.c:44-68 | definition; its properties are proved in Kernel.ClassifyLine and Kernel.CommandOfKeys |
| Kernel.ClassifyLine | kernel.c:44-68 | the command is an exact match of the whole line against "help", "new", "psa"; any other non-empty line is unknown; an empty line does nothing |
| Kernel.CommandOfKeys | kernel.c:21-68 | the command of a typed line depends only on the edited line: it equals the command of that line followed by NUL, whatever else the buffer holds; it is help exactly for "help" and nothing exactly for an empty line |
| Boot.Setup | kernel.c:148-156 | mem_init, proc_init and proc_create(null_process) give the shell pid 0 and the heap's first stack, at offset 12 |
| Boot.Kmain | kernel.c:146-157 | the only dispatch at start-up is the bootstrap jump into the shell, at the esp proc_create prepared |

## Left out

- Serial output (`serial_puts`, `serial_putc`, echo, prompts, message text, the `proc_list` table layout): an opaque character device. Only the numbers the two printers spell are modelled.
- `serial_getc`: the keys are a parameter of `Kernel.ReadLine`. When the keys run out before CR or LF, the C shell waits; the model returns without writing NUL.
- The bootstrap jump and `ctxsw`: inline machine code, recorded as trace events. Where `ctxsw` is called with old == -1, its store through `&proctab[-1].esp` lands outside the table. The model records `Switch(-1, next)` and writes nothing; `ProcessLemmas.ExitSwitchesFromOutsideTable` shows the path is reached. In C that store is undefined behaviour. The table invariant after the exit of a process other than pid 0 (`ProcessLemmas.ExitKeepsWellFormed` and the `Valid()` of `Process.ProcessTable.Exit`) holds partly because the model treats the store as touching nothing.
- What a dispatched process then executes is not modelled. This includes the two stack words `proc_create` pushes being consumed by `ret`, and the other process's stack pointer that `ctxsw` loads.
- `scheduler.c`: `sched_start` and `sched_yield` are direct calls of `proc_run` and `yield`, modelled by those.
- The demo processes `procA`, `procB` and `userProcess` of kernel.c are not modelled. That includes `userProcess`'s mid-run `proc_init`, which wipes a live table.
- `has_run`: written at process.c:46 and process.c:84, but `pcb_t` (process.h:15-25) has no such field.
- `PROC_MEM_SIZE` (process.c:5): unused.
- `mem` and `memsz` of proc.h's `pcb_t`: proc.c never uses them.
- `itoa`, called in proc.c, is not modelled.
- `proc.c`'s `proc_create` is declared `int*` but returns -1 or a pid; it is modelled as returning an int.
- `hlt` loop of `kmain` and `serial_init`: hardware.
- Process.ProcessTable.Run: requires `first_dispatch`, the only state its sole caller (`sched_start` from `kmain`) invokes it in. From a later state, `proc_run` would set current_pid to -1 while currpid still names a slot; that state is outside the table invariant.
- Process.ProcessTable.Init: requires no current process (`currpid == NULL`), as at its boot call. A mid-run call would drop live stacks without freeing them; only the demo `userProcess` does that.
- Process.ProcessTable.Exit: requires `currpid` to be set; with `currpid == NULL` the C code dereferences NULL.
- Mem.Arena.Free: requires NULL or a pointer to the payload of some block, as mem.c's callers pass. Freeing any other address would corrupt the C list.
- Process.ProcessTable.Create: the shift-free form `(top - top % 16)` stands for `& ~0xF` on the 32-bit address, and the words written through `*--sp` are kept in a map by address rather than in the heap's bytes.
- ProcessPrint.EntryHex: `(addr >> (j * 4)) & 0xF` is written as division and remainder by powers of 16, which agree for unsigned 32-bit values.
- The 15-process limit is proved about the heap: once 15 stack-sized blocks are in use, the next request fails. It is not restated as a property of the table.
