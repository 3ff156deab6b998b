# Weenix process table, modelled in Dafny

This project models the process-table core of the Weenix teaching kernel,
`vfs/kernel/proc/proc.c`. That file owns:

- the global list of live processes (`_proc_list`);
- the PID cursor `next_pid`;
- the globals `proc_initproc` and `curproc`;
- the operations that create processes, clean them up at exit, kill them
  and reap them.

The model is a class, `Process.ProcTable`, whose fields are those globals:

- `table` maps every allocated `proc_t`, identified by its address (`Ref`),
  to its fields. This covers live processes and zombies.
- `procs` is `_proc_list`, in list order.
- `nextPid`, `initProc` and `cur` are `next_pid`, `proc_initproc` and
  `curproc`.
- `nextRef` and `nextPagedir` stand for the slab allocator and for
  `pt_create_pagedir`. Each hands out a value it never handed out before.
- `effects` is the log of calls into other subsystems, in call order:
  - `do_close`, `vref` and `vput` (VFS);
  - `sched_wakeup_on` (scheduler);
  - `kthread_cancel` and `kthread_destroy` (threads);
  - `pt_create_pagedir` and `pt_destroy_pagedir` (page tables).

Each operation of `proc.c` is a method of the class. Every loop of the source
is a loop with invariants:

- the retry scan of `_proc_getid`;
- the `p_files` loops;
- the reparenting loop;
- the thread loops of `proc_kill` and `do_waitpid`;
- the list scans of `proc_lookup`, `proc_kill_all` and `do_waitpid`.

Each method is proved against a specification function on values, and the
source's promises are proved about those functions as lemmas. The predicate
`Valid()` holds the invariants that the methods keep (`TableState.StateOk`):

- parent links and children lists are mutual inverses;
- only idle has no parent;
- zombies are childless, have no cwd and have exited threads;
- `_proc_list` holds exactly the RUNNING records, once each, with idle
  first, and no two of them share a PID, except that several may hold
  -1 (the value of an exhausted `_proc_getid`, see below);
- `proc_initproc`, while its record is allocated, is the PID 1 child of
  idle (once init has been reaped the field keeps a freed address, as in
  the C code);
- file tables have NFILES slots, and a zombie's slots are all NULL.

Modules:

- `Config`: constants and `Option`.
- `PidSpace`: the cyclic first-free PID search.
- `ProcName`: `p_comm` truncation.
- `ProcRecords`: the record, the table invariants, and the pure table
  transitions of create, cleanup, reap and kill selection.
- `ProcEffects`: the effect log.
- `TableState`: the global invariants and their preservation.
- `Process`: the class.

Two details of the code that the model keeps as written:

- `proc_create` (vfs/kernel/proc/proc.c:225) does not check for
  `_proc_getid` failing. When all PIDs are taken, the model creates a
  process with PID -1, as the code does; nothing halts.
- The cwd is inherited only above PID 2 (vfs/kernel/proc/proc.c:267), so
  PID 2 starts without a cwd as well as idle and init. The cwd of idle and
  init is set later, at boot (vm/kernel/main/kmain.c:236-241); that boot
  code is not part of this model.
- `_proc_getid` looks only at `_proc_list`. A zombie's PID can therefore be
  issued again while the zombie still waits in its parent's children list.
  For this reason records are keyed by address, not by PID.

## Model

| member | source | states |
|---|---|---|
| Process.ProcTable.constructor | vfs/kernel/proc/proc.c:47-59 | After proc_init and the static initialisers the table is empty: no process, no curproc, no init, next_pid 0, and the invariants hold. |
| Process.ProcTable.Lookup | vfs/kernel/proc/proc.c:61-71 | Returns NULL exactly when no listed process has the PID. Otherwise it returns a listed process with that PID, and no earlier list entry has it. |
| Process.ProcTable.GetId | vfs/kernel/proc/proc.c:191-210 | Returns the first free PID of the cyclic scan from next_pid, which is -1 or a PID in [0, PROC_MAX_COUNT) that no listed process holds. On success next_pid becomes (pid+1) % PROC_MAX_COUNT; on -1 it is unchanged. |
| PidSpace.FirstFreePidIsFirstFree | vfs/kernel/proc/proc.c:195-208 | A PID is the one issued iff it is free and every PID the scan meets before it is in use. |
| PidSpace.FirstFreePidFailsIffFull | vfs/kernel/proc/proc.c:196-201 | The scan returns -1 iff every PID of the space is in use. |
| PidSpace.IssuedPidIsFree | vfs/kernel/proc/proc.c:198-208 | The issued PID is -1 or in range and unused. |
| PidSpace.ScanFromSound | vfs/kernel/proc/proc.c:196-206 | From any step of the scan, the result is a free PID whose earlier probes are all taken, or -1 when every remaining probe is taken. |
| PidSpace.ScanFromReaches | vfs/kernel/proc/proc.c:196-206 | A free PID whose earlier probes are all taken is what the scan finds. |
| PidSpace.ScanStep | vfs/kernel/proc/proc.c:199-203 | One probe at a used PID moves to (pid+1) % PROC_MAX_COUNT. It returns to next_pid exactly after a full cycle, and the scan's result is unchanged. |
| PidSpace.FirstFreePidOfEmpty | vfs/kernel/proc/proc.c:195-208 | With an empty process list the cursor itself is issued. |
| TableState.IssuedPidFacts | vfs/kernel/proc/proc.c:225-226 | The issued PID is PID_IDLE exactly when _proc_list is empty (the assertion at line 226). |
| Process.ProcTable.Create | vfs/kernel/proc/proc.c:220-275 | Keeps the invariants. The new address is fresh. The table, list, proc_initproc and log make a CreateStep (below) with the PID GetId issues. next_pid advances as GetId says. |
| Process.CreateStepFacts | vfs/kernel/proc/proc.c:225-271 | The new record is RUNNING with status 0, no threads or children, NFILES NULL slots, the truncated name and a new page directory. Its parent is curproc, or none for PID 0. It is appended to _proc_list and to curproc's children; no other record changes. It becomes proc_initproc when its PID is 1; otherwise proc_initproc is unchanged. Above PID 2 it shares curproc's cwd, and a vref is logged. |
| Process.ProcTable.NewRecord | vfs/kernel/proc/proc.c:229-271 | Builds exactly the record proc_create fills in, including the empty file table and the conditional cwd. |
| Process.ProcTable.EmptyFileTable | vfs/kernel/proc/proc.c:262-265 | The loop leaves NFILES slots, all NULL. |
| TableState.CreateKeepsListOk | vfs/kernel/proc/proc.c:225-251 | Appending the new process keeps the list invariants. PID_IDLE is issued only on an empty list. |
| TableState.CreateKeepsStateOk | vfs/kernel/proc/proc.c:220-275 | proc_create keeps every invariant, given that PID_INIT is issued only under idle (the assertion at line 227). |
| ProcRecords.AttachKeepsTableOk | vfs/kernel/proc/proc.c:237-256 | Linking a fresh, childless, running record under its parent keeps the table invariants and adds exactly its key. |
| ProcName.StrLen | vfs/kernel/proc/proc.c:229 | strlen counts the characters before the first NUL. |
| ProcName.CommReadsBack | vfs/kernel/proc/proc.c:229-235 | p_comm read back as a C string is exactly the first min(strlen(name), PROC_NAME_LEN-1) characters of the name. |
| ProcName.CommKeepsShortName | vfs/kernel/proc/proc.c:229-235 | A name that fits is stored whole. |
| ProcName.CommTruncatesLongName | vfs/kernel/proc/proc.c:230-233 | A long name is cut to PROC_NAME_LEN-1 characters, never rejected. |
| Process.ProcTable.Cleanup | vfs/kernel/proc/proc.c:301-339 | Under the entry assertions (init exists, curproc is not idle and has a parent), keeps the invariants. The table, list and log make a CleanupStep (below). |
| Process.CleanupStepFacts | vfs/kernel/proc/proc.c:309-334 | curproc becomes a childless zombie with the given status, every slot NULL and no cwd, and keeps its parent. Unless it is init, its children are appended to init's children and point at init. No other record changes. It leaves _proc_list, and the other entries keep their order. The log holds one do_close per occupied slot in slot order, then vput of the old cwd and the wakeup of the parent. |
| Process.ProcTable.CleanupSteps | vfs/kernel/proc/proc.c:309-332 | The steps of proc_cleanup on values produce exactly a CleanupStep. |
| Process.ProcTable.CloseFiles | vfs/kernel/proc/proc.c:309-315 | The close loop leaves every slot NULL and logs exactly Closes of the old slots. |
| ProcEffects.ClosesExactlyOccupied | vfs/kernel/proc/proc.c:309-315 | Every occupied slot is closed exactly once, with the file it held, in increasing slot order, and nothing else is closed. |
| Process.ProcTable.HandChildrenTo | vfs/kernel/proc/proc.c:321-329 | The reparenting loop yields exactly Reparent. Its invariant is that after i rounds the first i children have moved. |
| ProcRecords.MoveChildrenStep | vfs/kernel/proc/proc.c:322-326 | One round cuts the next child from the head of the exiting process's list, appends it to init's list and sets its parent to init. |
| ProcRecords.ReparentMoves | vfs/kernel/proc/proc.c:321-329 | After the loop the exiting process has no children. init's list is followed by all of them, in order, each pointing at init. Nothing else changes. |
| ProcRecords.ReparentKeepsTableOk | vfs/kernel/proc/proc.c:321-329 | Reparenting onto a running init keeps the table invariants. |
| ProcRecords.CleanupMovesChildren | vfs/kernel/proc/proc.c:316-331 | The table after cleanup, record by record: curproc as a zombie, init with the adopted children, the children repointed, the rest unchanged. |
| ProcRecords.CleanupKeepsIdentity | vfs/kernel/proc/proc.c:316-331 | Cleanup changes no PID, and no file table or state except curproc's, which is DEAD with every slot NULL. |
| ProcRecords.CleanupKeepsParent | vfs/kernel/proc/proc.c:334 | A record that is not a child of the exiting process keeps its parent, curproc included (the assertion at line 334). |
| ProcRecords.CleanupKeepsTableOk | vfs/kernel/proc/proc.c:316-331 | Cleanup keeps the table invariants. |
| ProcRecords.UnlinkExactly | vfs/kernel/proc/proc.c:332 | list_remove on _proc_list removes exactly that entry and keeps the order and distinctness of the rest. |
| TableState.CleanupKeepsStateOk | vfs/kernel/proc/proc.c:304-335 | proc_cleanup keeps every invariant when its entry assertions hold and curproc's threads have exited. |
| Process.ProcTable.ThreadExited | vfs/kernel/proc/proc.c:402-409 | proc_thread_exited is a CleanupStep with curproc's recorded p_status. |
| Process.ProcTable.DoExit | vfs/kernel/proc/proc.c:498-506 | do_exit records the status and marks the threads exited, then makes a CleanupStep with that status. |
| ProcRecords.ExitThreadsKeepsTableOk | vfs/kernel/proc/proc.c:502-504 | Recording the status and exiting the threads keeps the table invariants and leaves every thread exited. |
| Process.ProcTable.Kill | vfs/kernel/proc/proc.c:349-365 | On curproc it is do_exit(status). On any other process the table and list are unchanged, and the log gains one kthread_cancel per thread, in order. |
| Process.ProcTable.CancelThreads | vfs/kernel/proc/proc.c:357-361 | The cancel loop logs one cancellation per thread, in p_threads order. |
| Process.ProcTable.KillAll | vfs/kernel/proc/proc.c:373-392 | Every listed process other than curproc, idle and idle's direct children gets its threads cancelled with -1, in list order. Then curproc is killed (do_exit(-1)) iff it is neither idle nor a child of idle; otherwise nothing else changes. |
| Process.ProcTable.KillOthers | vfs/kernel/proc/proc.c:376-383 | The list loop logs exactly the cancellations of the kill targets, in order. |
| ProcRecords.KillTargetsExactly | vfs/kernel/proc/proc.c:377-381 | A process is a kill target iff it is listed and passes the test at line 378. |
| ProcEffects.CancelAllExactly | vfs/kernel/proc/proc.c:377-381 | Every logged event is a cancellation with -1. A thread id receives a cancellation iff some thread of a kill target has that id. |
| ProcEffects.KillAllStep | vfs/kernel/proc/proc.c:377-381 | One more entry of _proc_list extends the cancellations by that process's threads iff it passes the test. |
| Process.ProcTable.WaitPid | vfs/kernel/proc/proc.c:426-490 | With no children, or with pid > 0 not a child, it returns -ECHILD and nothing changes. If the child sought is not DEAD, it sleeps and nothing changes. Otherwise it returns the PID (the requested one when pid > 0) and status of the chosen child, whose threads and page directory are destroyed and logged, and which is removed from the table and the children list. |
| ProcRecords.WaitChoice | vfs/kernel/proc/proc.c:429-470 | The decision: ECHILD iff there are no children or no child has the PID. Reaping picks the first DEAD child for pid -1, or the first child with the PID. Sleeping happens only when that child is not DEAD. |
| ProcRecords.FirstDead | vfs/kernel/proc/proc.c:440-447 | The index of the first DEAD child in list order, or none when no child is DEAD. |
| ProcRecords.FirstWithPid | vfs/kernel/proc/proc.c:452-459 | The index of the first child with the PID, or none when no child has it. |
| Process.ProcTable.FindDeadChild | vfs/kernel/proc/proc.c:438-447 | The scan of the pid == -1 branch finds FirstDead. |
| Process.ProcTable.FindChildWithPid | vfs/kernel/proc/proc.c:451-464 | The scan of the pid > 0 branch finds FirstWithPid. |
| Process.ProcTable.ReapChild | vfs/kernel/proc/proc.c:476-486 | Destroys each exited thread in order, then the page directory. It leaves exactly ReapTable. |
| ProcRecords.ReapRemovesChild | vfs/kernel/proc/proc.c:485-486 | Reaping removes exactly that child from the caller's children, keeping the others in order. It frees its record and leaves every other record unchanged. |
| ProcRecords.ReapKeepsTableOk | vfs/kernel/proc/proc.c:471-486 | Reaping a DEAD child keeps the table invariants. |
| TableState.ReapKeepsStateOk | vfs/kernel/proc/proc.c:471-486 | Reaping a DEAD child of curproc keeps every invariant. |
| Process.ProcTable.AddThread | vm/kernel/main/kmain.c:200 | kthread_create's effect on the table: one new thread on a live process, invariants kept. |
| Process.ProcTable.Switch | vm/kernel/main/kmain.c:196-204 | Making a live process curproc keeps the invariants. |

## Left out

- I/O and external subsystems. `do_close`, `vref`, `vput`, `sched_wakeup_on`, `kthread_cancel`, `kthread_destroy`, `pt_create_pagedir` and `pt_destroy_pagedir` are entries of the effect log. Their own behaviour is not modelled. For `do_close`, the model takes its contract: the slot becomes NULL.
- Blocking and concurrency. `do_waitpid` is one pass returning `Blocks` where the code sleeps on `p_wait` and rescans. The wakeup interleaving and delivery of cancellations are not modelled.
- Non-returning transfers. `panic`, `sched_switch`, and `kthread_exit` switching away are not modelled. `do_exit` and `proc_kill` on curproc end once the cleanup is done.
- `kthread_exit` is modelled only as marking curproc's threads exited, in the single-threaded build.
- Process.ProcTable.KillAll: the loop calls the non-curproc branch of `proc_kill` (`CancelThreads`) directly. The test at line 378 already excludes curproc there.
- `proc_info` and `proc_list_info`: diagnostic formatting into a buffer.
- Thread identities. `kthread_create` is outside this model: Process.ProcTable.AddThread takes the new thread's id from its caller and does not require it unused, so kill and reap effects identify threads by id only.
- `__MTP__`, `__VM__` and `__GETCWD__` code.
- `config.h` is not part of this model. PROC_MAX_COUNT 65536, PROC_NAME_LEN 256 and NFILES 32 are Weenix's values, given as constants. The value of ECHILD is not needed: the ECHILD outcome of do_waitpid is the `NoChildren` case.
- Memory layout. The slab allocator is a fresh-address counter, and freeing removes the map entry. Intrusive list links are sequences. `p_wait` is the record's identity, and the page directory is a handle.
- Process.ProcTable.Create:
  - it requires curproc to be set once any process exists;
  - an uninitialised `p_cwd` (PID 0 to 2) is modelled as none.
- Process.ProcTable.Cleanup: it requires, on entry, what the function's comment demands and what proc.c only checks on return:
  - init is live when curproc is not init (comment at lines 291-294);
  - init has no children when it exits itself (same comment);
  - curproc's threads have exited. proc.c asserts this for curthr when the function returns (line 335); the model requires it on entry, since the cleanup does not change any thread.
