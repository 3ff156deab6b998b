/**
 * The process table of vfs/kernel/proc/proc.c as an object: the global
 * _proc_list, next_pid, proc_initproc and curproc are fields of one
 * ProcTable, and each function of proc.c is a method that updates them.
 */
module Process {
  import opened Config
  import opened PidSpace
  import opened ProcName
  import opened ProcRecords
  import opened ProcEffects
  import opened TableState

  /** What one call of do_waitpid comes to. */
  datatype WaitOutcome =
    | NoChildren                     // returns -ECHILD
    | Blocks                         // sleeps on curproc->p_wait until a child exits
    | Reaped(pid: int, status: int)  // returns pid and stores the child's exit status

  /**
   * The step proc_cleanup(status) of process `c` takes from table `t`,
   * list `procs` and effect log `e` to `t1`, `procs1` and `e1`: the table
   * transition CleanupTable, c unlinked from _proc_list, and the log
   * extended by the do_close calls, the vput of the cwd and the wakeup of
   * the parent.
   */
  predicate CleanupStep(t: map<Ref, Proc>, procs: seq<Ref>, e: seq<Effect>, c: Ref, init: Ref, status: int,
                        t1: map<Ref, Proc>, procs1: seq<Ref>, e1: seq<Effect>)
  {
    && c in t && init in t && t[c].parent.Some? && c in procs
    && t1 == CleanupTable(t, c, init, status)
    && procs1 == Unlink(procs, c)
    && e1 == e + Closes(c, t[c].files) + [VnodePut(t[c].cwd), WokeUp(t[c].parent.value)]
  }

  /** The record proc_create(name) builds for PID `pid` under curproc `cur`, with page directory `pd`. */
  function NewProc(t: map<Ref, Proc>, cur: Option<Ref>, pid: int, name: seq<char>, pd: PageDir): Proc
    requires pid > 2 ==> cur.Some? && cur.value in t
  {
    Proc(pid, Comm(name), if pid != PID_IDLE then cur else None, [], [], Running, 0, NoFiles(),
         if pid > 2 then t[cur.value].cwd else None, pd)
  }

  /**
   * The step proc_create(name) takes when it issues PID `pid` and address
   * `r`: the new record is linked under its parent, appended to
   * _proc_list, recorded as proc_initproc when its PID is PID_INIT, and
   * the log gains the new page directory and, above PID 2, the vref of the
   * inherited cwd.
   */
  predicate CreateStep(t: map<Ref, Proc>, procs: seq<Ref>, init: Option<Ref>, cur: Option<Ref>, pd: PageDir,
                       e: seq<Effect>, name: seq<char>, r: Ref, pid: int,
                       t1: map<Ref, Proc>, procs1: seq<Ref>, init1: Option<Ref>, e1: seq<Effect>)
  {
    && (pid != PID_IDLE ==> cur.Some? && cur.value in t)
    && var rec := NewProc(t, cur, pid, name, pd);
    && t1 == Attach(t, r, rec, rec.parent)
    && procs1 == procs + [r]
    && init1 == (if pid == PID_INIT then Some(r) else init)
    && e1 == e + [PagedirCreated(pd)] + (if pid > 2 then [VnodeRef(rec.cwd)] else [])
  }

  /**
   * What a CreateStep means for the new record, the rest of the table, the
   * list, proc_initproc and the log: a RUNNING record with status 0, no
   * threads or children and NFILES NULL slots, whose parent is curproc (none
   * for idle); it is the last entry of _proc_list and the last child of
   * curproc; no other record changes; above PID 2 it shares curproc's cwd,
   * which gains a reference.
   */
  lemma CreateStepFacts(t: map<Ref, Proc>, procs: seq<Ref>, init: Option<Ref>, cur: Option<Ref>, pd: PageDir,
                        e: seq<Effect>, name: seq<char>, r: Ref, pid: int,
                        t1: map<Ref, Proc>, procs1: seq<Ref>, init1: Option<Ref>, e1: seq<Effect>)
    requires r !in t
    requires CreateStep(t, procs, init, cur, pd, e, name, r, pid, t1, procs1, init1, e1)
    ensures t1.Keys == t.Keys + {r}
    ensures t1[r].pid == pid && t1[r].state == Running && t1[r].status == 0 && t1[r].pagedir == pd
    ensures t1[r].threads == [] && t1[r].children == []
    ensures |t1[r].files| == NFILES && forall i :: 0 <= i < NFILES ==> t1[r].files[i].None?
    ensures StrLen(t1[r].comm) == CommLen(name) && t1[r].comm[..CommLen(name)] == name[..CommLen(name)]
    ensures pid == PID_IDLE ==> t1[r].parent.None? && forall q :: q in t ==> t1[q] == t[q]
    ensures pid != PID_IDLE ==>
      && t1[r].parent == cur
      && t1[cur.value] == t[cur.value].(children := t[cur.value].children + [r])
      && forall q :: q in t && q != cur.value ==> t1[q] == t[q]
    ensures |procs1| == |procs| + 1 && procs1[..|procs|] == procs && procs1[|procs|] == r
    ensures pid == PID_INIT ==> init1 == Some(r)
    ensures pid != PID_INIT ==> init1 == init
    ensures pid > 2 ==> t1[r].cwd == t[cur.value].cwd && e1 == e + [PagedirCreated(pd), VnodeRef(t[cur.value].cwd)]
    ensures pid <= 2 ==> t1[r].cwd.None? && e1 == e + [PagedirCreated(pd)]
  {
    CommReadsBack(name);
    assert (procs + [r])[..|procs|] == procs;
  }

  /**
   * What a CleanupStep means in a consistent table: curproc becomes a
   * childless zombie with the given status, no open file and no cwd, and
   * keeps its parent; its former children (unless it is init) are appended
   * to init's children and point at init; no other record changes; it leaves
   * _proc_list, whose other entries keep their order (the
   * entries before it stay put and those after it move up by one); and the log gains one
   * do_close per occupied slot, in slot order, then the vput of the old cwd
   * and the wakeup of the parent.
   */
  lemma CleanupStepFacts(t: map<Ref, Proc>, procs: seq<Ref>, e: seq<Effect>, c: Ref, init: Ref, status: int,
                         t1: map<Ref, Proc>, procs1: seq<Ref>, e1: seq<Effect>)
    requires FamilyOk(t) && forall a, b :: 0 <= a < b < |procs| ==> procs[a] != procs[b]
    requires CleanupStep(t, procs, e, c, init, status, t1, procs1, e1)
    requires c == init ==> t[c].children == []
    requires c != init ==> t[init].parent != Some(c)
    ensures t1.Keys == t.Keys
    ensures t1[c] == t[c].(children := [], status := status, state := Dead, files := NoFiles(), cwd := None)
    ensures c != init ==>
      && t1[init] == t[init].(children := t[init].children + t[c].children)
      && forall q :: q in t[c].children ==> q in t && t1[q] == t[q].(parent := Some(init))
    ensures forall q :: q in t && q != c && q != init && q !in t[c].children ==> t1[q] == t[q]
    ensures |procs1| == |procs| - 1 && forall q :: q in procs1 <==> q in procs && q != c
    ensures procs[IndexOf(procs, c)] == c
    ensures forall j :: 0 <= j < |procs1| ==> procs1[j] == (if j < IndexOf(procs, c) then procs[j] else procs[j + 1])
    ensures exists cs :: ClosesExactly(c, t[c].files, cs) && e1 == e + cs + [VnodePut(t[c].cwd), WokeUp(t[c].parent.value)]
  {
    CleanupMovesChildren(t, c, init, status);
    UnlinkExactly(procs, c);
    ClosesExactlyOccupied(c, t[c].files);
    var cs := Closes(c, t[c].files);
    assert ClosesExactly(c, t[c].files, cs) && e1 == e + cs + [VnodePut(t[c].cwd), WokeUp(t[c].parent.value)];
  }

  class ProcTable {
    /** Every allocated proc_t, live or zombie, by address. */
    var table: map<Ref, Proc>
    /** _proc_list: the live processes, in creation order. */
    var procs: seq<Ref>
    /** next_pid: where _proc_getid starts its search. */
    var nextPid: int
    /** proc_initproc. */
    var initProc: Option<Ref>
    /** curproc. */
    var cur: Option<Ref>
    /** The next address slab_obj_alloc hands out; it was never handed out before. */
    var nextRef: nat
    /** The next page directory pt_create_pagedir hands out. */
    var nextPagedir: nat
    /** The calls made so far into the VFS, the scheduler, the thread layer and the page tables. */
    var effects: seq<Effect>

    /** The invariants of TableState on the fields. */
    ghost predicate Valid()
      reads this
    {
      StateOk(table, procs, initProc, cur, nextPid, nextRef)
    }

    /** The PID the next _proc_getid returns. */
    ghost function PidToIssue(): int
      reads this
      requires forall r :: r in procs ==> r in table
      requires 0 <= nextPid < PROC_MAX_COUNT
    {
      FirstFreePid(LivePids(table, procs), nextPid)
    }

    /** curproc is set and on _proc_list. */
    ghost predicate CurrentLive()
      reads this
    {
      cur.Some? && cur.value in table && cur.value in procs
    }

    /**
     * What proc_cleanup asserts on entry (init exists, curproc is not idle)
     * and what its comment demands: init has no children left when it exits
     * itself, and otherwise init is alive to adopt the orphans.
     */
    ghost predicate CleanupPre()
      reads this
    {
      && CurrentLive()
      && initProc.Some? && initProc.value in table
      && 1 <= table[cur.value].pid
      && (cur == initProc ==> table[cur.value].children == [])
      && (cur != initProc ==> initProc.value in procs)
    }

    /** proc_init, with the globals' static initialisers: no process, no curproc, no init, next_pid 0. */
    constructor ()
      ensures Valid()
      ensures table == map[] && procs == [] && nextPid == PID_IDLE
      ensures initProc == None && cur == None && effects == []
    {
      table := map[];
      procs := [];
      nextPid := PID_IDLE;
      initProc := None;
      cur := None;
      nextRef := 0;
      nextPagedir := 0;
      effects := [];
    }

    /** proc_lookup: the first process on _proc_list with the given PID, if any. */
    method Lookup(pid: int) returns (p: Option<Ref>)
      requires forall r :: r in procs ==> r in table
      ensures p.None? <==> pid !in LivePids(table, procs)
      ensures p.Some? ==> p.value in procs && table[p.value].pid == pid
      ensures p.Some? ==>
        exists i :: 0 <= i < |procs| && procs[i] == p.value && forall j :: 0 <= j < i ==> table[procs[j]].pid != pid
    {
      var i := 0;
      while i < |procs|
        invariant 0 <= i <= |procs|
        invariant forall j :: 0 <= j < i ==> table[procs[j]].pid != pid
      {
        if table[procs[i]].pid == pid {
          return Some(procs[i]);
        }
        i := i + 1;
      }
      return None;
    }

    /**
     * _proc_getid: starting at next_pid, look for a PID no live process
     * holds, stepping cyclically; -1 once every PID is taken.
     */
    method GetId() returns (pid: int)
      requires forall r :: r in procs ==> r in table
      requires 0 <= nextPid < PROC_MAX_COUNT
      modifies this`nextPid
      ensures pid == FirstFreePid(LivePids(table, procs), old(nextPid))
      ensures pid == -1 || (0 <= pid < PROC_MAX_COUNT && pid !in LivePids(table, procs))
      ensures pid == -1 ==> nextPid == old(nextPid)
      ensures pid != -1 ==> nextPid == NextPid(pid)
      ensures 0 <= nextPid < PROC_MAX_COUNT
    {
      ghost var used := LivePids(table, procs);
      ghost var k := 0;
      var start := nextPid;
      pid := start;
      while true
        invariant nextPid == start == old(nextPid)
        invariant 0 <= k < PROC_MAX_COUNT && pid == Cyclic(start, k)
        invariant ScanFrom(used, start, k) == FirstFreePid(used, start)
        decreases PROC_MAX_COUNT - k
      {
        var p := Lookup(pid);
        if p.None? {
          nextPid := NextPid(pid);
          return;
        }
        ScanStep(used, start, k);
        pid := (pid + 1) % PROC_MAX_COUNT;
        k := k + 1;
        if pid == start {
          return -1;
        }
      }
    }

    /** The loop of proc_create that sets each of the NFILES slots of a new file table to NULL. */
    static method EmptyFileTable() returns (files: seq<Option<FileRef>>)
      ensures files == NoFiles()
    {
      files := [];
      for i := 0 to NFILES
        invariant |files| == i && forall j :: 0 <= j < i ==> files[j].None?
      {
        files := files + [None];
      }
    }

    /**
     * proc_create(name): a fresh RUNNING record with the next PID, the name
     * cut to PROC_NAME_LEN - 1 characters, no threads or children, status
     * 0, a new page directory and an empty file table; appended to
     * _proc_list and to curproc's children; recorded as proc_initproc when
     * its PID is PID_INIT; inheriting curproc's cwd, with a vref, when its
     * PID is above 2.
     */
    method Create(name: seq<char>) returns (r: Ref)
      requires Valid()
      requires cur.Some? || procs == []
      requires cur.Some? ==> cur.value in procs
      requires PidToIssue() == PID_INIT ==> cur.Some? && table[cur.value].pid == PID_IDLE
      modifies this
      ensures Valid()
      ensures r == old(nextRef) && r !in old(table)
      ensures CreateStep(old(table), old(procs), old(initProc), old(cur), old(nextPagedir), old(effects), name, r,
                         old(PidToIssue()), table, procs, initProc, effects)
      ensures cur == old(cur) && nextRef == old(nextRef) + 1 && nextPagedir == old(nextPagedir) + 1
      ensures old(PidToIssue()) == -1 ==> nextPid == old(nextPid)
      ensures old(PidToIssue()) != -1 ==> nextPid == NextPid(old(PidToIssue()))
    {
      var t, ps, c, init, pd, e := table, procs, cur, initProc, nextPagedir, effects;
      ghost var np0 := nextPid;
      r := nextRef;  // slab_obj_alloc
      var pid := GetId();
      IssuedPidFacts(t, ps, np0);
      var rec := NewRecord(t, c, pid, name, pd);
      CreateKeepsStateOk(t, ps, init, c, np0, r, rec, nextPid);
      Install(Attach(t, r, rec, rec.parent), ps + [r], if pid == PID_INIT then Some(r) else init, r + 1, pd + 1,
              e + [PagedirCreated(pd)] + if pid > 2 then [VnodeRef(rec.cwd)] else []);  // vref(p->p_cwd)
    }

    /**
     * The record proc_create fills in: the PID, the name, the parent, empty
     * thread and child lists, RUNNING, status 0, a file table of NULL
     * slots, the cwd of curproc above PID 2 and the new page directory.
     */
    static method NewRecord(t: map<Ref, Proc>, c: Option<Ref>, pid: int, name: seq<char>, pd: PageDir) returns (rec: Proc)
      requires pid > 2 ==> c.Some? && c.value in t
      ensures rec == NewProc(t, c, pid, name, pd)
    {
      var parent := if pid != PID_IDLE then c else None;
      var files := EmptyFileTable();
      var cwd: Option<Vnode> := None;
      if pid > 2 {
        cwd := t[c.value].cwd;
      }
      rec := Proc(pid, Comm(name), parent, [], [], Running, 0, files, cwd, pd);
    }

    /** Writes every field but curproc and next_pid at once. */
    method Install(t: map<Ref, Proc>, ps: seq<Ref>, init: Option<Ref>, nr: nat, npd: nat, es: seq<Effect>)
      modifies this`table, this`procs, this`initProc, this`nextRef, this`nextPagedir, this`effects
      ensures table == t && procs == ps && initProc == init && nextRef == nr && nextPagedir == npd && effects == es
      ensures cur == old(cur) && nextPid == old(nextPid)
    {
      table, procs, initProc, nextRef, nextPagedir, effects := t, ps, init, nr, npd, es;
    }

    /** kthread_create's part in the table: a new thread joins the p_threads of a live process. */
    method AddThread(r: Ref, tid: Tid)
      requires Valid() && r in procs
      modifies this`table
      ensures Valid()
      ensures table == old(table)[r := old(table)[r].(threads := old(table)[r].threads + [KThread(tid, KtNoState)])]
    {
      AddThreadKeepsStateOk(table, procs, initProc, cur, nextPid, nextRef, r, KThread(tid, KtNoState));
      table := table[r := table[r].(threads := table[r].threads + [KThread(tid, KtNoState)])];
    }

    /** The scheduler switching to a live process makes it curproc. */
    method Switch(r: Ref)
      requires Valid() && r in procs
      modifies this`cur
      ensures Valid() && cur == Some(r)
    {
      cur := Some(r);
    }

    /**
     * proc_cleanup(status): close every open file, drop the cwd, wake the
     * parent, hand the children to init (unless curproc is init), record the
     * status, become DEAD and leave _proc_list.
     */
    method Cleanup(status: int)
      requires Valid() && CleanupPre() && AllExited(table[cur.value].threads)
      modifies this`table, this`procs, this`effects
      ensures Valid()
      ensures CleanupStep(old(table), old(procs), old(effects), old(cur).value, old(initProc).value, status,
                          table, procs, effects)
    {
      var u, ps, es := CleanupSteps(table, procs, initProc, cur, nextPid, nextRef, effects, status);
      CleanupKeepsStateOk(table, procs, initProc, cur, nextPid, nextRef, status, u, ps);
      Store(u, ps, es);
    }

    /** Writes a new table, _proc_list and effect log at once; the other fields keep their values. */
    method Store(u: map<Ref, Proc>, ps: seq<Ref>, es: seq<Effect>)
      modifies this`table, this`procs, this`effects
      ensures table == u && procs == ps && effects == es
      ensures initProc == old(initProc) && cur == old(cur) && nextPid == old(nextPid) && nextRef == old(nextRef)
      ensures nextPagedir == old(nextPagedir)
    {
      table, procs, effects := u, ps, es;
    }

    /**
     * The steps of proc_cleanup on the table, _proc_list and the effect
     * log, given as values: the file table is closed, the cwd dropped, the
     * parent woken, the children handed to init, the status recorded and
     * curproc unlinked.
     */
    static method CleanupSteps(t: map<Ref, Proc>, procs: seq<Ref>, init: Option<Ref>, cur: Option<Ref>,
                               nextPid: int, nextRef: nat, e: seq<Effect>, status: int)
        returns (u: map<Ref, Proc>, ps: seq<Ref>, es: seq<Effect>)
      requires StateOk(t, procs, init, cur, nextPid, nextRef)
      requires cur.Some? && cur.value in procs && init.Some? && init.value in t
      requires 1 <= t[cur.value].pid && AllExited(t[cur.value].threads)
      requires cur == init ==> t[cur.value].children == []
      requires cur != init ==> init.value in procs
      ensures CleanupStep(t, procs, e, cur.value, init.value, status, u, ps, es)
    {
      var c := cur.value;
      var files, closes := CloseFiles(c, t[c].files);
      u := t[c := t[c].(files := files, cwd := None)];  // vput(curproc->p_cwd)
      if c != init.value {
        ReleaseKeepsTableOk(t, c);
        u := HandChildrenTo(u, c, init.value);
      }
      u, ps := u[c := u[c].(status := status, state := Dead)], Unlink(procs, c);
      es := e + closes + [VnodePut(t[c].cwd), WokeUp(t[c].parent.value)];  // sched_wakeup_on(&p_pproc->p_wait)
    }

    /** The loop of proc_cleanup over the NFILES slots of process c: do_close on each open file, leaving every slot NULL. */
    static method CloseFiles(c: Ref, slots: seq<Option<FileRef>>) returns (files: seq<Option<FileRef>>, es: seq<Effect>)
      requires |slots| == NFILES
      ensures files == NoFiles()
      ensures es == Closes(c, slots)
    {
      files, es := slots, [];
      for i := 0 to NFILES
        invariant |files| == NFILES
        invariant forall j :: 0 <= j < i ==> files[j].None?
        invariant forall j :: i <= j < NFILES ==> files[j] == slots[j]
        invariant es == Closes(c, slots[..i])
      {
        assert slots[..i + 1][..i] == slots[..i];
        if files[i].Some? {
          es := es + [FileClosed(c, i, files[i].value)];  // do_close(i)
          files := files[i := None];
        }
      }
      assert slots[..NFILES] == slots;
    }

    /** The loop of proc_cleanup that moves every child of `from` onto the children list of `to` and points it at `to`. */
    static method HandChildrenTo(t: map<Ref, Proc>, from: Ref, to: Ref) returns (u: map<Ref, Proc>)
      requires FamilyOk(t) && from in t && to in t && from != to && t[to].parent != Some(from)
      ensures u == Reparent(t, from, to)
    {
      var kids := t[from].children;
      u := t;
      MoveNoChildren(t, from, to);
      var i := 0;
      while i < |kids|
        invariant 0 <= i <= |kids|
        invariant u == MoveChildren(t, from, to, i)
      {
        MoveChildrenStep(t, from, to, i);
        var ch := kids[i];
        u := u[from := u[from].(children := u[from].children[1..])];
        u := u[to := u[to].(children := u[to].children + [ch])];
        u := u[ch := u[ch].(parent := Some(to))];
        i := i + 1;
      }
    }

    /** proc_thread_exited: the last thread of curproc has exited, so the process is cleaned up with its recorded status. */
    method ThreadExited()
      requires Valid() && CleanupPre() && AllExited(table[cur.value].threads)
      modifies this`table, this`procs, this`effects
      ensures Valid()
      ensures CleanupStep(old(table), old(procs), old(effects), old(cur).value, old(initProc).value,
                          old(table)[old(cur).value].status, table, procs, effects)
    {
      Cleanup(table[cur.value].status);
    }

    /** do_exit(status): record the status, let kthread_exit mark curthr exited, and clean up. */
    method DoExit(status: int)
      requires Valid() && CleanupPre()
      modifies this`table, this`procs, this`effects
      ensures Valid()
      ensures CleanupStep(ExitThreads(old(table), old(cur).value, status), old(procs), old(effects), old(cur).value,
                          old(initProc).value, status, table, procs, effects)
    {
      var c := cur.value;
      ExitThreadsKeepsStateOk(table, procs, initProc, cur, nextPid, nextRef, c, status);
      ExitThreadsKeepsTableOk(table, c, status);
      table := ExitThreads(table, c, status);  // curproc->p_status = status; kthread_exit
      ThreadExited();
    }

    /**
     * proc_kill(p, status): on curproc it is do_exit(status); on any other
     * process every thread of p is cancelled with status, and the table
     * itself does not change.
     */
    method Kill(p: Ref, status: int)
      requires Valid() && CurrentLive() && p in table
      requires Some(p) == cur ==> CleanupPre()
      modifies this`table, this`procs, this`effects
      ensures Valid()
      ensures Some(p) != old(cur) ==>
        table == old(table) && procs == old(procs) && effects == old(effects) + Cancels(table[p].threads, status)
      ensures Some(p) == old(cur) ==>
        CleanupStep(ExitThreads(old(table), p, status), old(procs), old(effects), p, old(initProc).value, status,
                    table, procs, effects)
    {
      if Some(p) == cur {
        DoExit(status);
      } else {
        effects := CancelThreads(table[p].threads, status, effects);
      }
    }

    /** The loop of proc_kill over the threads of a process other than curproc: kthread_cancel on each, in p_threads order. */
    static method CancelThreads(ts: seq<KThread>, status: int, e: seq<Effect>) returns (es: seq<Effect>)
      ensures es == e + Cancels(ts, status)
    {
      es := e;
      for i := 0 to |ts|
        invariant es == e + Cancels(ts[..i], status)
      {
        assert ts[..i + 1][..i] == ts[..i];
        es := es + [Cancelled(ts[i].tid, status)];  // kthread_cancel(thr, status)
      }
      assert ts[..|ts|] == ts;
    }

    /**
     * proc_kill_all: proc_kill(p, -1) for every process on _proc_list other
     * than curproc, idle and the direct children of idle; then curproc
     * itself, unless it is idle or a direct child of idle.
     */
    method KillAll()
      requires Valid() && CurrentLive()
      requires KillsSelf(table, cur.value) ==> CleanupPre()
      modifies this`table, this`procs, this`effects
      ensures Valid()
      ensures var c := old(cur).value;
        var cancels := CancelAll(old(table), KillTargets(old(table), old(cur), old(procs)), -1);
        && (!KillsSelf(old(table), c) ==>
              table == old(table) && procs == old(procs) && effects == old(effects) + cancels)
        && (KillsSelf(old(table), c) ==>
              CleanupStep(ExitThreads(old(table), c, -1), old(procs), old(effects) + cancels, c, old(initProc).value, -1,
                          table, procs, effects))
    {
      var c := cur.value;
      effects := KillOthers(table, cur, procs, effects);
      if table[c].pid != PID_IDLE && table[table[c].parent.value].pid != PID_IDLE {
        Kill(c, -1);
      }
    }

    /**
     * The loop of proc_kill_all over _proc_list: each process that passes
     * its test gets proc_kill(p, -1), that is, for a process other than
     * curproc, a kthread_cancel of each of its threads.
     */
    static method KillOthers(t: map<Ref, Proc>, cur: Option<Ref>, ps: seq<Ref>, e: seq<Effect>) returns (es: seq<Effect>)
      requires forall j :: 0 <= j < |ps| ==> Linked(t, ps[j])
      ensures es == e + CancelAll(t, KillTargets(t, cur, ps), -1)
    {
      var cs := [];
      for i := 0 to |ps|
        invariant cs == CancelAll(t, KillTargets(t, cur, ps[..i]), -1)
      {
        var p := ps[i];
        KillAllStep(t, cur, ps, i, -1);
        if Some(p) != cur && t[p].pid != PID_IDLE && t[t[p].parent.value].pid != PID_IDLE {
          cs := CancelThreads(t[p].threads, -1, cs);  // proc_kill(p, -1)
        }
      }
      assert ps[..|ps|] == ps;
      es := e + cs;
    }

    /** The first DEAD process on curproc's children list, by index. */
    method FindDeadChild() returns (k: Option<nat>)
      requires Valid() && CurrentLive()
      ensures k == FirstDead(table, table[cur.value].children)
    {
      var kids := table[cur.value].children;
      var i := 0;
      while i < |kids|
        invariant 0 <= i <= |kids|
        invariant forall j :: 0 <= j < i ==> table[kids[j]].state != Dead
      {
        if table[kids[i]].state == Dead {
          return Some(i);
        }
        i := i + 1;
      }
      return None;
    }

    /** The first process on curproc's children list with the given PID, by index. */
    method FindChildWithPid(pid: int) returns (k: Option<nat>)
      requires Valid() && CurrentLive()
      ensures k == FirstWithPid(table, table[cur.value].children, pid)
    {
      var kids := table[cur.value].children;
      var i := 0;
      while i < |kids|
        invariant 0 <= i <= |kids|
        invariant forall j :: 0 <= j < i ==> table[kids[j]].pid != pid
      {
        if table[kids[i]].pid == pid {
          return Some(i);
        }
        i := i + 1;
      }
      return None;
    }

    /**
     * do_waitpid(pid, options, &status), one pass: -ECHILD when curproc has
     * no children or, for pid > 0, no child with that PID; a sleep on
     * p_wait when the child sought is not yet DEAD; otherwise the child's
     * threads and page directory are destroyed, it is unlinked from the
     * children list and freed, and its PID and status are returned.
     */
    method WaitPid(pid: int, options: int) returns (w: WaitOutcome)
      requires Valid() && CurrentLive()
      requires (pid > 0 || pid == -1) && options == 0
      modifies this`table, this`procs, this`effects
      ensures Valid() && procs == old(procs)
      ensures w.Reaped? && pid != -1 ==> w.pid == pid
      ensures var c := old(cur).value; var kids := old(table)[c].children;
        match WaitChoice(old(table), kids, pid)
        case NoChild => w == NoChildren && table == old(table) && effects == old(effects)
        case Sleep => w == Blocks && table == old(table) && effects == old(effects)
        case ReapAt(k) =>
          var z := old(table)[kids[k]];
          && w == Reaped(z.pid, z.status)
          && table == ReapTable(old(table), c, k)
          && effects == old(effects) + Destroys(z.threads) + [PagedirDestroyed(z.pagedir)]
    {
      var c := cur.value;
      var kids := table[c].children;
      if |kids| == 0 {
        return NoChildren;
      }
      var k: nat;
      if pid == -1 {
        var d := FindDeadChild();
        if d.None? {
          return Blocks;
        }
        k := d.value;
      } else {
        var f := FindChildWithPid(pid);
        if f.None? {
          return NoChildren;
        }
        k := f.value;
        if table[kids[k]].state != Dead {
          return Blocks;
        }
      }
      var z := table[kids[k]];
      assert -1 == pid || z.pid == pid;
      var u, es := ReapChild(table, c, k, effects);
      ReapKeepsStateOk(table, procs, initProc, cur, nextPid, nextRef, k);
      Store(u, procs, es);
      w := Reaped(z.pid, z.status);
    }

    /**
     * The reaping half of do_waitpid for entry k of the children of `c`:
     * kthread_destroy on each thread of the DEAD child, then
     * pt_destroy_pagedir, list_remove and slab_obj_free.
     */
    static method ReapChild(t: map<Ref, Proc>, c: Ref, k: nat, e: seq<Effect>) returns (u: map<Ref, Proc>, es: seq<Effect>)
      requires c in t && k < |t[c].children| && t[c].children[k] in t
      requires AllExited(t[t[c].children[k]].threads)
      ensures u == ReapTable(t, c, k)
      ensures es == e + Destroys(t[t[c].children[k]].threads) + [PagedirDestroyed(t[t[c].children[k]].pagedir)]
    {
      var z := t[t[c].children[k]];
      es := e;
      for j := 0 to |z.threads|
        invariant es == e + Destroys(z.threads[..j])
      {
        assert z.threads[..j + 1][..j] == z.threads[..j];
        assert z.threads[j].state == KtExited;
        es := es + [ThreadDestroyed(z.threads[j].tid)];  // kthread_destroy(thr)
      }
      assert z.threads[..|z.threads|] == z.threads;
      es := es + [PagedirDestroyed(z.pagedir)];  // pt_destroy_pagedir(p->p_pagedir)
      u := ReapTable(t, c, k);  // list_remove(&p->p_child_link); slab_obj_free(proc_allocator, p)
    }
  }
}
