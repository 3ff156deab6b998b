/**
 * The invariants the globals of vfs/kernel/proc/proc.c keep together (the
 * allocated records, _proc_list, proc_initproc, curproc, next_pid and the
 * allocator), stated on values, and the proofs that each operation of
 * proc.c keeps them.
 */
module TableState {
  import opened Config
  import opened PidSpace
  import opened ProcRecords

  /**
   * The PID of record `r` of `t`. The uniqueness of live PIDs below is
   * stated on this name, so that it is instantiated only where a proof asks
   * about two PIDs by it.
   */
  function PidOf(t: map<Ref, Proc>, r: Ref): int
    requires r in t
  {
    t[r].pid
  }

  /** Entry `i` of _proc_list; like PidOf, the name the no-repeats invariant is stated on. */
  function ListEntry(procs: seq<Ref>, i: int): Ref
    requires 0 <= i < |procs|
  {
    procs[i]
  }

  /**
   * _proc_list holds exactly the RUNNING records, once each, idle first, and
   * no two live processes share a PID (an exhausted _proc_getid's -1 aside).
   */
  predicate ListOk(t: map<Ref, Proc>, procs: seq<Ref>)
  {
    && (forall r :: r in procs ==> r in t)
    && (forall i, j {:trigger ListEntry(procs, i), ListEntry(procs, j)} ::
          0 <= i < j < |procs| ==> ListEntry(procs, i) != ListEntry(procs, j))
    && (forall r :: r in t ==> (t[r].state == Running <==> r in procs))
    && (forall a, b {:trigger PidOf(t, a), PidOf(t, b)} ::
          a in procs && b in procs && a != b && 0 <= PidOf(t, a) ==> PidOf(t, a) != PidOf(t, b))
    && (procs == [] ==> t == map[])
    && (procs != [] ==> t[procs[0]].pid == PID_IDLE)
  }

  /** proc_initproc, while allocated, has PID_INIT and is a child of idle. */
  predicate InitOk(t: map<Ref, Proc>, initProc: Option<Ref>)
  {
    initProc.Some? && initProc.value in t ==>
      var ip := t[initProc.value];
      ip.pid == PID_INIT && ip.parent.Some? && ip.parent.value in t && t[ip.parent.value].pid == PID_IDLE
  }

  /** The PIDs of the processes on _proc_list. */
  function LivePids(t: map<Ref, Proc>, procs: seq<Ref>): set<int>
    requires forall r :: r in procs ==> r in t
  {
    set r | r in procs :: t[r].pid
  }

  /** Everything the globals of proc.c keep together. */
  predicate StateOk(t: map<Ref, Proc>, procs: seq<Ref>, initProc: Option<Ref>, cur: Option<Ref>,
                    nextPid: int, nextRef: nat)
  {
    && TableOk(t)
    && ListOk(t, procs)
    && InitOk(t, initProc)
    && 0 <= nextPid < PROC_MAX_COUNT
    && (procs == [] ==> nextPid == PID_IDLE)
    && (forall r :: r in t ==> r < nextRef)
    && (initProc.Some? ==> initProc.value < nextRef)
    && (cur.Some? ==> cur.value in t)
    && FilesOk(t)
  }

  /** Every record has an NFILES-slot file table, and a zombie's slots are all NULL. */
  predicate FilesOk(t: map<Ref, Proc>)
  {
    forall r :: r in t ==> |t[r].files| == NFILES && (t[r].state == Dead ==> t[r].files == NoFiles())
  }

  /**
   * proc_create keeps the list invariants: the issued PID is PID_IDLE only
   * on an empty list (the assertion at proc.c:226) and otherwise is held by
   * no listed process.
   */
  lemma CreateKeepsListOk(t: map<Ref, Proc>, procs: seq<Ref>, nextPid: int, r: Ref, rec: Proc, link: Option<Ref>)
    requires ListOk(t, procs) && r !in t && (link.Some? ==> link.value in t)
    requires 0 <= nextPid < PROC_MAX_COUNT && (procs == [] ==> nextPid == PID_IDLE)
    requires rec.pid == FirstFreePid(LivePids(t, procs), nextPid) && rec.state == Running
    ensures rec.pid == PID_IDLE ==> procs == []
    ensures ListOk(Attach(t, r, rec, link), procs + [r])
  {
    IssuedPidFacts(t, procs, nextPid);
    IssuedPidIsFree(LivePids(t, procs), nextPid);
    var u := Attach(t, r, rec, link);
    assert u.Keys == t.Keys + {r} && u[r] == rec;
    assert forall q :: q in t ==> u[q].pid == t[q].pid && u[q].state == t[q].state;
    AppendKeepsListOk(t, u, procs, r);
  }

  /** The PID _proc_getid issues is PID_IDLE exactly when the list is empty. */
  lemma IssuedPidFacts(t: map<Ref, Proc>, procs: seq<Ref>, nextPid: int)
    requires ListOk(t, procs)
    requires 0 <= nextPid < PROC_MAX_COUNT && (procs == [] ==> nextPid == PID_IDLE)
    ensures var p := FirstFreePid(LivePids(t, procs), nextPid);
      p == PID_IDLE <==> procs == []
  {
    var used := LivePids(t, procs);
    IssuedPidIsFree(used, nextPid);
    if procs == [] {
      assert used == {};
      FirstFreePidOfEmpty(nextPid);
    } else {
      assert t[procs[0]].pid in used;
    }
  }

  /** Appending a fresh RUNNING record whose PID is -1 or unused to the list keeps the list invariants. */
  lemma AppendKeepsListOk(t: map<Ref, Proc>, u: map<Ref, Proc>, procs: seq<Ref>, r: Ref)
    requires ListOk(t, procs) && r !in t && u.Keys == t.Keys + {r}
    requires forall q :: q in t ==> u[q].pid == t[q].pid && u[q].state == t[q].state
    requires u[r].state == Running
    requires u[r].pid == -1 || u[r].pid !in LivePids(t, procs)
    requires procs == [] ==> u[r].pid == PID_IDLE
    ensures ListOk(u, procs + [r])
  {
    var ps := procs + [r];
    assert forall q :: q in ps <==> q in procs || q == r;
    forall a, b | a in ps && b in ps && a != b && 0 <= PidOf(u, a)
      ensures PidOf(u, a) != PidOf(u, b)
    {
      if a == r {
        assert t[b].pid in LivePids(t, procs);
      } else if b == r {
        assert t[a].pid in LivePids(t, procs);
      } else {
        assert PidOf(t, a) != PidOf(t, b);
      }
    }
    forall i, j | 0 <= i < j < |ps| ensures ListEntry(ps, i) != ListEntry(ps, j) {
      if j == |procs| {
        assert ps[i] in t;
      } else {
        assert ListEntry(procs, i) != ListEntry(procs, j);
      }
    }
    if procs == [] {
      assert t == map[];
      assert ps[0] == r;
    } else {
      assert ps[0] == procs[0];
    }
  }

  /** proc_create keeps proc_initproc a PID_INIT child of idle, and sets it when it creates PID_INIT under idle. */
  lemma CreateKeepsInitOk(t: map<Ref, Proc>, init: Option<Ref>, r: Ref, rec: Proc, link: Option<Ref>)
    requires InitOk(t, init) && r !in t && (link.Some? ==> link.value in t)
    requires init.Some? ==> init.value != r
    requires rec.pid == PID_INIT ==> rec.parent == link && link.Some? && t[link.value].pid == PID_IDLE
    ensures InitOk(Attach(t, r, rec, link), if rec.pid == PID_INIT then Some(r) else init)
  {
    var u := Attach(t, r, rec, link);
    assert forall q :: q in t ==> u[q].pid == t[q].pid && u[q].parent == t[q].parent;
  }

  /**
   * proc_create keeps the invariants: a process other than idle is created
   * under a running curproc, and the new record joins the list, the table
   * and, for PID_INIT, proc_initproc.
   */
  lemma CreateKeepsStateOk(t: map<Ref, Proc>, procs: seq<Ref>, init: Option<Ref>, cur: Option<Ref>,
                           nextPid: int, nextRef: nat, rec: Proc, nextPid2: int)
    requires StateOk(t, procs, init, cur, nextPid, nextRef)
    requires cur.Some? || procs == []
    requires cur.Some? ==> cur.value in procs
    requires rec.pid == FirstFreePid(LivePids(t, procs), nextPid)
    requires rec.pid == PID_INIT ==> cur.Some? && t[cur.value].pid == PID_IDLE
    requires rec.children == [] && rec.state == Running && rec.files == NoFiles()
    requires rec.parent == (if rec.pid != PID_IDLE then cur else None)
    requires 0 <= nextPid2 < PROC_MAX_COUNT
    ensures rec.pid == PID_IDLE ==> procs == []
    ensures rec.pid != PID_IDLE ==> cur.Some?
    ensures StateOk(Attach(t, nextRef, rec, rec.parent), procs + [nextRef],
                    if rec.pid == PID_INIT then Some(nextRef) else init, cur, nextPid2, nextRef + 1)
  {
    IssuedPidFacts(t, procs, nextPid);
    assert rec.pid != PID_IDLE ==> cur.Some?;
    assert cur.Some? ==> t[cur.value].state == Running;
    var u := Attach(t, nextRef, rec, rec.parent);
    CreateKeepsListOk(t, procs, nextPid, nextRef, rec, rec.parent);
    CreateKeepsInitOk(t, init, nextRef, rec, rec.parent);
    AttachKeepsTableOk(t, nextRef, rec, rec.parent);
    FilesOkAttach(t, nextRef, rec, rec.parent);
    assert u.Keys == t.Keys + {nextRef};
  }

  /** proc_cleanup keeps the list invariants: curproc, which is not idle, leaves the list, and idle stays at its head. */
  lemma CleanupKeepsListOk(t: map<Ref, Proc>, procs: seq<Ref>, c: Ref, init: Ref, status: int)
    requires ListOk(t, procs) && c in procs && init in t && t[c].pid != PID_IDLE
    ensures Unlink(procs, c) != []
    ensures ListOk(CleanupTable(t, c, init, status), Unlink(procs, c))
  {
    var u := CleanupTable(t, c, init, status);
    var ps := Unlink(procs, c);
    CleanupKeepsIdentity(t, c, init, status);
    forall i, j | 0 <= i < j < |procs| ensures procs[i] != procs[j] {
      assert ListEntry(procs, i) != ListEntry(procs, j);
    }
    UnlinkExactly(procs, c);
    assert forall i, j :: 0 <= i < j < |ps| ==> ListEntry(ps, i) != ListEntry(ps, j);
    assert procs[0] != c && procs[0] in ps;
    forall a, b | a in ps && b in ps && a != b && 0 <= PidOf(u, a)
      ensures PidOf(u, a) != PidOf(u, b)
    {
      assert PidOf(t, a) != PidOf(t, b);
    }
  }

  /** proc_cleanup of a process other than idle leaves proc_initproc's PID and parent as they were. */
  lemma CleanupKeepsInitOk(t: map<Ref, Proc>, c: Ref, init: Ref, status: int)
    requires FamilyOk(t) && InitOk(t, Some(init)) && c in t && init in t && t[c].pid != PID_IDLE
    ensures InitOk(CleanupTable(t, c, init, status), Some(init))
  {
    CleanupKeepsIdentity(t, c, init, status);
    CleanupKeepsParent(t, c, init, status, init);
  }

  /** proc_cleanup leaves curproc a zombie whose slots are all NULL and every other file table as it was. */
  lemma CleanupKeepsFilesOk(t: map<Ref, Proc>, c: Ref, init: Ref, status: int)
    requires FilesOk(t) && c in t && init in t
    ensures FilesOk(CleanupTable(t, c, init, status))
  {
    CleanupKeepsIdentity(t, c, init, status);
  }

  /**
   * proc_cleanup keeps the invariants when curproc is not idle, its threads
   * have exited, and either it is init and childless or init is alive.
   */
  lemma CleanupKeepsStateOk(t: map<Ref, Proc>, procs: seq<Ref>, init: Option<Ref>, cur: Option<Ref>,
                            nextPid: int, nextRef: nat, status: int, u: map<Ref, Proc>, procs2: seq<Ref>)
    requires StateOk(t, procs, init, cur, nextPid, nextRef)
    requires cur.Some? && cur.value in procs && init.Some? && init.value in t
    requires 1 <= t[cur.value].pid && AllExited(t[cur.value].threads)
    requires cur == init ==> t[cur.value].children == []
    requires cur != init ==> init.value in procs
    requires u == CleanupTable(t, cur.value, init.value, status) && procs2 == Unlink(procs, cur.value)
    ensures StateOk(u, procs2, init, cur, nextPid, nextRef)
  {
    CleanupKeepsTableOk(t, cur.value, init.value, status);
    CleanupKeepsListOk(t, procs, cur.value, init.value, status);
    CleanupKeepsInitOk(t, cur.value, init.value, status);
    CleanupKeepsFilesOk(t, cur.value, init.value, status);
  }

  /** A table with the same keys, PIDs, states, parents and file tables keeps the list, init and file invariants. */
  lemma RelabelKeepsListInitFiles(t: map<Ref, Proc>, u: map<Ref, Proc>, procs: seq<Ref>, init: Option<Ref>)
    requires ListOk(t, procs) && InitOk(t, init) && FilesOk(t) && u.Keys == t.Keys
    requires forall r :: r in t ==>
      u[r].pid == t[r].pid && u[r].state == t[r].state && u[r].parent == t[r].parent && u[r].files == t[r].files
    ensures ListOk(u, procs) && InitOk(u, init) && FilesOk(u)
  {
    forall a, b | a in procs && b in procs && a != b && 0 <= PidOf(u, a)
      ensures PidOf(u, a) != PidOf(u, b)
    {
      assert PidOf(t, a) != PidOf(t, b);
    }
  }

  /** do_exit's status update and kthread_exit's state change keep the invariants. */
  lemma ExitThreadsKeepsStateOk(t: map<Ref, Proc>, procs: seq<Ref>, init: Option<Ref>, cur: Option<Ref>,
                                nextPid: int, nextRef: nat, c: Ref, status: int)
    requires StateOk(t, procs, init, cur, nextPid, nextRef) && c in procs
    ensures StateOk(ExitThreads(t, c, status), procs, init, cur, nextPid, nextRef)
  {
    ExitThreadsKeepsTableOk(t, c, status);
    RelabelKeepsListInitFiles(t, ExitThreads(t, c, status), procs, init);
  }

  /** kthread_create adding a thread to a live process keeps the invariants. */
  lemma AddThreadKeepsStateOk(t: map<Ref, Proc>, procs: seq<Ref>, init: Option<Ref>, cur: Option<Ref>,
                              nextPid: int, nextRef: nat, c: Ref, th: KThread)
    requires StateOk(t, procs, init, cur, nextPid, nextRef) && c in procs
    ensures StateOk(t[c := t[c].(threads := t[c].threads + [th])], procs, init, cur, nextPid, nextRef)
  {
    AddThreadKeepsTableOk(t, c, th);
    RelabelKeepsListInitFiles(t, t[c := t[c].(threads := t[c].threads + [th])], procs, init);
  }

  /** Reaping a DEAD child removes a record that is on neither the list nor proc_initproc's parent link. */
  lemma ReapKeepsListInitFiles(t: map<Ref, Proc>, procs: seq<Ref>, init: Option<Ref>, c: Ref, k: nat)
    requires TableOk(t) && ListOk(t, procs) && InitOk(t, init) && FilesOk(t)
    requires c in procs && k < |t[c].children| && t[c].children[k] in t
    requires t[t[c].children[k]].state == Dead
    ensures ListOk(ReapTable(t, c, k), procs) && InitOk(ReapTable(t, c, k), init) && FilesOk(ReapTable(t, c, k))
  {
    var ch := t[c].children[k];
    var u := ReapTable(t, c, k);
    assert ch != c && ch !in procs;
    assert forall q :: q in u ==>
      q in t && u[q].pid == t[q].pid && u[q].state == t[q].state && u[q].parent == t[q].parent && u[q].files == t[q].files;
    if init.Some? && init.value in u {
      var p := t[init.value].parent.value;
      assert t[p].parent.None?;
    }
    forall a, b | a in procs && b in procs && a != b && 0 <= PidOf(u, a)
      ensures PidOf(u, a) != PidOf(u, b)
    {
      assert PidOf(t, a) != PidOf(t, b);
    }
  }

  /** do_waitpid reaping a DEAD child of a live curproc keeps the invariants. */
  lemma ReapKeepsStateOk(t: map<Ref, Proc>, procs: seq<Ref>, init: Option<Ref>, cur: Option<Ref>,
                         nextPid: int, nextRef: nat, k: nat)
    requires StateOk(t, procs, init, cur, nextPid, nextRef)
    requires cur.Some? && cur.value in procs && k < |t[cur.value].children|
    requires t[t[cur.value].children[k]].state == Dead
    ensures StateOk(ReapTable(t, cur.value, k), procs, init, cur, nextPid, nextRef)
  {
    ReapKeepsTableOk(t, cur.value, k);
    ReapKeepsListInitFiles(t, procs, init, cur.value, k);
  }

  /** A new running record with an empty file table keeps FilesOk. */
  lemma FilesOkAttach(t: map<Ref, Proc>, r: Ref, rec: Proc, link: Option<Ref>)
    requires FilesOk(t) && r !in t && (link.Some? ==> link.value in t)
    requires rec.files == NoFiles() && rec.state == Running
    ensures FilesOk(Attach(t, r, rec, link))
  {
    var u := Attach(t, r, rec, link);
    assert forall q :: q in u && q != r ==> q in t && u[q].files == t[q].files && u[q].state == t[q].state;
  }
}
