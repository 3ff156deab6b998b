/**
 * The process record proc_t and the process-table shape that the functions
 * of vfs/kernel/proc/proc.c keep, as values: every allocated record is an entry
 * of a map from its identity (the address of the proc_t) to its fields, and parent
 * and children are identities. Besides the record this module states the
 * table invariants and the pure transitions that create, cleanup and reap
 * perform on the map.
 */
module ProcRecords {
  import opened Config

  /** Identity of a proc_t handed out by the slab allocator (its address). */
  type Ref = nat
  /** Identity of a kthread_t. */
  type Tid = nat
  /** The address of a vnode_t (a working directory). */
  type Vnode = nat
  /** The address of a file_t held in a file-table slot. */
  type FileRef = nat
  /** A pagedir_t handle. */
  type PageDir = nat

  /** p_state. */
  datatype ProcState = Running | Dead

  /** The kt_state values the process table deals in: a new thread's, and the exited state do_waitpid checks for. */
  datatype KtState = KtNoState | KtExited

  /** What the process table sees of a kernel thread on p_threads. */
  datatype KThread = KThread(tid: Tid, state: KtState)

  /** proc_t: the fields proc.c reads and writes (the wait queue p_wait is the record's identity). */
  datatype Proc = Proc(
    pid: int,
    comm: seq<char>,
    parent: Option<Ref>,
    children: seq<Ref>,
    threads: seq<KThread>,
    state: ProcState,
    status: int,
    files: seq<Option<FileRef>>,
    cwd: Option<Vnode>,
    pagedir: PageDir)

  /** A p_files table of NFILES slots, all NULL. */
  function NoFiles(): (s: seq<Option<FileRef>>)
    ensures |s| == NFILES && forall i :: 0 <= i < |s| ==> s[i].None?
  {
    seq(NFILES, i => None)
  }

  predicate AllExited(ts: seq<KThread>)
  {
    forall i :: 0 <= i < |ts| ==> ts[i].state == KtExited
  }

  /**
   * Parent links and children lists are mutual inverses: every listed child
   * points back at the list's owner, every parent lists its child, nobody is
   * its own parent, and no child is listed twice.
   */
  predicate FamilyOk(t: map<Ref, Proc>)
  {
    && (forall r, i {:trigger t[r].children[i]} :: r in t && 0 <= i < |t[r].children| ==>
          t[r].children[i] in t && t[t[r].children[i]].parent == Some(r))
    && (forall c {:trigger t[c].parent} :: c in t && t[c].parent.Some? ==>
          t[c].parent.value in t && t[c].parent.value != c && c in t[t[c].parent.value].children)
    && (forall r, i, j {:trigger t[r].children[i], t[r].children[j]} :: r in t && 0 <= i < j < |t[r].children| ==>
          t[r].children[i] != t[r].children[j])
  }

  /** Only the idle process has no parent. */
  predicate ParentOk(t: map<Ref, Proc>)
  {
    forall r :: r in t ==> (t[r].parent.None? <==> t[r].pid == PID_IDLE)
  }

  /**
   * A zombie (state DEAD) has dropped its cwd, has handed its children on,
   * still has its parent, and all of its threads have exited.
   */
  predicate ZombieOk(t: map<Ref, Proc>)
  {
    forall r :: r in t && t[r].state == Dead ==>
      && t[r].children == []
      && t[r].cwd.None?
      && t[r].parent.Some?
      && AllExited(t[r].threads)
  }

  predicate TableOk(t: map<Ref, Proc>)
  {
    FamilyOk(t) && ParentOk(t) && ZombieOk(t)
  }

  // ---------------------------------------------------------------------------
  // proc_create: a new record, linked at the tail of curproc's children.

  /** The table after proc_create registers record `rec` as `r` and, when curproc `link` exists, appends `r` to its children. */
  function Attach(t: map<Ref, Proc>, r: Ref, rec: Proc, link: Option<Ref>): (u: map<Ref, Proc>)
    requires link.Some? ==> link.value in t
  {
    if link.Some? then
      t[r := rec][link.value := t[link.value].(children := t[link.value].children + [r])]
    else
      t[r := rec]
  }

  /** Registering a fresh, childless, running record whose parent is the process it is linked under keeps the table invariants. */
  lemma AttachKeepsTableOk(t: map<Ref, Proc>, r: Ref, rec: Proc, link: Option<Ref>)
    requires TableOk(t) && r !in t
    requires rec.children == [] && rec.state == Running && rec.parent == link
    requires link.None? <==> rec.pid == PID_IDLE
    requires link.Some? ==> link.value in t && t[link.value].state == Running
    ensures TableOk(Attach(t, r, rec, link))
    ensures Attach(t, r, rec, link).Keys == t.Keys + {r}
  {
    UpdateKeepsParentZombieOk(t, r, rec);
    if link.Some? {
      var q := link.value;
      UpdateKeepsParentZombieOk(t[r := rec], q, t[q].(children := t[q].children + [r]));
      AttachKeepsFamilyOk(t, r, rec, q);
    }
  }

  /** Storing a record that itself meets ParentOk's and ZombieOk's conditions keeps both for the whole table. */
  lemma UpdateKeepsParentZombieOk(t: map<Ref, Proc>, c: Ref, rec: Proc)
    requires ParentOk(t) && ZombieOk(t)
    requires rec.parent.None? <==> rec.pid == PID_IDLE
    requires rec.state == Dead ==> rec.children == [] && rec.cwd.None? && rec.parent.Some? && AllExited(rec.threads)
    ensures ParentOk(t[c := rec]) && ZombieOk(t[c := rec])
  {
    assert forall q :: q in t[c := rec] && q != c ==> t[c := rec][q] == t[q];
  }

  /** Linking a fresh, childless record under q, as its last child, keeps parent links and children lists mutually inverse. */
  lemma AttachKeepsFamilyOk(t: map<Ref, Proc>, r: Ref, rec: Proc, q: Ref)
    requires FamilyOk(t) && r !in t && q in t
    requires rec.children == [] && rec.parent == Some(q)
    ensures FamilyOk(Attach(t, r, rec, Some(q)))
  {
    var u := Attach(t, r, rec, Some(q));
    forall p, i | p in u && 0 <= i < |u[p].children|
      ensures u[p].children[i] in u && u[u[p].children[i]].parent == Some(p)
    {
      if p == q && i == |t[q].children| {
        assert u[p].children[i] == r;
      } else {
        assert u[p].children[i] == t[p].children[i];
      }
    }
    forall p, i, j | p in u && 0 <= i < j < |u[p].children|
      ensures u[p].children[i] != u[p].children[j]
    {
      if p == q && j == |t[q].children| {
        assert u[p].children[i] == t[q].children[i];
      }
    }
    forall c | c in u && u[c].parent.Some?
      ensures u[c].parent.value in u && u[c].parent.value != c && c in u[u[c].parent.value].children
    {
      if c != r && t[c].parent.value == q {
        assert c in t[q].children;
      }
    }
  }

  // ---------------------------------------------------------------------------
  // proc_cleanup: hand the children of `from` to `to`, one at a time.

  /**
   * The table after the first `n` children of `from` have been moved: each
   * one is cut from the head of from's list, appended to to's list and has
   * its parent set to `to`.
   */
  function MoveChildren(t: map<Ref, Proc>, from: Ref, to: Ref, n: nat): (u: map<Ref, Proc>)
    requires from in t && to in t && from != to && n <= |t[from].children|
    ensures u.Keys == t.Keys
  {
    var kids := t[from].children;
    map r | r in t ::
      if r == from then t[r].(children := kids[n..])
      else if r == to then t[r].(children := t[to].children + kids[..n])
      else if r in kids[..n] then t[r].(parent := Some(to))
      else t[r]
  }

  /** Before the reparenting loop has moved anything, the table is as it was. */
  lemma MoveNoChildren(t: map<Ref, Proc>, from: Ref, to: Ref)
    requires from in t && to in t && from != to
    ensures MoveChildren(t, from, to, 0) == t
  {
    assert t[from].children[0..] == t[from].children;
    assert t[to].children + t[from].children[..0] == t[to].children;
  }

  /** One turn of the reparenting loop: moving child n of `from` extends the first n moves. */
  lemma MoveChildrenStep(t: map<Ref, Proc>, from: Ref, to: Ref, n: nat)
    requires FamilyOk(t) && from in t && to in t && from != to && n < |t[from].children|
    requires t[to].parent != Some(from)
    ensures var u := MoveChildren(t, from, to, n);
      var c := t[from].children[n];
      && c in u && c != from && c != to
      && u[from].children == t[from].children[n..]
      && MoveChildren(t, from, to, n + 1) ==
           u[from := u[from].(children := u[from].children[1..])]
            [to := u[to].(children := u[to].children + [c])]
            [c := u[c].(parent := Some(to))]
  {
    var kids := t[from].children;
    var c := kids[n];
    var u := MoveChildren(t, from, to, n);
    var v := MoveChildren(t, from, to, n + 1);
    var w := u[from := u[from].(children := u[from].children[1..])]
              [to := u[to].(children := u[to].children + [c])]
              [c := u[c].(parent := Some(to))];
    assert t[c].parent == Some(from);
    assert c !in kids[..n] by {
      forall i | 0 <= i < n ensures kids[i] != c { }
    }
    assert kids[..n + 1] == kids[..n] + [c];
    assert v.Keys == w.Keys;
    forall r | r in v ensures v[r] == w[r] {
      if r == from {
        assert kids[n..][1..] == kids[n + 1..];
      }
    }
  }

  /** proc_cleanup's reparenting: all children of `from` handed to `to`. */
  function Reparent(t: map<Ref, Proc>, from: Ref, to: Ref): (u: map<Ref, Proc>)
    requires from in t && to in t && from != to
    ensures u.Keys == t.Keys
  {
    MoveChildren(t, from, to, |t[from].children|)
  }

  /** What the reparenting loop leaves behind: from has no children, to has them appended, they point at to. */
  lemma ReparentMoves(t: map<Ref, Proc>, from: Ref, to: Ref)
    requires FamilyOk(t) && from in t && to in t && from != to
    requires t[to].parent != Some(from)
    ensures var u := Reparent(t, from, to); var kids := t[from].children;
      && to !in kids && from !in kids
      && u[from] == t[from].(children := [])
      && u[to] == t[to].(children := t[to].children + kids)
      && (forall r :: r in kids ==> r in t && u[r] == t[r].(parent := Some(to)))
      && (forall r :: r in t && r != from && r != to && r !in kids ==> u[r] == t[r])
      && (forall r :: r in t ==>
            && u[r].pid == t[r].pid && u[r].state == t[r].state && u[r].cwd == t[r].cwd
            && u[r].threads == t[r].threads && u[r].parent.Some? == t[r].parent.Some?)
  {
    var kids := t[from].children;
    assert kids[..|kids|] == kids;
  }

  /** The parent links and children lists stay mutual inverses when from's children move to to. */
  lemma ReparentKeepsFamilyOk(t: map<Ref, Proc>, from: Ref, to: Ref)
    requires FamilyOk(t) && from in t && to in t && from != to
    requires t[to].parent != Some(from)
    ensures FamilyOk(Reparent(t, from, to))
  {
    ReparentKeepsChildLinks(t, from, to);
    ReparentKeepsNoRepeats(t, from, to);
    ReparentKeepsParentLinks(t, from, to);
  }

  /** After reparenting, every listed child points back at its lister. */
  lemma ReparentKeepsChildLinks(t: map<Ref, Proc>, from: Ref, to: Ref)
    requires FamilyOk(t) && from in t && to in t && from != to
    requires t[to].parent != Some(from)
    ensures var m := Reparent(t, from, to);
      forall p, i {:trigger m[p].children[i]} :: p in m && 0 <= i < |m[p].children| ==>
        m[p].children[i] in m && m[m[p].children[i]].parent == Some(p)
  {
    var kids := t[from].children;
    var m := Reparent(t, from, to);
    ReparentMoves(t, from, to);
    forall p, i | p in m && 0 <= i < |m[p].children|
      ensures m[p].children[i] in m && m[m[p].children[i]].parent == Some(p)
    {
      if p == to && i >= |t[to].children| {
        assert m[p].children[i] == kids[i - |t[to].children|];
      } else {
        assert m[p].children[i] == t[p].children[i];
        assert t[p].children[i] !in kids;
      }
    }
  }

  /** After reparenting, no children list has a repeat. */
  lemma ReparentKeepsNoRepeats(t: map<Ref, Proc>, from: Ref, to: Ref)
    requires FamilyOk(t) && from in t && to in t && from != to
    requires t[to].parent != Some(from)
    ensures var m := Reparent(t, from, to);
      forall p, i, j {:trigger m[p].children[i], m[p].children[j]} :: p in m && 0 <= i < j < |m[p].children| ==>
        m[p].children[i] != m[p].children[j]
  {
    var m := Reparent(t, from, to);
    ReparentMoves(t, from, to);
    forall p, i, j | p in m && 0 <= i < j < |m[p].children|
      ensures m[p].children[i] != m[p].children[j]
    {
      if p == to && i < |t[to].children| <= j {
        assert t[m[p].children[i]].parent == Some(to);
        assert t[m[p].children[j]].parent == Some(from);
      }
    }
  }

  /** After reparenting, every parent link leads to a record that lists the child. */
  lemma ReparentKeepsParentLinks(t: map<Ref, Proc>, from: Ref, to: Ref)
    requires FamilyOk(t) && from in t && to in t && from != to
    requires t[to].parent != Some(from)
    ensures var m := Reparent(t, from, to);
      forall q {:trigger m[q].parent} :: q in m && m[q].parent.Some? ==>
        m[q].parent.value in m && m[q].parent.value != q && q in m[m[q].parent.value].children
  {
    var kids := t[from].children;
    var m := Reparent(t, from, to);
    ReparentMoves(t, from, to);
    forall q | q in m && m[q].parent.Some?
      ensures m[q].parent.value in m && m[q].parent.value != q && q in m[m[q].parent.value].children
    {
      if q in kids {
        var k :| 0 <= k < |kids| && kids[k] == q;
        assert m[to].children[|t[to].children| + k] == q;
      } else {
        assert m[q].parent == t[q].parent && t[q].parent != Some(from);
      }
    }
  }

  /** Reparenting onto a running process keeps the table invariants. */
  lemma ReparentKeepsTableOk(t: map<Ref, Proc>, from: Ref, to: Ref)
    requires TableOk(t) && from in t && to in t && from != to
    requires t[to].state == Running && t[to].parent != Some(from)
    ensures TableOk(Reparent(t, from, to))
  {
    var m := Reparent(t, from, to);
    ReparentKeepsFamilyOk(t, from, to);
    ReparentMoves(t, from, to);
    assert ParentOk(m) by {
      forall r | r in m ensures m[r].parent.None? <==> m[r].pid == PID_IDLE {
        assert r in t;
      }
    }
    assert ZombieOk(m) by {
      forall r | r in m && m[r].state == Dead
        ensures m[r].children == [] && m[r].cwd.None? && m[r].parent.Some? && AllExited(m[r].threads)
      {
        assert r in t && r != to;
        if r == from {
          assert t[r].state == Dead;
        } else if r !in t[from].children {
          assert m[r] == t[r];
        }
      }
    }
  }

  /** The table after proc_cleanup(status) of process `c`, with proc_initproc `init`: cwd dropped, children handed to init unless c is init, status recorded, state DEAD. */
  function CleanupTable(t: map<Ref, Proc>, c: Ref, init: Ref, status: int): (u: map<Ref, Proc>)
    requires c in t && init in t
    ensures u.Keys == t.Keys
  {
    var t1 := t[c := t[c].(files := NoFiles(), cwd := None)];
    var t2 := if c != init then Reparent(t1, c, init) else t1;
    t2[c := t2[c].(status := status, state := Dead)]
  }

  /** Two tables with the same keys, and the same parent and children list under each key, agree on FamilyOk. */
  lemma SameFamilyKeepsFamilyOk(t: map<Ref, Proc>, u: map<Ref, Proc>)
    requires FamilyOk(t) && u.Keys == t.Keys
    requires forall r :: r in t ==> u[r].parent == t[r].parent && u[r].children == t[r].children
    ensures FamilyOk(u)
  {
    forall p, i | p in u && 0 <= i < |u[p].children|
      ensures u[p].children[i] in u && u[u[p].children[i]].parent == Some(p)
    {
      assert u[p].children[i] == t[p].children[i];
    }
    forall p, i, j | p in u && 0 <= i < j < |u[p].children|
      ensures u[p].children[i] != u[p].children[j]
    {
      assert u[p].children[i] == t[p].children[i];
    }
  }

  /** Rewriting the record of a running process, keeping its PID, parent and children and leaving it running, keeps the table invariants. */
  lemma RelabelKeepsTableOk(t: map<Ref, Proc>, c: Ref, rec: Proc)
    requires TableOk(t) && c in t && t[c].state == Running
    requires rec.pid == t[c].pid && rec.parent == t[c].parent && rec.children == t[c].children && rec.state == Running
    ensures TableOk(t[c := rec])
  {
    UpdateKeepsParentZombieOk(t, c, rec);
    SameFamilyKeepsFamilyOk(t, t[c := rec]);
  }

  /** Closing every file and dropping the cwd of a running process keeps the table invariants. */
  lemma ReleaseKeepsTableOk(t: map<Ref, Proc>, c: Ref)
    requires TableOk(t) && c in t && t[c].state == Running
    ensures TableOk(t[c := t[c].(files := NoFiles(), cwd := None)])
  {
    RelabelKeepsTableOk(t, c, t[c].(files := NoFiles(), cwd := None));
  }

  /** Recording the status and flipping a childless process without cwd whose threads exited to DEAD keeps the table invariants. */
  lemma MarkDeadKeepsTableOk(t: map<Ref, Proc>, c: Ref, status: int)
    requires TableOk(t) && c in t
    requires t[c].children == [] && t[c].cwd.None? && t[c].pid != PID_IDLE && AllExited(t[c].threads)
    ensures TableOk(t[c := t[c].(status := status, state := Dead)])
  {
    SameFamilyKeepsFamilyOk(t, t[c := t[c].(status := status, state := Dead)]);
  }

  /**
   * proc_cleanup keeps the table invariants, provided the exiting process has
   * a PID other than idle's, all its threads have exited, and either it is
   * init and has no children or init is alive and not its child.
   */
  lemma CleanupKeepsTableOk(t: map<Ref, Proc>, c: Ref, init: Ref, status: int)
    requires TableOk(t) && c in t && init in t
    requires t[c].state == Running && t[c].pid != PID_IDLE && AllExited(t[c].threads)
    requires c == init ==> t[c].children == []
    requires c != init ==> t[init].state == Running && t[init].parent != Some(c)
    ensures TableOk(CleanupTable(t, c, init, status))
  {
    ReleaseKeepsTableOk(t, c);
    var t1 := t[c := t[c].(files := NoFiles(), cwd := None)];
    if c != init {
      ReparentKeepsTableOk(t1, c, init);
      ReparentMoves(t1, c, init);
      MarkDeadKeepsTableOk(Reparent(t1, c, init), c, status);
    } else {
      MarkDeadKeepsTableOk(t1, c, status);
    }
  }

  /**
   * After proc_cleanup the exiting process is a childless zombie with the
   * given status, no open file and no cwd; its former children are at the
   * tail of init's children with init as parent, and no other record
   * changes.
   */
  lemma CleanupMovesChildren(t: map<Ref, Proc>, c: Ref, init: Ref, status: int)
    requires FamilyOk(t) && c in t && init in t
    requires c == init ==> t[c].children == []
    requires c != init ==> t[init].parent != Some(c)
    ensures var u := CleanupTable(t, c, init, status);
      && u[c] == t[c].(children := [], status := status, state := Dead, files := NoFiles(), cwd := None)
      && (c != init ==>
            && init !in t[c].children
            && u[init] == t[init].(children := t[init].children + t[c].children)
            && forall r :: r in t[c].children ==> r in t && u[r] == t[r].(parent := Some(init)))
      && forall r :: r in t && r != c && r != init && r !in t[c].children ==> u[r] == t[r]
  {
    var t1 := t[c := t[c].(files := NoFiles(), cwd := None)];
    SameFamilyKeepsFamilyOk(t, t1);
    if c != init {
      ReparentMoves(t1, c, init);
    }
  }

  /**
   * proc_cleanup changes only children lists, the parents of the moved
   * children and curproc's own status, state, files and cwd: every PID
   * stays, and so does every file table and state but curproc's, which is
   * DEAD with every slot closed.
   */
  lemma CleanupKeepsIdentity(t: map<Ref, Proc>, c: Ref, init: Ref, status: int)
    requires c in t && init in t
    ensures var u := CleanupTable(t, c, init, status);
      && u[c].state == Dead && u[c].files == NoFiles()
      && forall r :: r in t ==> u[r].pid == t[r].pid && (r != c ==> u[r].files == t[r].files && u[r].state == t[r].state)
  {
  }

  /** A record that is not a child of the exiting process keeps its parent through proc_cleanup. */
  lemma CleanupKeepsParent(t: map<Ref, Proc>, c: Ref, init: Ref, status: int, r: Ref)
    requires FamilyOk(t) && c in t && init in t && r in t && t[r].parent != Some(c)
    ensures CleanupTable(t, c, init, status)[r].parent == t[r].parent
  {
    assert r !in t[c].children;
  }

  /** The thread states after kthread_exit in the single-threaded build: every thread of the process has exited. */
  function MarkExited(ts: seq<KThread>): (us: seq<KThread>)
    ensures |us| == |ts| && AllExited(us)
    ensures forall i :: 0 <= i < |ts| ==> us[i].tid == ts[i].tid
  {
    seq(|ts|, i requires 0 <= i < |ts| => ts[i].(state := KtExited))
  }

  /** The table after do_exit(status) has set p_status and kthread_exit has marked the threads of `c` exited, before cleanup. */
  function ExitThreads(t: map<Ref, Proc>, c: Ref, status: int): (u: map<Ref, Proc>)
    requires c in t
    ensures u.Keys == t.Keys
  {
    t[c := t[c].(status := status, threads := MarkExited(t[c].threads))]
  }

  /** Setting the status and exiting the threads of a running process keeps the table invariants. */
  lemma ExitThreadsKeepsTableOk(t: map<Ref, Proc>, c: Ref, status: int)
    requires TableOk(t) && c in t && t[c].state == Running
    ensures TableOk(ExitThreads(t, c, status))
    ensures AllExited(ExitThreads(t, c, status)[c].threads)
  {
    RelabelKeepsTableOk(t, c, t[c].(status := status, threads := MarkExited(t[c].threads)));
  }

  /** kthread_create appending a thread to a running process keeps the table invariants. */
  lemma AddThreadKeepsTableOk(t: map<Ref, Proc>, c: Ref, th: KThread)
    requires TableOk(t) && c in t && t[c].state == Running
    ensures TableOk(t[c := t[c].(threads := t[c].threads + [th])])
  {
    RelabelKeepsTableOk(t, c, t[c].(threads := t[c].threads + [th]));
  }

  // ---------------------------------------------------------------------------
  // list_remove on the global list.

  /** Position of `x` in a list: the first entry equal to it. */
  function IndexOf(s: seq<Ref>, x: Ref): (k: nat)
    requires x in s
    ensures k < |s| && s[k] == x
    ensures forall j :: 0 <= j < k ==> s[j] != x
  {
    if s[0] == x then 0 else 1 + IndexOf(s[1..], x)
  }

  /** The list after list_remove of the link of `x`. */
  function Unlink(s: seq<Ref>, x: Ref): seq<Ref>
    requires x in s
  {
    s[..IndexOf(s, x)] + s[IndexOf(s, x) + 1..]
  }

  /** Unlinking an entry of a list without repeats removes exactly that entry and keeps the order of the rest. */
  lemma UnlinkExactly(s: seq<Ref>, x: Ref)
    requires x in s
    requires forall a, b :: 0 <= a < b < |s| ==> s[a] != s[b]
    ensures var u := Unlink(s, x);
      && |u| == |s| - 1
      && (forall j :: 0 <= j < |u| ==> u[j] == (if j < IndexOf(s, x) then s[j] else s[j + 1]))
      && (forall y :: y in u <==> y in s && y != x)
      && (forall a, b :: 0 <= a < b < |u| ==> u[a] != u[b])
      && (s[0] != x ==> u[0] == s[0])
  {
    RemoveAtFacts(s, IndexOf(s, x));
  }

  // ---------------------------------------------------------------------------
  // do_waitpid: which child is reaped, and the table after the reap.

  /** The first entry of `kids` whose state is DEAD, in list order. */
  function FirstDead(t: map<Ref, Proc>, kids: seq<Ref>): (k: Option<nat>)
    requires forall i :: 0 <= i < |kids| ==> kids[i] in t
    ensures k.Some? ==> k.value < |kids| && t[kids[k.value]].state == Dead
    ensures k.Some? ==> forall j :: 0 <= j < k.value ==> t[kids[j]].state != Dead
    ensures k.None? ==> forall j :: 0 <= j < |kids| ==> t[kids[j]].state != Dead
  {
    if kids == [] then None
    else if t[kids[0]].state == Dead then Some(0)
    else match FirstDead(t, kids[1..])
      case None => None
      case Some(k) => Some(k + 1)
  }

  /** The first entry of `kids` whose PID is `pid`, in list order. */
  function FirstWithPid(t: map<Ref, Proc>, kids: seq<Ref>, pid: int): (k: Option<nat>)
    requires forall i :: 0 <= i < |kids| ==> kids[i] in t
    ensures k.Some? ==> k.value < |kids| && t[kids[k.value]].pid == pid
    ensures k.Some? ==> forall j :: 0 <= j < k.value ==> t[kids[j]].pid != pid
    ensures k.None? ==> forall j :: 0 <= j < |kids| ==> t[kids[j]].pid != pid
  {
    if kids == [] then None
    else if t[kids[0]].pid == pid then Some(0)
    else match FirstWithPid(t, kids[1..], pid)
      case None => None
      case Some(k) => Some(k + 1)
  }

  /** What one pass of do_waitpid decides: fail with ECHILD, sleep on p_wait, or reap the child at an index of the children list. */
  datatype WaitPlan = NoChild | Sleep | ReapAt(index: nat)

  /** The decision of do_waitpid(pid, 0, ...) for a caller whose children list is `kids`. */
  function WaitChoice(t: map<Ref, Proc>, kids: seq<Ref>, pid: int): (w: WaitPlan)
    requires forall i :: 0 <= i < |kids| ==> kids[i] in t
    requires pid > 0 || pid == -1
    ensures w.NoChild? <==> kids == [] || (pid > 0 && forall j :: 0 <= j < |kids| ==> t[kids[j]].pid != pid)
    ensures w.ReapAt? ==> w.index < |kids| && t[kids[w.index]].state == Dead
    ensures w.ReapAt? && pid == -1 ==> forall j :: 0 <= j < w.index ==> t[kids[j]].state != Dead
    ensures w.ReapAt? && pid > 0 ==>
      t[kids[w.index]].pid == pid && forall j :: 0 <= j < w.index ==> t[kids[j]].pid != pid
    ensures w.Sleep? && pid == -1 ==> forall j :: 0 <= j < |kids| ==> t[kids[j]].state != Dead
    ensures w.Sleep? && pid > 0 ==>
      (exists j :: 0 <= j < |kids| && t[kids[j]].pid == pid && t[kids[j]].state != Dead &&
         forall i :: 0 <= i < j ==> t[kids[i]].pid != pid)
  {
    if kids == [] then NoChild
    else if pid == -1 then
      match FirstDead(t, kids)
      case Some(k) => ReapAt(k)
      case None => Sleep
    else
      match FirstWithPid(t, kids, pid)
      case None => NoChild
      case Some(k) => if t[kids[k]].state == Dead then ReapAt(k) else Sleep
  }

  /** The table after do_waitpid reaps child number `i` of `parent`: the child is unlinked from the children list and freed. */
  function ReapTable(t: map<Ref, Proc>, parent: Ref, i: nat): (u: map<Ref, Proc>)
    requires parent in t && i < |t[parent].children|
  {
    var kids := t[parent].children;
    (t - {kids[i]})[parent := t[parent].(children := kids[..i] + kids[i + 1..])]
  }

  /** Unlinking entry i of a list without repeats: every other entry stays, in order, and the entry is gone. */
  lemma RemoveAtFacts(kids: seq<Ref>, i: nat)
    requires i < |kids|
    requires forall a, b :: 0 <= a < b < |kids| ==> kids[a] != kids[b]
    ensures var rest := kids[..i] + kids[i + 1..];
      && |rest| == |kids| - 1
      && (forall j :: 0 <= j < |rest| ==> rest[j] == (if j < i then kids[j] else kids[j + 1]))
      && (forall x :: x in rest <==> x in kids && x != kids[i])
      && (forall a, b :: 0 <= a < b < |rest| ==> rest[a] != rest[b])
  {
    var rest := kids[..i] + kids[i + 1..];
    assert forall j :: 0 <= j < |rest| ==> rest[j] == (if j < i then kids[j] else kids[j + 1]);
    forall x ensures x in rest <==> x in kids && x != kids[i] {
      if x in kids && x != kids[i] {
        var k :| 0 <= k < |kids| && kids[k] == x;
        assert rest[if k < i then k else k - 1] == x;
      }
    }
  }

  /** Reaping a DEAD child keeps parent links and children lists mutual inverses. */
  lemma ReapKeepsFamilyOk(t: map<Ref, Proc>, parent: Ref, i: nat)
    requires TableOk(t) && parent in t && i < |t[parent].children|
    requires t[parent].state == Running && t[t[parent].children[i]].state == Dead
    ensures FamilyOk(ReapTable(t, parent, i))
  {
    RemoveAtFacts(t[parent].children, i);
    ReapKeepsParentLinks(t, parent, i);
    ReapKeepsChildLinks(t, parent, i);
  }

  /** After reaping, every parent link still leads to a live record that lists the child. */
  lemma ReapKeepsParentLinks(t: map<Ref, Proc>, parent: Ref, i: nat)
    requires TableOk(t) && parent in t && i < |t[parent].children|
    requires t[t[parent].children[i]].state == Dead
    requires var kids := t[parent].children; forall x :: x in kids[..i] + kids[i + 1..] <==> x in kids && x != kids[i]
    ensures var u := ReapTable(t, parent, i);
      forall q {:trigger u[q].parent} :: q in u && u[q].parent.Some? ==>
        u[q].parent.value in u && u[q].parent.value != q && q in u[u[q].parent.value].children
  {
    var c := t[parent].children[i];
    var u := ReapTable(t, parent, i);
    assert t[c].children == [];
    forall q | q in u && u[q].parent.Some?
      ensures u[q].parent.value in u && u[q].parent.value != q && q in u[u[q].parent.value].children
    {
      assert u[q].parent == t[q].parent;
      assert t[q].parent != Some(c);
    }
  }

  /** After reaping, every listed child is still a record that points back at its lister. */
  lemma ReapKeepsChildLinks(t: map<Ref, Proc>, parent: Ref, i: nat)
    requires FamilyOk(t) && parent in t && i < |t[parent].children|
    requires var kids := t[parent].children; var rest := kids[..i] + kids[i + 1..];
      forall j :: 0 <= j < |rest| ==> rest[j] == (if j < i then kids[j] else kids[j + 1])
    ensures var u := ReapTable(t, parent, i);
      forall p, j {:trigger u[p].children[j]} :: p in u && 0 <= j < |u[p].children| ==>
        u[p].children[j] in u && u[u[p].children[j]].parent == Some(p)
  {
    var c := t[parent].children[i];
    var u := ReapTable(t, parent, i);
    forall p, j | p in u && 0 <= j < |u[p].children|
      ensures u[p].children[j] in u && u[u[p].children[j]].parent == Some(p)
    {
      if p != parent {
        assert t[p].children[j] != c;
      }
    }
  }

  /** Reaping a DEAD child keeps the table invariants. */
  lemma ReapKeepsTableOk(t: map<Ref, Proc>, parent: Ref, i: nat)
    requires TableOk(t) && parent in t && i < |t[parent].children|
    requires t[parent].state == Running && t[t[parent].children[i]].state == Dead
    ensures TableOk(ReapTable(t, parent, i))
  {
    ReapKeepsFamilyOk(t, parent, i);
  }

  /**
   * Reaping child number i removes exactly that child from the caller's
   * children (the others keep their order) and frees its record, leaving
   * every other record as it was.
   */
  lemma ReapRemovesChild(t: map<Ref, Proc>, parent: Ref, i: nat)
    requires FamilyOk(t) && parent in t && i < |t[parent].children|
    ensures var u := ReapTable(t, parent, i); var c := t[parent].children[i];
      && u.Keys == t.Keys - {c}
      && c != parent
      && u[parent] == t[parent].(children := t[parent].children[..i] + t[parent].children[i + 1..])
      && c !in u[parent].children
      && forall r :: r in u && r != parent ==> u[r] == t[r]
  {
    RemoveAtFacts(t[parent].children, i);
  }

  // ---------------------------------------------------------------------------
  // proc_kill_all: which processes are sent proc_kill(p, -1).

  /** p's parent link can be followed (true of every process but idle in a TableOk table). */
  predicate Linked(t: map<Ref, Proc>, p: Ref)
  {
    p in t && (t[p].pid != PID_IDLE ==> t[p].parent.Some? && t[p].parent.value in t)
  }

  /** The test of proc_kill_all: p is not curproc, not idle, and not a direct child of idle. */
  predicate Killable(t: map<Ref, Proc>, cur: Option<Ref>, p: Ref)
    requires Linked(t, p)
  {
    Some(p) != cur && t[p].pid != PID_IDLE && t[t[p].parent.value].pid != PID_IDLE
  }

  /** The processes of `ps` that proc_kill_all sends a kill to, in list order. */
  function KillTargets(t: map<Ref, Proc>, cur: Option<Ref>, ps: seq<Ref>): (ks: seq<Ref>)
    requires forall i :: 0 <= i < |ps| ==> Linked(t, ps[i])
    ensures forall i :: 0 <= i < |ks| ==> ks[i] in t
  {
    if ps == [] then []
    else
      var last := ps[|ps| - 1];
      KillTargets(t, cur, ps[..|ps| - 1]) + (if Killable(t, cur, last) then [last] else [])
  }

  /** A process is a kill target exactly when it is listed and passes proc_kill_all's test. */
  lemma {:induction false} KillTargetsExactly(t: map<Ref, Proc>, cur: Option<Ref>, ps: seq<Ref>)
    requires forall i :: 0 <= i < |ps| ==> Linked(t, ps[i])
    ensures forall p :: p in KillTargets(t, cur, ps) <==> p in ps && Killable(t, cur, p)
  {
    if ps != [] {
      var init := ps[..|ps| - 1];
      KillTargetsExactly(t, cur, init);
      assert ps == init + [ps[|ps| - 1]];
    }
  }

  /** proc_kill_all ends by killing curproc itself unless it is idle or a direct child of idle. */
  predicate KillsSelf(t: map<Ref, Proc>, cur: Ref)
    requires Linked(t, cur)
  {
    t[cur].pid != PID_IDLE && t[t[cur].parent.value].pid != PID_IDLE
  }
}
