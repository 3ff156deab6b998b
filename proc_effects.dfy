/**
 * The calls proc.c makes into subsystems outside the process table (VFS,
 * scheduler, threads, page tables), recorded as a log of effects in the
 * order they are made.
 */
module ProcEffects {
  import opened Config
  import opened ProcRecords

  datatype Effect =
    | PagedirCreated(pd: PageDir)                 // pt_create_pagedir()
    | PagedirDestroyed(pd: PageDir)               // pt_destroy_pagedir(pd)
    | VnodeRef(vn: Option<Vnode>)                 // vref(vn)
    | VnodePut(vn: Option<Vnode>)                 // vput(vn)
    | FileClosed(proc: Ref, fd: int, file: FileRef) // do_close(fd), run by process `proc`
    | WokeUp(waiter: Ref)                         // sched_wakeup_on(&waiter->p_wait)
    | Cancelled(tid: Tid, retval: int)            // kthread_cancel(thr, retval)
    | ThreadDestroyed(tid: Tid)                   // kthread_destroy(thr)

  /** The do_close calls of proc_cleanup's loop over slots 0 .. |files| - 1 of process r: one per occupied slot, in slot order. */
  function Closes(r: Ref, files: seq<Option<FileRef>>): seq<Effect>
  {
    if files == [] then []
    else
      var fd := |files| - 1;
      Closes(r, files[..fd]) + (if files[fd].Some? then [FileClosed(r, fd, files[fd].value)] else [])
  }

  /**
   * `cs` closes every occupied slot of `files`, exactly once (the closed
   * slots strictly increase), with the file it held, and nothing else.
   */
  predicate ClosesExactly(r: Ref, files: seq<Option<FileRef>>, cs: seq<Effect>)
  {
    && (forall k :: 0 <= k < |cs| ==>
          cs[k].FileClosed? && cs[k].proc == r && 0 <= cs[k].fd < |files| && files[cs[k].fd] == Some(cs[k].file))
    && (forall k1, k2 :: 0 <= k1 < k2 < |cs| ==> cs[k1].fd < cs[k2].fd)
    && (forall fd :: 0 <= fd < |files| && files[fd].Some? ==> FileClosed(r, fd, files[fd].value) in cs)
  }

  /** proc_cleanup's close loop closes exactly the occupied slots, in slot order. */
  lemma {:induction false} ClosesExactlyOccupied(r: Ref, files: seq<Option<FileRef>>)
    ensures ClosesExactly(r, files, Closes(r, files))
  {
    if files != [] {
      var fd := |files| - 1;
      var pre := files[..fd];
      ClosesExactlyOccupied(r, pre);
      var cs0 := Closes(r, pre);
      var last := if files[fd].Some? then [FileClosed(r, fd, files[fd].value)] else [];
      var cs := cs0 + last;
      assert Closes(r, files) == cs;
      assert forall i :: 0 <= i < fd ==> pre[i] == files[i];
      forall d | 0 <= d < |files| && files[d].Some?
        ensures FileClosed(r, d, files[d].value) in cs
      {
        if d < fd {
          assert FileClosed(r, d, pre[d].value) in cs0;
        } else {
          assert cs[|cs| - 1] == FileClosed(r, d, files[d].value);
        }
      }
    }
  }

  /** The kthread_cancel calls proc_kill makes on another process: one per thread, in p_threads order. */
  function Cancels(ts: seq<KThread>, retval: int): (es: seq<Effect>)
    ensures |es| == |ts|
    ensures forall k :: 0 <= k < |ts| ==> es[k] == Cancelled(ts[k].tid, retval)
  {
    if ts == [] then [] else Cancels(ts[..|ts| - 1], retval) + [Cancelled(ts[|ts| - 1].tid, retval)]
  }

  /** The kthread_destroy calls do_waitpid makes on a reaped child: one per thread, in p_threads order. */
  function Destroys(ts: seq<KThread>): (es: seq<Effect>)
    ensures |es| == |ts|
    ensures forall k :: 0 <= k < |ts| ==> es[k] == ThreadDestroyed(ts[k].tid)
  {
    if ts == [] then [] else Destroys(ts[..|ts| - 1]) + [ThreadDestroyed(ts[|ts| - 1].tid)]
  }

  /** The cancellations proc_kill_all sends to the processes `ks`, in order. */
  function CancelAll(t: map<Ref, Proc>, ks: seq<Ref>, retval: int): seq<Effect>
    requires forall i :: 0 <= i < |ks| ==> ks[i] in t
  {
    if ks == [] then []
    else CancelAll(t, ks[..|ks| - 1], retval) + Cancels(t[ks[|ks| - 1]].threads, retval)
  }

  /** A thread receives a cancellation carrying `retval` exactly when it belongs to one of the processes `ks`, and nothing else happens. */
  lemma {:induction false} CancelAllExactly(t: map<Ref, Proc>, ks: seq<Ref>, retval: int)
    requires forall i :: 0 <= i < |ks| ==> ks[i] in t
    ensures forall e :: e in CancelAll(t, ks, retval) ==> e.Cancelled? && e.retval == retval
    ensures forall tid :: Cancelled(tid, retval) in CancelAll(t, ks, retval) <==>
      exists p, k :: p in ks && 0 <= k < |t[p].threads| && t[p].threads[k].tid == tid
  {
    if ks != [] {
      var pre := ks[..|ks| - 1];
      var last := ks[|ks| - 1];
      CancelAllExactly(t, pre, retval);
      assert ks == pre + [last];
      forall tid ensures Cancelled(tid, retval) in CancelAll(t, ks, retval) <==>
        exists p, k :: p in ks && 0 <= k < |t[p].threads| && t[p].threads[k].tid == tid
      {
        if exists p, k :: p in ks && 0 <= k < |t[p].threads| && t[p].threads[k].tid == tid {
          var p, k :| p in ks && 0 <= k < |t[p].threads| && t[p].threads[k].tid == tid;
          if p == last {
            assert Cancels(t[last].threads, retval)[k] == Cancelled(tid, retval);
          } else {
            assert p in pre;
          }
        }
        if Cancelled(tid, retval) in CancelAll(t, ks, retval) {
          if Cancelled(tid, retval) in Cancels(t[last].threads, retval) {
            var k :| 0 <= k < |t[last].threads| && Cancels(t[last].threads, retval)[k] == Cancelled(tid, retval);
            assert t[last].threads[k].tid == tid;
          }
        }
      }
    }
  }

  /** One more entry of _proc_list adds that process's cancellations to proc_kill_all's, when it is a target, and nothing otherwise. */
  lemma KillAllStep(t: map<Ref, Proc>, cur: Option<Ref>, ps: seq<Ref>, i: nat, retval: int)
    requires forall j :: 0 <= j < |ps| ==> Linked(t, ps[j])
    requires i < |ps|
    ensures Killable(t, cur, ps[i]) ==>
      CancelAll(t, KillTargets(t, cur, ps[..i + 1]), retval) ==
      CancelAll(t, KillTargets(t, cur, ps[..i]), retval) + Cancels(t[ps[i]].threads, retval)
    ensures !Killable(t, cur, ps[i]) ==>
      CancelAll(t, KillTargets(t, cur, ps[..i + 1]), retval) == CancelAll(t, KillTargets(t, cur, ps[..i]), retval)
  {
    var q := ps[..i + 1];
    assert q[..|q| - 1] == ps[..i] && q[|q| - 1] == ps[i];
    var ks := KillTargets(t, cur, ps[..i]);
    if Killable(t, cur, ps[i]) {
      var ks1 := ks + [ps[i]];
      assert KillTargets(t, cur, q) == ks1;
      assert ks1[..|ks1| - 1] == ks && ks1[|ks1| - 1] == ps[i];
    } else {
      assert KillTargets(t, cur, q) == ks + [] == ks;
    }
  }
}
