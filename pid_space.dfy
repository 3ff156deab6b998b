/**
 * The PID space and the cyclic first-free search that _proc_getid performs
 * (vfs/kernel/proc/proc.c:191-210), stated as functions on the set of PIDs in use.
 */
module PidSpace {
  import opened Config

  /** The PID reached from `start` after `k` steps of `pid = (pid + 1) % PROC_MAX_COUNT`. */
  function Cyclic(start: int, k: int): (p: int)
    requires 0 <= start < PROC_MAX_COUNT && 0 <= k <= PROC_MAX_COUNT
    ensures 0 <= p < PROC_MAX_COUNT
    ensures p == (start + k) % PROC_MAX_COUNT
  {
    if start + k < PROC_MAX_COUNT then start + k else start + k - PROC_MAX_COUNT
  }

  /** The PID _proc_getid stores in next_pid after issuing `pid`: the one after it, cyclically. */
  function NextPid(pid: int): int
  {
    (pid + 1) % PROC_MAX_COUNT
  }

  /** How many cyclic steps lead from `start` to `p`. */
  function Offset(start: int, p: int): (k: int)
    requires 0 <= start < PROC_MAX_COUNT && 0 <= p < PROC_MAX_COUNT
    ensures 0 <= k < PROC_MAX_COUNT && Cyclic(start, k) == p
  {
    if p >= start then p - start else p + PROC_MAX_COUNT - start
  }

  /** The first PID not in `used` among the steps k, k+1, ... of the cyclic scan from `start`; -1 if none. */
  function ScanFrom(used: set<int>, start: int, k: int): int
    requires 0 <= start < PROC_MAX_COUNT && 0 <= k <= PROC_MAX_COUNT
    decreases PROC_MAX_COUNT - k
  {
    if k == PROC_MAX_COUNT then -1
    else if Cyclic(start, k) !in used then Cyclic(start, k)
    else ScanFrom(used, start, k + 1)
  }

  /** The PID _proc_getid hands out when `used` are the PIDs of the listed processes and `start` is next_pid. */
  function FirstFreePid(used: set<int>, start: int): int
    requires 0 <= start < PROC_MAX_COUNT
  {
    ScanFrom(used, start, 0)
  }

  /**
   * One probe of _proc_getid's loop at a PID in use: the next probe is
   * (pid + 1) % PROC_MAX_COUNT, it is back at `start` exactly when every
   * step has been probed, and the scan's result is unchanged.
   */
  lemma ScanStep(used: set<int>, start: int, k: int)
    requires 0 <= start < PROC_MAX_COUNT && 0 <= k < PROC_MAX_COUNT
    requires Cyclic(start, k) in used
    ensures (Cyclic(start, k) + 1) % PROC_MAX_COUNT == Cyclic(start, k + 1)
    ensures Cyclic(start, k + 1) == start <==> k + 1 == PROC_MAX_COUNT
    ensures ScanFrom(used, start, k) == ScanFrom(used, start, k + 1)
  {
  }

  /** What the scan from step `k` finds: a free PID whose earlier steps are all taken, or -1 when every remaining step is taken. */
  lemma {:induction false} ScanFromSound(used: set<int>, start: int, k: int)
    requires 0 <= start < PROC_MAX_COUNT && 0 <= k <= PROC_MAX_COUNT
    ensures var r := ScanFrom(used, start, k);
      r == -1 ==> forall j :: k <= j < PROC_MAX_COUNT ==> Cyclic(start, j) in used
    ensures var r := ScanFrom(used, start, k);
      r != -1 ==>
        && 0 <= r < PROC_MAX_COUNT && r !in used
        && k <= Offset(start, r)
        && forall j :: k <= j < Offset(start, r) ==> Cyclic(start, j) in used
    decreases PROC_MAX_COUNT - k
  {
    if k < PROC_MAX_COUNT && Cyclic(start, k) in used {
      ScanFromSound(used, start, k + 1);
    }
  }

  /** A free PID whose cyclic predecessors from step `k` on are all in use is what the scan from `k` finds. */
  lemma {:induction false} ScanFromReaches(used: set<int>, start: int, k: int, p: int)
    requires 0 <= start < PROC_MAX_COUNT && 0 <= p < PROC_MAX_COUNT
    requires 0 <= k <= Offset(start, p) && p !in used
    requires forall j :: k <= j < Offset(start, p) ==> Cyclic(start, j) in used
    ensures ScanFrom(used, start, k) == p
    decreases Offset(start, p) - k
  {
    if k < Offset(start, p) {
      ScanFromReaches(used, start, k + 1, p);
    }
  }

  /**
   * The issued PID is characterised exactly: a PID p of the space is what the
   * cyclic scan from `start` returns iff p is free and every PID met before it is in use.
   */
  lemma FirstFreePidIsFirstFree(used: set<int>, start: int, p: int)
    requires 0 <= start < PROC_MAX_COUNT && 0 <= p < PROC_MAX_COUNT
    ensures FirstFreePid(used, start) == p <==>
      && p !in used
      && forall j :: 0 <= j < Offset(start, p) ==> Cyclic(start, j) in used
  {
    ScanFromSound(used, start, 0);
    if p !in used && (forall j :: 0 <= j < Offset(start, p) ==> Cyclic(start, j) in used) {
      ScanFromReaches(used, start, 0, p);
    }
  }

  /** The issued PID is -1 or a PID of the space that no listed process holds. */
  lemma IssuedPidIsFree(used: set<int>, start: int)
    requires 0 <= start < PROC_MAX_COUNT
    ensures var p := FirstFreePid(used, start); p == -1 || (0 <= p < PROC_MAX_COUNT && p !in used)
  {
    ScanFromSound(used, start, 0);
  }

  /** _proc_getid fails (returns -1) exactly when every PID of the space is in use. */
  lemma FirstFreePidFailsIffFull(used: set<int>, start: int)
    requires 0 <= start < PROC_MAX_COUNT
    ensures FirstFreePid(used, start) == -1 <==> forall q :: 0 <= q < PROC_MAX_COUNT ==> q in used
  {
    ScanFromSound(used, start, 0);
    if FirstFreePid(used, start) == -1 {
      forall q | 0 <= q < PROC_MAX_COUNT ensures q in used {
        assert Cyclic(start, Offset(start, q)) == q;
      }
    }
  }

  /** With no PID in use the cursor itself is issued: on an empty process list the first PID is next_pid. */
  lemma FirstFreePidOfEmpty(start: int)
    requires 0 <= start < PROC_MAX_COUNT
    ensures FirstFreePid({}, start) == start
  {
  }
}
