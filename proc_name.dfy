/**
 * The process name as proc_create stores it in p_comm
 * (vfs/kernel/proc/proc.c:229-235): the caller's C string, truncated to
 * PROC_NAME_LEN - 1 characters and terminated.
 */
module ProcName {
  import opened Config

  /** strlen: the number of characters before the first NUL, or all of them when there is none. */
  function StrLen(s: seq<char>): (n: nat)
    ensures n <= |s|
    ensures forall i :: 0 <= i < n ==> s[i] != '\0'
    ensures n < |s| ==> s[n] == '\0'
  {
    if s == [] || s[0] == '\0' then 0 else 1 + StrLen(s[1..])
  }

  /** The number of characters proc_create copies: strlen(name), cut to PROC_NAME_LEN - 1. */
  function CommLen(name: seq<char>): int
  {
    if StrLen(name) >= PROC_NAME_LEN then PROC_NAME_LEN - 1 else StrLen(name)
  }

  /** p_comm after proc_create: strncpy of CommLen(name) characters, then p_comm[len] = '\0'. */
  function Comm(name: seq<char>): (c: seq<char>)
    ensures |c| <= PROC_NAME_LEN
  {
    name[..CommLen(name)] + ['\0']
  }

  /**
   * Reading p_comm back as a C string gives exactly the first
   * min(strlen(name), PROC_NAME_LEN - 1) characters of the name.
   */
  lemma CommReadsBack(name: seq<char>)
    ensures StrLen(Comm(name)) == CommLen(name)
    ensures Comm(name)[..StrLen(Comm(name))] == name[..CommLen(name)]
  {
    var c := Comm(name);
    var n := CommLen(name);
    assert c[n] == '\0';
    assert forall i :: 0 <= i < n ==> c[i] == name[i] && name[i] != '\0';
  }

  /** A name that fits is kept whole. */
  lemma CommKeepsShortName(name: seq<char>)
    requires StrLen(name) < PROC_NAME_LEN
    ensures Comm(name)[..StrLen(Comm(name))] == name[..StrLen(name)]
  {
    CommReadsBack(name);
  }

  /** A long name is truncated to PROC_NAME_LEN - 1 characters, never rejected. */
  lemma CommTruncatesLongName(name: seq<char>)
    requires StrLen(name) >= PROC_NAME_LEN
    ensures StrLen(Comm(name)) == PROC_NAME_LEN - 1
    ensures Comm(name)[..PROC_NAME_LEN - 1] == name[..PROC_NAME_LEN - 1]
  {
    CommReadsBack(name);
  }
}
