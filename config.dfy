/**
 * Build-time constants of the Weenix kernel that the process table relies on,
 * and the Option type used wherever the C code uses a possibly-NULL proc_t, vnode_t or file_t reference.
 */
module Config {

  /** The conventional Some/None datatype, standing for a reference that may be NULL. */
  datatype Option<T> = None | Some(value: T)

  /** Size of the PID space: PIDs are drawn from [0, PROC_MAX_COUNT). */
  const PROC_MAX_COUNT: int := 65536

  /** Capacity of p_comm, the terminator included. */
  const PROC_NAME_LEN: int := 256

  /** Number of slots in a process's open-file table p_files. */
  const NFILES: int := 32

  /** The PID of the idle process, the first process ever created. */
  const PID_IDLE: int := 0

  /** The PID of the init process, created by the idle process. */
  const PID_INIT: int := 1
}
