/**
 Shared vocabulary of the HymoFS module-lifecycle model: an optional value,
 the Linux errno codes the lifecycle code distinguishes, the result of a
 raw syscall, and the wait-status decoding used on the exit status of a
 child process.
 */
module Common {

  datatype Option<+T> = None | Some(value: T)

  // errno values of the Linux generic syscall ABI (identical on arm, arm64 and x86)
  const ENOENT: int := 2
  const EAGAIN: int := 11
  const EBUSY: int := 16
  const EEXIST: int := 17
  const ENOSYS: int := 38

  /** Outcome of one raw syscall: it returned 0, or it failed and left `errno`. */
  datatype SysResult = Done | Fail(errno: int)

  /** A failing `delete_module` that is worth retrying: the module still has references. */
  predicate IsBusy(r: SysResult) {
    r.Fail? && (r.errno == EAGAIN || r.errno == EBUSY)
  }

  /** A load syscall that either loaded the module or found it already present. */
  predicate LoadAccepted(r: SysResult) {
    r.Done? || r.errno == EEXIST
  }

  /** `WIFEXITED(status)`: the low seven bits (the terminating signal) are zero. */
  predicate Exited(status: int) {
    status % 0x80 == 0
  }

  /** `WEXITSTATUS(status)`: bits 8..15 of the wait status. */
  function ExitCode(status: int): (code: int)
    ensures 0 <= code < 0x100
  {
    (status % 0x1_0000) / 0x100
  }

  /** The wait status of a child that called `exit(k)` decodes back to a normal exit with code `k`. */
  lemma NormalExitDecodes(k: int)
    requires 0 <= k < 0x100
    ensures Exited(k * 0x100) && ExitCode(k * 0x100) == k
  {
  }

  /** A child killed by a signal never reads as a normal exit. */
  lemma SignalledIsNotExited(sig: int, core: bool)
    requires 1 <= sig < 0x7f
    ensures !Exited(sig + (if core then 0x80 else 0))
  {
  }
}
