/**
 Unloading the HymoFS kernel module (`lkm_unload`): an idempotence guard,
 a quiescence sequence that drains the module's users, up to five blocking
 `delete_module` attempts retried only while the kernel reports the module
 busy, and a final `rmmod` fallback judged by its wait status.
 */
module Unloader {
  import opened Common
  import opened Text

  /** The module's name as the kernel knows it. */
  const ModName: string := "hymofs_lkm"

  const MaxDeleteAttempts: nat := 5

  /** Pause after the quiescence sequence and between busy retries. */
  const DrainDelayMs: nat := 120

  /** The shell command of the fallback. */
  const RmmodCommand: string := "/system/bin/rmmod " + ModName + " >/dev/null 2>&1"

  /** Guidance appended to a final failure message. */
  const BusyHint: string := " (module may still be busy; stop related mounts/processes or reboot)"

  const ClearRulesFailed: string := "failed to clear HymoFS rules before unload"

  /** Observable effects of an unload attempt, in order. */
  datatype UnloadAction =
    | SetEnabled(on: bool)              // HymoFS hook processing switched
    | ClearRules                        // all HymoFS rules cleared
    | ReleaseConnection                 // this process's session handle dropped
    | Sleep(ms: nat)
    | DeleteModule(name: string, flags: int)
    | RunRmmod(command: string)

  /** Everything `lkm_unload` observes from the outside world. */
  datatype UnloadEnv = UnloadEnv(
    loaded: bool,                        // first status probe: the module is loaded
    stillAvailable: bool,                // second probe, just before quiescence
    clearRulesOk: bool,                  // HymoFS::clear_rules succeeds
    deleteModule: nat -> SysResult,      // outcome of the k-th delete_module call (from 0)
    rmmodStatus: int,                    // what std::system returns for the rmmod command
    strerror: int -> string)             // the C library's message for an errno

  /** The quiescence sequence run before the first removal attempt. */
  function Quiescence(env: UnloadEnv): seq<UnloadAction> {
    if env.stillAvailable
    then [SetEnabled(false), ClearRules, ReleaseConnection, Sleep(DrainDelayMs)]
    else []
  }

  /** The last error left by the quiescence sequence. */
  function QuiescenceError(env: UnloadEnv): string {
    if env.stillAvailable && !env.clearRulesOk then ClearRulesFailed else ""
  }

  /** The actions of the first `n` removal attempts: each is a blocking
      `delete_module`, followed by a pause when the kernel reported the
      module busy. */
  function RetryTrace(outcome: nat -> SysResult, n: nat): seq<UnloadAction> {
    if n == 0 then []
    else
      var pause := if IsBusy(outcome(n - 1)) then [Sleep(DrainDelayMs)] else [];
      RetryTrace(outcome, n - 1) + [DeleteModule(ModName, 0)] + pause
  }

  /** `unload_module_via_syscall`'s message for a failed attempt. */
  function DeleteFailedMessage(env: UnloadEnv, errno: int): string {
    "delete_module " + ModName + " failed: " + env.strerror(errno)
  }

  /** The `rmmod` fallback succeeds: the shell ran and exited with status 0. */
  predicate RmmodSucceeded(status: int) {
    status != -1 && Exited(status) && ExitCode(status) == 0
  }

  /** `unload_module_via_rmmod`'s message when the fallback fails. */
  function RmmodFailedMessage(status: int): (msg: string)
    requires !RmmodSucceeded(status)
    ensures Contains(msg, "rmmod")
  {
    if status == -1 then
      var msg := "failed to exec rmmod for " + ModName;
      assert msg[15..20] == "rmmod";
      ContainsAt(msg, "rmmod", 15);
      msg
    else
      var msg := "rmmod " + ModName + " failed, wait_status=" + IntToDecimal(status)
        + ", exit_code=" + (if Exited(status) then IntToDecimal(ExitCode(status)) else "signal");
      assert msg[0..5] == "rmmod";
      ContainsAt(msg, "rmmod", 0);
      msg
  }

  /** The removal attempt that ended the retry loop failed. */
  predicate LoopFailed(env: UnloadEnv, attempts: nat) {
    attempts >= 1 && env.deleteModule(attempts - 1).Fail?
  }

  /** The full trace of an unload of a loaded module that made `attempts`
      removal attempts. */
  function UnloadTrace(env: UnloadEnv, attempts: nat): seq<UnloadAction> {
    Quiescence(env) + RetryTrace(env.deleteModule, attempts)
      + (if LoopFailed(env, attempts) then [RunRmmod(RmmodCommand)] else [])
  }

  /** Number of `delete_module` calls in a trace. */
  function DeleteCount(t: seq<UnloadAction>): nat {
    if |t| == 0 then 0
    else DeleteCount(t[..|t| - 1]) + (if t[|t| - 1].DeleteModule? then 1 else 0)
  }

  /** Counting `delete_module` calls distributes over concatenation. */
  lemma {:induction false} DeleteCountAppend(a: seq<UnloadAction>, b: seq<UnloadAction>)
    ensures DeleteCount(a + b) == DeleteCount(a) + DeleteCount(b)
    decreases |b|
  {
    if |b| > 0 {
      assert (a + b)[..|a + b| - 1] == a + b[..|b| - 1];
      DeleteCountAppend(a, b[..|b| - 1]);
    } else {
      assert a + b == a;
    }
  }

  /** A trace without `delete_module` calls counts zero of them. */
  lemma {:induction false} NoDeletes(t: seq<UnloadAction>)
    requires forall i | 0 <= i < |t| :: !t[i].DeleteModule?
    ensures DeleteCount(t) == 0
    decreases |t|
  {
    if |t| > 0 {
      NoDeletes(t[..|t| - 1]);
    }
  }

  /** The retry phase makes exactly one `delete_module` call per attempt
      and never runs `rmmod` or touches the HymoFS session. */
  lemma {:induction false} RetryTraceContents(outcome: nat -> SysResult, n: nat)
    ensures DeleteCount(RetryTrace(outcome, n)) == n
    ensures forall a | a in RetryTrace(outcome, n) :: a.DeleteModule? || a == Sleep(DrainDelayMs)
  {
    if n > 0 {
      RetryTraceContents(outcome, n - 1);
      var pause := if IsBusy(outcome(n - 1)) then [Sleep(DrainDelayMs)] else [];
      DeleteCountAppend(RetryTrace(outcome, n - 1) + [DeleteModule(ModName, 0)], pause);
      DeleteCountAppend(RetryTrace(outcome, n - 1), [DeleteModule(ModName, 0)]);
      assert DeleteCount([DeleteModule(ModName, 0)]) == 1;
    }
  }

  /** Shape of an unload trace: the number of removal attempts it records,
      `rmmod` present exactly when the loop failed and then last, and the
      quiescence steps, when run, strictly before the first removal. */
  lemma UnloadTraceShape(env: UnloadEnv, attempts: nat)
    requires attempts >= 1
    ensures var t := UnloadTrace(env, attempts);
      && DeleteCount(t) == attempts
      && (RunRmmod(RmmodCommand) in t <==> LoopFailed(env, attempts))
      && (LoopFailed(env, attempts) ==> t[|t| - 1] == RunRmmod(RmmodCommand))
      && (env.stillAvailable ==> t[..4] == [SetEnabled(false), ClearRules, ReleaseConnection, Sleep(DrainDelayMs)])
      && t[|Quiescence(env)|] == DeleteModule(ModName, 0)
  {
    var q := Quiescence(env);
    var r := RetryTrace(env.deleteModule, attempts);
    var tail: seq<UnloadAction> := if LoopFailed(env, attempts) then [RunRmmod(RmmodCommand)] else [];
    var t := UnloadTrace(env, attempts);
    assert t == q + r + tail;
    RetryTraceContents(env.deleteModule, attempts);
    DeleteCountAppend(q + r, tail);
    DeleteCountAppend(q, r);
    NoDeletes(q);
    NoDeletes(tail);
    assert RunRmmod(RmmodCommand) !in r;
    assert RunRmmod(RmmodCommand) !in q;
    RetryTraceFirst(env.deleteModule, attempts);
    assert t[|q|] == r[0];
  }

  /** The first retry action is a `delete_module` call. */
  lemma {:induction false} RetryTraceFirst(outcome: nat -> SysResult, n: nat)
    requires n >= 1
    ensures |RetryTrace(outcome, n)| >= 1 && RetryTrace(outcome, n)[0] == DeleteModule(ModName, 0)
  {
    if n > 1 {
      RetryTraceFirst(outcome, n - 1);
    }
  }

  /** The removal loop of `lkm_unload`: blocking `delete_module` attempts,
      at most five, retried after a pause only while the kernel reports
      the module busy. */
  method DeleteWithRetry(env: UnloadEnv, before: string) returns (attempts: nat, retries: seq<UnloadAction>, lastError: string)
    ensures 1 <= attempts <= MaxDeleteAttempts
    ensures forall k | 0 <= k < attempts - 1 :: IsBusy(env.deleteModule(k))
    ensures attempts < MaxDeleteAttempts ==> !IsBusy(env.deleteModule(attempts - 1))
    ensures retries == RetryTrace(env.deleteModule, attempts)
    // each failed attempt overwrites the last error; a success leaves it
    ensures env.deleteModule(attempts - 1).Fail? ==>
      lastError == DeleteFailedMessage(env, env.deleteModule(attempts - 1).errno)
    ensures env.deleteModule(attempts - 1).Done? && attempts == 1 ==> lastError == before
    ensures env.deleteModule(attempts - 1).Done? && attempts > 1 ==>
      lastError == DeleteFailedMessage(env, env.deleteModule(attempts - 2).errno)
  {
    attempts := 0;
    retries := [];
    lastError := before;
    while attempts < MaxDeleteAttempts
      invariant attempts <= MaxDeleteAttempts
      invariant forall k | 0 <= k < attempts :: IsBusy(env.deleteModule(k))
      invariant retries == RetryTrace(env.deleteModule, attempts)
      invariant attempts == 0 ==> lastError == before
      invariant attempts > 0 ==> lastError == DeleteFailedMessage(env, env.deleteModule(attempts - 1).errno)
    {
      var res := env.deleteModule(attempts);
      retries := retries + [DeleteModule(ModName, 0)];
      attempts := attempts + 1;
      if res.Done? {
        return;
      }
      lastError := DeleteFailedMessage(env, res.errno);
      if !IsBusy(res) {
        return;
      }
      retries := retries + [Sleep(DrainDelayMs)];
    }
  }

  /** `lkm_unload`. */
  method Unload(env: UnloadEnv) returns (ok: bool, lastError: string, trace: seq<UnloadAction>, attempts: nat)
    // idempotence: nothing to do when the module is not loaded
    ensures !env.loaded ==> ok && lastError == "" && trace == [] && attempts == 0
    // bounded retry, continued only while the module is busy
    ensures env.loaded ==> 1 <= attempts <= MaxDeleteAttempts
    ensures forall k | 0 <= k < attempts - 1 :: IsBusy(env.deleteModule(k))
    ensures env.loaded && attempts < MaxDeleteAttempts ==> !IsBusy(env.deleteModule(attempts - 1))
    // ordering: quiescence, the attempts, then rmmod only after the loop failed
    ensures env.loaded ==> trace == UnloadTrace(env, attempts)
    // the verdict
    ensures ok <==> !env.loaded || !LoopFailed(env, attempts) || RmmodSucceeded(env.rmmodStatus)
    // the last error
    // (a success keeps whatever message the previous step left)
    ensures env.loaded && !LoopFailed(env, attempts) && attempts == 1 ==> lastError == QuiescenceError(env)
    ensures env.loaded && !LoopFailed(env, attempts) && attempts > 1 ==>
      lastError == DeleteFailedMessage(env, env.deleteModule(attempts - 2).errno)
    ensures ok && LoopFailed(env, attempts) ==>
      lastError == DeleteFailedMessage(env, env.deleteModule(attempts - 1).errno)
    ensures !ok ==> lastError == RmmodFailedMessage(env.rmmodStatus) + BusyHint
  {
    lastError := "";
    trace := [];
    attempts := 0;
    if !env.loaded {
      return true, lastError, trace, attempts;
    }
    if env.stillAvailable {
      trace := trace + [SetEnabled(false)];
      if !env.clearRulesOk {
        lastError := ClearRulesFailed;
      }
      trace := trace + [ClearRules, ReleaseConnection, Sleep(DrainDelayMs)];
    }
    assert trace == Quiescence(env) && lastError == QuiescenceError(env);
    var retries;
    attempts, retries, lastError := DeleteWithRetry(env, lastError);
    trace := trace + retries;
    if !LoopFailed(env, attempts) {
      return true, lastError, trace, attempts;
    }
    trace := trace + [RunRmmod(RmmodCommand)];
    ok, lastError := RmmodFallback(env.rmmodStatus, lastError);
  }

  /** The `rmmod` fallback and the final failure decoration of
      `lkm_unload`: success keeps the last error as it was; failure
      replaces it by the fallback's message with the busy guidance. */
  method RmmodFallback(status: int, before: string) returns (ok: bool, lastError: string)
    ensures ok <==> RmmodSucceeded(status)
    ensures ok ==> lastError == before
    ensures !ok ==> lastError == RmmodFailedMessage(status) + BusyHint
  {
    if RmmodSucceeded(status) {
      return true, before;
    }
    lastError := RmmodFailedMessage(status);
    if Contains(lastError, "delete_module") || Contains(lastError, "rmmod") {
      lastError := lastError + BusyHint;
    }
    ok := false;
  }
}
