# HymoFS kernel-module lifecycle, modelled in Dafny

This project models the part of the `ksud` daemon that manages the HymoFS
loadable kernel module (`userspace/ksud/src/hymo/core/lkm.cpp`). The model has
four parts.

- **KMI resolution** (`kmi.dfy`). The kernel release string is turned into the
  kernel-module-interface tag `android<N>-<major>.<minor>`, or `""`. The
  quirks of the C++ parser are kept:
  - `major.minor` is everything before the second dot, or the whole string
    when there is no second dot.
  - The version starts right after the first `-android` anywhere in the
    string and ends at the next `-` or at the end.
- **Persisted policy** (`policy.dfy`). The autoload flag and the manual KMI
  override are one-line files. They are modelled as a map from file to
  contents, where a missing entry is a missing or unreadable file. Write
  failures are inputs.
- **Load protocol** (`loader.dfy`). `lkm_load` is a pure function of its
  observations:
  - the status probe;
  - the policy files and the kernel's osrelease file;
  - the outcomes of `mkstemp`, the asset copy and the legacy-path check;
  - the outcomes of `finit_module` and `init_module`.

  It returns the verdict, the last-error string and a trace of actions
  (temporary file created, asset copied, file unlinked, load syscalls).
- **Unload protocol** (`unloader.dfy`). `lkm_unload` is a method whose
  retry loop carries the invariants. Its inputs are the two status probes,
  the result of clearing the rules, a script of `delete_module` outcomes
  and the wait status of `rmmod`. It returns the verdict, the last error,
  the trace and the number of removal attempts.

`common.dfy` holds the errno values and the `WIFEXITED`/`WEXITSTATUS`
decoding. `text.dfy` holds the `std::string` operations the code uses:
`find`, `getline` and `to_string`. `scenarios.dfy` derives concrete cases
from the general contracts:
- the documented resolver examples;
- boot on an unrecognisable kernel;
- the `init_module` fallback;
- the unload retry and escalation cases.

Everything is sequential and deterministic once the syscalls are inputs. The
process-global last-error string becomes a field of each result. That field
starts empty because both `lkm_load` and `lkm_unload` clear the error first.

## Behaviour of the code worth knowing

The model follows the code in each of these cases, including where the
outcome is surprising.

- **Unload failure message.** `unload_module_via_rmmod` overwrites the last
  error (lkm.cpp:140, 147-149), so the `delete_module` error of the retry
  loop is lost. The final message is the `rmmod` message followed by the
  busy guidance (`Unloader.Unload`, last `ensures`). The guidance test on
  `"delete_module"` (lkm.cpp:346) can never be what decides: every `rmmod`
  failure message contains `"rmmod"` (`Unloader.RmmodFailedMessage`).
- **Stale error on success.** A successful unload can still leave a
  non-empty last error. This happens when an earlier busy attempt failed,
  or when clearing the rules failed. `Unload` states exactly which message
  is left.
- **Load syscall failures.** A failing load syscall is only logged
  (lkm.cpp:95, 118). `lkm_load` therefore returns false with an empty last
  error. Only a missing image sets the error (lkm.cpp:297).
- **Legacy image with an empty KMI.** The legacy image is tried even when
  no KMI was resolved (lkm.cpp:292). An unrecognisable kernel leads to
  "no matching module found" only when no legacy image is installed
  (`Scenarios.UnknownKernelFindsNoModule`).
- **Unreported write loss.** `write_file` returns the stream's state
  (lkm.cpp:168) before the stream is flushed and closed. A one-line
  content is still buffered at that point, so a failing flush reports
  success and leaves the file truncated to `""`. `lkm_set_autoload(false)`
  can thus report success while autoload still reads as enabled
  (`Policy.SetAutoload`), and a set override can read back as none
  (`Policy.SetKmiOverride`).
- **Status cache.** `HymoFS::invalidate_status_cache` is documented as the
  call to make after a module load (hymofs.hpp:56), but `lkm_load` never
  calls it.
- **i386 asset suffix.** On i386 the asset suffix falls through to
  `_arm64` (lkm.cpp:223-231). `Loader.ArchSuffix` keeps that.

## Model

| member | source | states |
|---|---|---|
| Text.FindChar | userspace/ksud/src/hymo/core/lkm.cpp:199-204 | `find(c, from)` returns the first index at or after `from` holding `c`; npos means no such index exists |
| Text.FindSub | userspace/ksud/src/hymo/core/lkm.cpp:208 | `find(p)` returns the first index where `p` occurs, and npos only when `p` occurs nowhere at or after the start |
| Text.FirstLine | userspace/ksud/src/hymo/core/lkm.cpp:154-161 | the line `getline` yields has no newline and is a prefix of the contents, ending at the first newline or the end of the file |
| Text.FirstLineOfLine | userspace/ksud/src/hymo/core/lkm.cpp:154-161 | a file holding a newline-free line, alone or followed by a newline and more text, reads back as exactly that line |
| Text.NatToDecimalRoundTrip | userspace/ksud/src/hymo/core/lkm.cpp:148-149 | reading back the decimal text of a number gives the number |
| Text.IntToDecimalRoundTrip | userspace/ksud/src/hymo/core/lkm.cpp:148-149 | `to_string` on a wait status is injective, so the message names the status exactly, sign included |
| Common.NormalExitDecodes | userspace/ksud/src/hymo/core/lkm.cpp:144 | the wait status of `exit(k)` satisfies `WIFEXITED` and `WEXITSTATUS` gives `k` back |
| Common.SignalledIsNotExited | userspace/ksud/src/hymo/core/lkm.cpp:144-149 | the wait status of a child killed by a signal, with or without a core dump, never satisfies `WIFEXITED`, so the message reports `signal` |
| Kmi.ResolveKmi | userspace/ksud/src/hymo/core/lkm.cpp:199-219 | the tag is empty iff the release has no dot or no `-android`; a non-empty tag starts with `android` |
| Kmi.ResolveKmiCharacterized | userspace/ksud/src/hymo/core/lkm.cpp:199-217 | a release whose major.minor prefix (up to the second dot or the end) and version (after the first `-android`, up to the next `-` or the end) are given resolves to `android` + version + `-` + major.minor |
| Kmi.FirstDot | userspace/ksud/src/hymo/core/lkm.cpp:199-201 | the dot of a major.minor part is where `find('.')` stops |
| Kmi.MajorMinorAtIs | userspace/ksud/src/hymo/core/lkm.cpp:202-206 | cutting at the second dot, or the end, yields exactly the major.minor part |
| Kmi.VersionAtIs | userspace/ksud/src/hymo/core/lkm.cpp:210-215 | cutting from after `-android` to the next `-`, or the end, yields exactly the version part |
| Kmi.ResolveKmiParts | userspace/ksud/src/hymo/core/lkm.cpp:202-217 | every non-empty tag is built from such a prefix and such a dash-free version, so the characterization is complete |
| Kmi.CurrentKmi | userspace/ksud/src/hymo/core/lkm.cpp:188-197 | the kernel's osrelease file wins over `uname`; `uname` is used only when that file reads empty, and a failing `uname` gives no tag |
| Kmi.CurrentKmiIgnoresUname | userspace/ksud/src/hymo/core/lkm.cpp:182-197 | once the osrelease file yields a release, any two `uname` answers, spoofed or not, give the same tag |
| Policy.ReadFirstLine | userspace/ksud/src/hymo/core/lkm.cpp:154-161 | a missing file reads as `""`; the result never holds a newline |
| Policy.WriteKeyFile | userspace/ksud/src/hymo/core/lkm.cpp:163-178 | a write reports success iff the directory, the open and the stream all succeed; a durable success stores the content; a success lost on close leaves the file empty; a stream failure leaves at most the content; no other file changes |
| Policy.GetAutoload | userspace/ksud/src/hymo/core/lkm.cpp:359-364 | a missing or empty file means enabled; otherwise enabled iff the first line is exactly `1`, `on` or `true` |
| Policy.SetAutoload | userspace/ksud/src/hymo/core/lkm.cpp:353-357 | a durable set reads back as the value set; a reported set lost on close reads back as enabled; the override file is untouched |
| Policy.GetKmiOverride | userspace/ksud/src/hymo/core/lkm.cpp:241-243 | no override file means no override (`""`); otherwise the override is the file's first line |
| Policy.SetKmiOverride | userspace/ksud/src/hymo/core/lkm.cpp:245-249 | a durable set reads back as the string set when it has no newline, and as its first line otherwise; a reported set lost on close reads back as no override |
| Policy.ClearKmiOverride | userspace/ksud/src/hymo/core/lkm.cpp:251-255 | clearing succeeds when the file is removed or was already absent (ENOENT), fails on any other error, and then leaves the store unchanged |
| Policy.ClearUndoesSet | userspace/ksud/src/hymo/core/lkm.cpp:245-255 | set followed by clear leaves no override and every other file as before |
| Policy.PolicyFilesIndependent | userspace/ksud/src/hymo/core/lkm.cpp:353-364 | writing the autoload flag never changes the override; setting or clearing the override never changes the autoload flag |
| Loader.LoadParamsEncodesSyscallNr | userspace/ksud/src/hymo/core/lkm.cpp:302-303 | the module parameter is `hymo_syscall_nr=` followed by 142 in decimal, and it fits the 64-byte buffer |
| Loader.EffectiveKmi | userspace/ksud/src/hymo/core/lkm.cpp:269-273 | a non-empty override takes precedence; otherwise the tag comes from auto-detection |
| Loader.SetOverrideDecidesKmi | userspace/ksud/src/hymo/core/lkm.cpp:269-273 | after a durable set of a non-empty single-line override, the next load looks for exactly that KMI |
| Loader.ClearedOverrideAutoDetects | userspace/ksud/src/hymo/core/lkm.cpp:269-273 | after the override is cleared, the next load looks for the tag auto-detected from the unchanged osrelease file and `uname` |
| Loader.MaterializeImage | userspace/ksud/src/hymo/core/lkm.cpp:275-294 | the extracted asset is used iff the KMI is non-empty and the directory, the temp file and the copy all succeed; otherwise the legacy path is used iff it exists; a failed copy unlinks its temp file at once; this step issues no load syscall |
| Loader.LoadViaFinit | userspace/ksud/src/hymo/core/lkm.cpp:48-122 | `finit_module` comes first with the module parameter; `init_module` is attempted iff `finit_module` reported ENOSYS and the image could be read whole; EEXIST from either call is success; any other errno is failure |
| Loader.ImageTraceSyscalls | userspace/ksud/src/hymo/core/lkm.cpp:101-122 | once an image is found, a syscall is issued iff the image opens; `init_module` only directly follows a `finit_module` that reported ENOSYS; every load syscall uses the module parameter and the found image |
| Loader.ImageTraceCleanup | userspace/ksud/src/hymo/core/lkm.cpp:283-310 | an extracted temp file is unlinked, and nothing uses it afterwards; the legacy image is never unlinked |
| Loader.ComposedTrace | userspace/ksud/src/hymo/core/lkm.cpp:302-310 | once an image is found, a syscall is issued iff the image opens; the temp file is unlinked and never used afterwards; the legacy image is never unlinked |
| Loader.Load | userspace/ksud/src/hymo/core/lkm.cpp:263-313 | if already loaded: success, no lookup, no syscall; if no image: failure with `no matching module found for <kmi>` and no syscall; verdict, last error, temp-file cleanup and `finit`-before-`init` order on every path |
| Loader.AutoloadPostFsData | userspace/ksud/src/hymo/core/lkm.cpp:257-261 | the boot hook loads iff autoload is enabled and the module is not loaded |
| Loader.DisabledAutoloadSkipsBoot | userspace/ksud/src/hymo/core/lkm.cpp:257-261 | after autoload is durably switched off, the boot hook does nothing |
| Loader.FreshInstallAutoloads | userspace/ksud/src/hymo/core/lkm.cpp:257-261 | with no autoload file and the module not loaded, the boot hook performs a load |
| Loader.LoadIdempotent | userspace/ksud/src/hymo/core/lkm.cpp:263-267 | every load of an already-loaded module gives the same result: success, empty error, empty trace |
| Unloader.RmmodFailedMessage | userspace/ksud/src/hymo/core/lkm.cpp:136-152 | every failure message of the `rmmod` fallback mentions `rmmod` |
| Unloader.RetryTraceContents | userspace/ksud/src/hymo/core/lkm.cpp:333-341 | the retry phase makes exactly one `delete_module` per attempt; its only other action is the pause |
| Unloader.UnloadTraceShape | userspace/ksud/src/hymo/core/lkm.cpp:321-345 | order of an unload trace: quiescence first (disable, clear rules, release the connection, pause), then the attempts; `rmmod` runs once and last iff the loop failed |
| Unloader.DeleteWithRetry | userspace/ksud/src/hymo/core/lkm.cpp:333-341 | 1 to 5 blocking `delete_module` attempts, with another attempt, after a pause, only when the previous one reported EAGAIN/EBUSY; a failed attempt overwrites the last error with its own message, and a successful one leaves the last error as it was |
| Unloader.RmmodFallback | userspace/ksud/src/hymo/core/lkm.cpp:343-350 | the fallback succeeds iff `rmmod` ran and exited with 0, which keeps the last error; otherwise the last error is the `rmmod` message followed by the busy guidance |
| Unloader.Unload | userspace/ksud/src/hymo/core/lkm.cpp:315-351 | if not loaded: success, no action; otherwise 1 to 5 attempts, with a further attempt only after EAGAIN/EBUSY; `rmmod` runs only after the loop failed; success iff a `delete_module` succeeded or `rmmod` exited with code 0; the last error in every case; on failure it ends with the busy guidance |
| Scenarios.GkiReleaseResolves | userspace/ksud/src/hymo/core/lkm.cpp:199-217 | `5.10.101-android12-9-ab1234` resolves to `android12-5.10` |
| Scenarios.PlainReleaseResolvesEmpty | userspace/ksud/src/hymo/core/lkm.cpp:208-219 | `5.10.101` resolves to `""` |
| Scenarios.DotlessReleaseResolvesEmpty | userspace/ksud/src/hymo/core/lkm.cpp:199-201 | `unknown` resolves to `""` |
| Scenarios.UnknownKernelFindsNoModule | userspace/ksud/src/hymo/core/lkm.cpp:263-300 | with no override, kernel release `unknown` and no legacy image, load fails with `no matching module found for ` and issues no syscall |
| Scenarios.OverrideSelectsAsset | userspace/ksud/src/hymo/core/lkm.cpp:270-283 | with an override set, the asset copied is the one named after the override |
| Scenarios.FinitMissingFallsBackToInit | userspace/ksud/src/hymo/core/lkm.cpp:283-310 | ENOSYS from `finit_module` followed by EEXIST from `init_module` is success; the exact trace is create, copy, `finit`, `init`, unlink |
| Scenarios.BusyThenFreed | userspace/ksud/src/hymo/core/lkm.cpp:333-336 | busy on attempts 1-4 and success on attempt 5 gives success without `rmmod` |
| Scenarios.BusyThroughout | userspace/ksud/src/hymo/core/lkm.cpp:333-350 | busy on all five attempts: `rmmod` runs and decides the verdict; a failure ends with the busy guidance |
| Scenarios.HardErrorSkipsRetry | userspace/ksud/src/hymo/core/lkm.cpp:337-343 | an error other than EAGAIN/EBUSY stops after one `delete_module` and goes to `rmmod` |
| Scenarios.RmmodExitOneFails | userspace/ksud/src/hymo/core/lkm.cpp:144-149 | an `rmmod` that exits with code 1 leaves `rmmod hymofs_lkm failed, wait_status=256, exit_code=1` plus the busy guidance |

## Left out

- Real syscalls and file I/O are inputs, not calls. This covers
  `finit_module`, `init_module`, `delete_module`, `open`, `fstat`, `malloc`,
  `read`, `mkstemp`, `unlink`, `std::filesystem`, `std::system` and the
  file streams.
  - `fs::exists` on the legacy image (lkm.cpp:292) is the `legacyExists`
    flag. The throwing overload is used, so an error other than "not
    found" makes `lkm_load` throw instead of returning false. That
    exception path is not modelled.
  - A flush at close that writes part of a long content is not modelled.
    Every file written here holds one short line, which is still buffered
    when the stream's state is reported.
  - The open/fstat/malloc/read chain of `load_module_via_init`, with its
    EINTR retry and short reads, is one `imageReadable` flag.
  - The temp file's random name is the single value `ExtractedTemp`.
- The sleeps (lkm.cpp:330, 340) are `Sleep(120)` trace events. No time
  passes.
- Logging has no effect on the result and is left out. The model assumes
  that the failing syscall's `errno` is still intact when the code checks
  it.
- The syscall numbers in the per-architecture table (lkm.cpp:30-46) are
  left out. They are compile-time constants that only select the syscall.
  The architecture table for the asset suffix is modelled.
- The `HymoFS` class (hymofs.hpp) has only declarations here. It is
  modelled as follows:
  - `is_available` becomes the probe inputs `loaded` and `stillAvailable`.
  - `set_enabled`, `clear_rules` and `release_connection` become trace
    events, and the outcome of `clear_rules` is an input.
  - The rule engine, the status cache and protocol-version checking are not
    part of this model, because their code is not available.
- `lkm_is_loaded` and `lkm_get_last_error` only forward the probe and the
  stored error. They appear as the `loaded` input and the `lastError` field.
- `lkm_autoload_post_fs_data` and `lkm_load` each call the probe. The model
  uses one `loaded` flag for both calls.
- `ksud::copy_asset_to_file` is a foreign call. It is the boolean input
  `assetCopied`.
- The paths of the key files and of the legacy image come from defs.hpp,
  which is not part of this model. They are abstract names (`KeyFile`,
  `LegacyKo`).
- The `strerror` text is the `strerror` parameter of `UnloadEnv`. It is
  not a fixed table, because the C library supplies it.
- metamodule.hpp has only declarations of script-execution and boot-stage
  plumbing, and is not modelled.
- Concurrent load/unload from separate processes is not modelled. The code
  does not serialise such calls either.
