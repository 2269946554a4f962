/**
 Loading the HymoFS kernel module (`lkm_load`): pick the KMI (a manual
 override first, then the resolver), materialise the matching module image
 (the embedded asset extracted into a temporary file, else the legacy
 installed path), and hand it to `finit_module`, falling back to
 `init_module` on kernels without the former. Every syscall, file creation
 and unlink is abstracted into an input outcome and recorded in a trace.
 */
module Loader {
  import opened Common
  import opened Text
  import opened Kmi
  import opened Policy

  /** The session syscall number the daemon uses to reach the module after load. */
  const HymoSyscallNr: nat := 142

  /** The module parameter string handed to the load syscall. */
  const LoadParams: string := "hymo_syscall_nr=142"

  /** The text of `LoadParams` is the session syscall number in decimal,
      and fits the 64-byte buffer it is formatted into. */
  lemma LoadParamsEncodesSyscallNr()
    ensures LoadParams == "hymo_syscall_nr=" + NatToDecimal(HymoSyscallNr)
    ensures |LoadParams| < 64
  {
    assert NatToDecimal(14) == "14" by {
      assert NatToDecimal(1) == "1";
    }
  }

  /** The build architecture; it only selects the embedded asset's suffix. */
  datatype Arch = Aarch64 | Arm | X86_64 | I386 | OtherArch

  function ArchSuffix(arch: Arch): string {
    match arch
    case Aarch64 => "_arm64"
    case Arm => "_armv7"
    case X86_64 => "_x86_64"
    case I386 => "_arm64"
    case OtherArch => "_arm64"
  }

  /** Name of the embedded module asset for a KMI on an architecture. */
  function AssetName(kmi: string, arch: Arch): string {
    kmi + ArchSuffix(arch) + "_hymofs_lkm.ko"
  }

  /** Where the image handed to the load syscall lives: a freshly extracted
      temporary file, or the fixed legacy installation path. */
  datatype ImagePath = ExtractedTemp | LegacyKo

  /** Observable effects of a load attempt, in order. */
  datatype LoadAction =
    | CreateTemp                                  // mkstemp succeeded
    | CopyAsset(asset: string)                    // copy of the embedded asset into the temp file attempted
    | Unlink(path: ImagePath)                     // a file removed
    | FinitModule(image: ImagePath, params: string)
    | InitModule(image: ImagePath, params: string)
  {
    predicate IsLoadSyscall() {
      FinitModule? || InitModule?
    }

    /** The action uses or removes the extracted temporary file. */
    predicate TouchesTemp() {
      CopyAsset? || (Unlink? && path == ExtractedTemp)
      || (FinitModule? && image == ExtractedTemp) || (InitModule? && image == ExtractedTemp)
    }
  }

  /** Everything `lkm_load` observes from the outside world. */
  datatype LoadEnv = LoadEnv(
    loaded: bool,              // the status probe reports the module loaded
    store: Store,              // policy files and the kernel's osrelease file
    uname: Option<string>,     // release from uname(2); None when the call fails
    arch: Arch,
    baseDirOk: bool,           // the base directory exists or could be created
    mkstempOk: bool,           // a temporary file could be created
    assetCopied: bool,         // the embedded asset for the KMI was copied into it
    legacyExists: bool,        // the legacy installed image exists
    imageOpens: bool,          // open() of the image for finit_module succeeds
    imageReadable: bool,       // open/fstat/malloc/read of the image for init_module succeed
    finit: SysResult,          // what finit_module returns
    init: SysResult)           // what init_module returns

  /** The verdict of `lkm_load`, the last-error string it leaves, and its trace. */
  datatype LoadOutcome = LoadOutcome(ok: bool, lastError: string, trace: seq<LoadAction>)

  // ---- KMI choice and image provider ----

  /** The KMI a load looks for: a non-empty override wins over auto-detection. */
  function EffectiveKmi(env: LoadEnv): (kmi: string)
    ensures GetKmiOverride(env.store) != "" ==> kmi == GetKmiOverride(env.store)
    ensures GetKmiOverride(env.store) == "" ==>
      kmi == CurrentKmi(ReadFirstLine(env.store, OsReleaseFile), env.uname)
  {
    var over := GetKmiOverride(env.store);
    if over != "" then over else CurrentKmi(ReadFirstLine(env.store, OsReleaseFile), env.uname)
  }

  /** The embedded asset can be extracted for this KMI. */
  predicate CanExtract(kmi: string, env: LoadEnv) {
    kmi != "" && env.baseDirOk && env.mkstempOk && env.assetCopied
  }

  /** Some image, extracted or legacy, is available for this KMI. */
  predicate ImageAvailable(kmi: string, env: LoadEnv) {
    CanExtract(kmi, env) || env.legacyExists
  }

  /** The image-resolution step of `lkm_load`: an extracted temporary copy
      of the embedded asset when it can be made, else the legacy path when
      it exists. A temporary file whose copy failed is removed at once. */
  function MaterializeImage(kmi: string, env: LoadEnv): (r: (Option<ImagePath>, seq<LoadAction>))
    ensures r.0 == Some(ExtractedTemp) <==> CanExtract(kmi, env)
    ensures r.0 == Some(LegacyKo) <==> !CanExtract(kmi, env) && env.legacyExists
    ensures r.0.None? <==> !ImageAvailable(kmi, env)
    ensures CreateTemp in r.1 <==> kmi != "" && env.baseDirOk && env.mkstempOk
    ensures CreateTemp in r.1 ==> |r.1| >= 2 && r.1[..2] == [CreateTemp, CopyAsset(AssetName(kmi, env.arch))]
    ensures Unlink(ExtractedTemp) in r.1 <==> CreateTemp in r.1 && !env.assetCopied
    ensures forall i | 0 <= i < |r.1| :: !r.1[i].IsLoadSyscall() && r.1[i] != Unlink(LegacyKo)
  {
    var (extracted, trace) :=
      if kmi != "" && env.baseDirOk && env.mkstempOk then
        if env.assetCopied then (true, [CreateTemp, CopyAsset(AssetName(kmi, env.arch))])
        else (false, [CreateTemp, CopyAsset(AssetName(kmi, env.arch)), Unlink(ExtractedTemp)])
      else (false, []);
    if extracted then (Some(ExtractedTemp), trace)
    else if env.legacyExists then (Some(LegacyKo), trace)
    else (None, trace)
  }

  // ---- load syscalls ----

  /** The syscall phase succeeds: `finit_module` accepts the image, or it
      is missing (ENOSYS) and `init_module` accepts it. */
  predicate SyscallsAccept(env: LoadEnv) {
    env.imageOpens &&
      (LoadAccepted(env.finit) || (env.finit == Fail(ENOSYS) && env.imageReadable && LoadAccepted(env.init)))
  }

  /** `load_module_via_init`: read the whole image and call `init_module`;
      "already loaded" (EEXIST) counts as success. */
  function LoadViaInit(image: ImagePath, env: LoadEnv): (r: (bool, seq<LoadAction>))
    ensures r.0 <==> env.imageReadable && LoadAccepted(env.init)
    ensures !env.imageReadable ==> r.1 == []
    ensures env.imageReadable ==> r.1 == [InitModule(image, LoadParams)]
  {
    if !env.imageReadable then (false, [])
    else (LoadAccepted(env.init), [InitModule(image, LoadParams)])
  }

  /** `load_module_via_finit`: `finit_module` first; ENOSYS, and only
      ENOSYS, falls back to `init_module`; EEXIST counts as success. */
  function LoadViaFinit(image: ImagePath, env: LoadEnv): (r: (bool, seq<LoadAction>))
    ensures r.0 <==> SyscallsAccept(env)
    ensures env.imageOpens ==> |r.1| >= 1 && r.1[0] == FinitModule(image, LoadParams)
    ensures !env.imageOpens ==> r.1 == []
    ensures InitModule(image, LoadParams) in r.1 <==>
      env.imageOpens && env.finit == Fail(ENOSYS) && env.imageReadable
    ensures forall i | 0 <= i < |r.1| :: r.1[i].IsLoadSyscall() && r.1[i].image == image
    ensures |r.1| <= 2
  {
    if !env.imageOpens then (false, [])
    else if env.finit.Fail? && env.finit.errno == ENOSYS then
      var (ok, t) := LoadViaInit(image, env);
      (ok, [FinitModule(image, LoadParams)] + t)
    else (LoadAccepted(env.finit), [FinitModule(image, LoadParams)])
  }

  // ---- lkm_load ----

  /** The last error left when no image is found. */
  function NoModuleMessage(kmi: string): string {
    "no matching module found for " + kmi
  }

  /** The trace issues neither `finit_module` nor `init_module`. */
  predicate NoLoadSyscall(t: seq<LoadAction>) {
    forall i | 0 <= i < |t| :: !t[i].IsLoadSyscall()
  }

  /** The extracted temporary file, once created, is removed, and nothing
      uses it after its removal; the legacy image is never removed. */
  predicate TempCleanedUp(t: seq<LoadAction>) {
    && (CreateTemp in t ==> Unlink(ExtractedTemp) in t)
    && (forall i, j | 0 <= i < j < |t| && t[i] == Unlink(ExtractedTemp) :: !t[j].TouchesTemp())
    && Unlink(LegacyKo) !in t
  }

  /** `finit_module` is always the first load syscall, and `init_module`
      only ever follows a `finit_module` that reported ENOSYS. */
  predicate FinitFirst(t: seq<LoadAction>, finit: SysResult) {
    forall i | 0 <= i < |t| && t[i].InitModule? :: 0 < i && t[i - 1].FinitModule? && finit == Fail(ENOSYS)
  }

  /** `lkm_load`. */
  function Load(env: LoadEnv): (r: LoadOutcome)
    // already loaded: nothing is looked up and no syscall is issued
    ensures env.loaded ==> r.ok && r.lastError == "" && r.trace == []
    // no image: failure naming the KMI, and no load syscall
    ensures !env.loaded && !ImageAvailable(EffectiveKmi(env), env) ==>
      !r.ok && r.lastError == NoModuleMessage(EffectiveKmi(env))
    ensures !NoLoadSyscall(r.trace) <==> !env.loaded && ImageAvailable(EffectiveKmi(env), env) && env.imageOpens
    // the verdict
    ensures r.ok <==> env.loaded || (ImageAvailable(EffectiveKmi(env), env) && SyscallsAccept(env))
    // the last error is cleared, and only a missing image sets it
    ensures r.lastError != "" ==> !r.ok && !ImageAvailable(EffectiveKmi(env), env)
    // resource discipline and syscall order
    ensures TempCleanedUp(r.trace)
    ensures FinitFirst(r.trace, env.finit)
    ensures forall i | 0 <= i < |r.trace| && r.trace[i].IsLoadSyscall() ::
      r.trace[i].params == LoadParams &&
      (r.trace[i].image == ExtractedTemp <==> CanExtract(EffectiveKmi(env), env))
  {
    if env.loaded then LoadOutcome(true, "", [])
    else
      var kmi := EffectiveKmi(env);
      var (image, t1) := MaterializeImage(kmi, env);
      match image
      case None => LoadOutcome(false, NoModuleMessage(kmi), t1)
      case Some(path) =>
        ComposedTrace(kmi, env, path);
        LoadOutcome(LoadViaFinit(path, env).0, "", ImageTrace(kmi, env, path))
  }

  /** The trace of a load that found an image: image resolution, then the
      syscalls, then removal of an extracted image. */
  function ImageTrace(kmi: string, env: LoadEnv, path: ImagePath): seq<LoadAction> {
    MaterializeImage(kmi, env).1 + LoadViaFinit(path, env).1
      + (if path == ExtractedTemp then [Unlink(ExtractedTemp)] else [])
  }

  /** The syscall part of a load trace has one of three shapes. */
  lemma SyscallTraceShapes(path: ImagePath, env: LoadEnv)
    ensures var t2 := LoadViaFinit(path, env).1;
      || t2 == []
      || t2 == [FinitModule(path, LoadParams)]
      || (t2 == [FinitModule(path, LoadParams), InitModule(path, LoadParams)] && env.finit == Fail(ENOSYS))
  {
  }

  /** The image-resolution part of a load trace has one of three shapes. */
  lemma ImageTraceShapes(kmi: string, env: LoadEnv)
    ensures var (image, t1) := MaterializeImage(kmi, env);
      || (t1 == [] && image != Some(ExtractedTemp))
      || (t1 == [CreateTemp, CopyAsset(AssetName(kmi, env.arch))] && image == Some(ExtractedTemp))
      || (t1 == [CreateTemp, CopyAsset(AssetName(kmi, env.arch)), Unlink(ExtractedTemp)]
          && image != Some(ExtractedTemp))
  {
  }

  /** A load trace that found an image issues a syscall exactly when the
      image opens, keeps the temporary-file discipline, and issues
      `finit_module` first, always with the module parameters. */
  lemma ComposedTrace(kmi: string, env: LoadEnv, path: ImagePath)
    requires MaterializeImage(kmi, env).0 == Some(path)
    ensures !NoLoadSyscall(ImageTrace(kmi, env, path)) <==> env.imageOpens
    ensures TempCleanedUp(ImageTrace(kmi, env, path))
    ensures FinitFirst(ImageTrace(kmi, env, path), env.finit)
    ensures forall i | 0 <= i < |ImageTrace(kmi, env, path)| && ImageTrace(kmi, env, path)[i].IsLoadSyscall() ::
      ImageTrace(kmi, env, path)[i].params == LoadParams && ImageTrace(kmi, env, path)[i].image == path
  {
    ImageTraceSyscalls(kmi, env, path);
    ImageTraceCleanup(kmi, env, path);
  }

  /** Which load syscalls a load trace that found an image issues, and in what order. */
  lemma ImageTraceSyscalls(kmi: string, env: LoadEnv, path: ImagePath)
    requires MaterializeImage(kmi, env).0 == Some(path)
    ensures !NoLoadSyscall(ImageTrace(kmi, env, path)) <==> env.imageOpens
    ensures FinitFirst(ImageTrace(kmi, env, path), env.finit)
    ensures forall i | 0 <= i < |ImageTrace(kmi, env, path)| && ImageTrace(kmi, env, path)[i].IsLoadSyscall() ::
      ImageTrace(kmi, env, path)[i].params == LoadParams && ImageTrace(kmi, env, path)[i].image == path
  {
    SyscallTraceShapes(path, env);
    ImageTraceShapes(kmi, env);
    var t1 := MaterializeImage(kmi, env).1;
    var t2 := LoadViaFinit(path, env).1;
    var cleanup: seq<LoadAction> := if path == ExtractedTemp then [Unlink(ExtractedTemp)] else [];
    assert ImageTrace(kmi, env, path) == t1 + t2 + cleanup;
    if env.imageOpens {
      assert ImageTrace(kmi, env, path)[|t1|] == t2[0];
    }
  }

  /** A load trace that found an image removes the temporary file it
      created, and nothing touches that file afterwards. */
  lemma ImageTraceCleanup(kmi: string, env: LoadEnv, path: ImagePath)
    requires MaterializeImage(kmi, env).0 == Some(path)
    ensures TempCleanedUp(ImageTrace(kmi, env, path))
  {
    SyscallTraceShapes(path, env);
    ImageTraceShapes(kmi, env);
    var t1 := MaterializeImage(kmi, env).1;
    var t2 := LoadViaFinit(path, env).1;
    var cleanup: seq<LoadAction> := if path == ExtractedTemp then [Unlink(ExtractedTemp)] else [];
    assert ImageTrace(kmi, env, path) == t1 + t2 + cleanup;
  }

  /** `lkm_autoload_post_fs_data`: at boot, load the module when the policy
      allows it and it is not loaded yet; otherwise do nothing (`None`). */
  function AutoloadPostFsData(env: LoadEnv): (r: Option<LoadOutcome>)
    ensures r.Some? <==> GetAutoload(env.store) && !env.loaded
    ensures r.Some? ==> r.value == Load(env)
  {
    if GetAutoload(env.store) && !env.loaded then Some(Load(env)) else None
  }

  /** A durably set, non-empty, single-line override is the KMI the next
      load looks for, whatever the kernel reports. */
  lemma SetOverrideDecidesKmi(env: LoadEnv, kmi: string, io: WriteFaults)
    requires WriteDurable(io) && kmi != "" && '\n' !in kmi
    ensures EffectiveKmi(env.(store := SetKmiOverride(env.store, kmi, io).store)) == kmi
  {
  }

  /** After the override is cleared, the next load looks for the tag
      auto-detected from the unchanged osrelease file and `uname`. */
  lemma ClearedOverrideAutoDetects(env: LoadEnv)
    ensures EffectiveKmi(env.(store := ClearKmiOverride(env.store, None).store))
         == CurrentKmi(ReadFirstLine(env.store, OsReleaseFile), env.uname)
  {
    var c := ClearKmiOverride(env.store, None).store;
    assert OsReleaseFile in c <==> OsReleaseFile in env.store by {
      assert OsReleaseFile in c - {KmiOverrideFile} <==> OsReleaseFile in env.store - {KmiOverrideFile};
    }
    if OsReleaseFile in env.store {
      assert c[OsReleaseFile] == (c - {KmiOverrideFile})[OsReleaseFile];
    }
  }

  /** After autoload is durably switched off, the boot hook does nothing. */
  lemma DisabledAutoloadSkipsBoot(env: LoadEnv, io: WriteFaults)
    requires WriteDurable(io)
    ensures AutoloadPostFsData(env.(store := SetAutoload(env.store, false, io).store)).None?
  {
  }

  /** Without an autoload file (a fresh install), the boot hook loads the
      module when it is not loaded yet. */
  lemma FreshInstallAutoloads(env: LoadEnv)
    requires AutoloadFile !in env.store && !env.loaded
    ensures AutoloadPostFsData(env) == Some(Load(env))
  {
  }

  /** Loading is idempotent: once the probe reports the module loaded, any
      repeated call succeeds without a syscall, whatever else the world says. */
  lemma LoadIdempotent(env: LoadEnv, env': LoadEnv)
    requires env.loaded && env'.loaded
    ensures Load(env) == Load(env') == LoadOutcome(true, "", [])
  {
  }
}
