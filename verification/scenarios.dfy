/**
 Concrete consequences of the lifecycle model: the documented resolver
 examples, a boot with an unrecognisable kernel, the load fallback chain,
 and the retry/escalation cases of unload.
 */
module Scenarios {
  import opened Common
  import opened Text
  import opened Kmi
  import opened Policy
  import opened Loader
  import opened Unloader

  // ---- KMI resolution ----

  /** No `-` before index `n` means the marker cannot start before `n`. */
  lemma NoMarkerBefore(s: string, n: nat)
    requires n <= |s| && '-' !in s[..n]
    ensures forall q: nat | q < n :: !OccursAt(s, AndroidMarker, q)
  {
    forall q: nat | q < n
      ensures s[q] != '-'
    {
      assert s[q] == s[..n][q];
    }
    forall q: nat | q < n
      ensures !OccursAt(s, AndroidMarker, q)
    {
      if q + |AndroidMarker| <= |s| {
        assert s[q..q + |AndroidMarker|][0] == s[q];
      }
    }
  }

  /** The major.minor part of the GKI example release. */
  lemma GkiMajorMinor(s: string)
    requires s == "5.10.101-android12-9-ab1234"
    ensures IsMajorMinor(s, 1, "5.10")
  {
    assert s[..4] == "5.10";
  }

  /** The Android version part of the GKI example release. */
  lemma GkiAndroidVersion(s: string)
    requires s == "5.10.101-android12-9-ab1234"
    ensures IsAndroidVersion(s, 8, "12")
  {
    assert s[..8] == "5.10.101";
    NoMarkerBefore(s, 8);
    assert s[8..16] == AndroidMarker;
    assert s[16..18] == "12";
  }

  /** A GKI release resolves to its Android version and major.minor. */
  lemma GkiReleaseResolves(s: string)
    requires s == "5.10.101-android12-9-ab1234"
    ensures ResolveKmi(s) == "android12-5.10"
  {
    assert "android" + "12" + "-" + "5.10" == "android12-5.10" by {
      var t := "android" + "12" + "-" + "5.10";
      assert |t| == 14;
      assert forall i | 0 <= i < 14 :: t[i] == "android12-5.10"[i];
    }
    GkiMajorMinor(s);
    GkiAndroidVersion(s);
    ResolveKmiCharacterized(s, 1, "5.10", 8, "12");
  }

  /** A release without the Android marker resolves to nothing. */
  lemma PlainReleaseResolvesEmpty()
    ensures ResolveKmi("5.10.101") == ""
  {
    var s := "5.10.101";
    assert s[1] == '.';
  }

  /** A release without any dot resolves to nothing. */
  lemma DotlessReleaseResolvesEmpty()
    ensures ResolveKmi("unknown") == ""
  {
    assert '.' !in "unknown";
  }

  /** With no override and an unrecognisable kernel, a load that has no
      legacy image fails with the image-not-found message and issues no
      load syscall. */
  lemma UnknownKernelFindsNoModule(env: LoadEnv)
    requires !env.loaded && !env.legacyExists
    requires GetKmiOverride(env.store) == ""
    requires ReadFirstLine(env.store, OsReleaseFile) == "unknown"
    ensures !Load(env).ok
    ensures Load(env).lastError == "no matching module found for "
    ensures NoLoadSyscall(Load(env).trace)
  {
    DotlessReleaseResolvesEmpty();
    assert EffectiveKmi(env) == "";
  }

  /** A non-empty override is what the image provider looks for. */
  lemma OverrideSelectsAsset(env: LoadEnv)
    requires !env.loaded && env.baseDirOk && env.mkstempOk
    requires GetKmiOverride(env.store) != ""
    ensures Load(env).trace[1] == CopyAsset(AssetName(GetKmiOverride(env.store), env.arch))
  {
    var kmi := EffectiveKmi(env);
    assert kmi == GetKmiOverride(env.store);
    var (image, t1) := MaterializeImage(kmi, env);
    if image.Some? {
      assert Load(env).trace == ImageTrace(kmi, env, image.value);
      assert Load(env).trace[1] == t1[1];
    }
  }

  /** On a kernel without `finit_module` that already holds the module, an
      extracted image is loaded through `init_module`, counts as success,
      and is removed afterwards. */
  lemma FinitMissingFallsBackToInit(env: LoadEnv)
    requires !env.loaded && CanExtract(EffectiveKmi(env), env)
    requires env.imageOpens && env.imageReadable
    requires env.finit == Fail(ENOSYS) && env.init == Fail(EEXIST)
    ensures Load(env).ok && Load(env).lastError == ""
    ensures Load(env).trace == [
      CreateTemp, CopyAsset(AssetName(EffectiveKmi(env), env.arch)),
      FinitModule(ExtractedTemp, LoadParams), InitModule(ExtractedTemp, LoadParams),
      Unlink(ExtractedTemp)]
  {
  }

  // ---- unload ----

  /** Busy on the first four attempts and freed on the fifth: success
      without the `rmmod` fallback. */
  method BusyThenFreed(env: UnloadEnv) returns (ok: bool, ranRmmod: bool, attempts: nat)
    requires env.loaded
    requires forall k | 0 <= k < 4 :: IsBusy(env.deleteModule(k))
    requires env.deleteModule(4).Done?
    ensures ok && !ranRmmod && attempts == 5
  {
    var lastError, trace;
    ok, lastError, trace, attempts := Unload(env);
    UnloadTraceShape(env, attempts);
    ranRmmod := RunRmmod(RmmodCommand) in trace;
  }

  /** Busy on all five attempts: `rmmod` runs once, last, and decides. */
  method BusyThroughout(env: UnloadEnv) returns (ok: bool, lastError: string, ranRmmod: bool, attempts: nat)
    requires env.loaded
    requires forall k | 0 <= k < 5 :: IsBusy(env.deleteModule(k))
    ensures attempts == 5 && ranRmmod
    ensures ok <==> RmmodSucceeded(env.rmmodStatus)
    ensures !ok ==> EndsWith(lastError, BusyHint)
  {
    var trace;
    ok, lastError, trace, attempts := Unload(env);
    UnloadTraceShape(env, attempts);
    ranRmmod := RunRmmod(RmmodCommand) in trace;
  }

  /** Any error other than EAGAIN/EBUSY ends the retry loop at once and
      goes straight to `rmmod`. */
  method HardErrorSkipsRetry(env: UnloadEnv) returns (ranRmmod: bool, deletes: nat)
    requires env.loaded
    requires env.deleteModule(0).Fail? && !IsBusy(env.deleteModule(0))
    ensures deletes == 1 && ranRmmod
  {
    var ok, lastError, trace, attempts := Unload(env);
    UnloadTraceShape(env, attempts);
    ranRmmod := RunRmmod(RmmodCommand) in trace;
    deletes := DeleteCount(trace);
  }

  /** The failure message for a `rmmod` that exited with status 1. */
  lemma RmmodExitOneMessage()
    ensures RmmodFailedMessage(0x100) == "rmmod " + ModName + " failed, wait_status=" + "256" + ", exit_code=" + "1"
  {
    assert Exited(0x100) && ExitCode(0x100) == 1;
    assert IntToDecimal(256) == "256" by {
      assert NatToDecimal(25) == "25" by {
        assert NatToDecimal(2) == "2";
      }
    }
    assert IntToDecimal(1) == "1";
  }

  /** A `rmmod` that exits with status 1 leaves a failure that names the
      exit code and carries the busy guidance. */
  method RmmodExitOneFails(env: UnloadEnv) returns (ok: bool, lastError: string)
    requires env.loaded && env.rmmodStatus == 0x100
    requires forall k | 0 <= k < 5 :: IsBusy(env.deleteModule(k))
    ensures !ok
    ensures lastError == "rmmod " + ModName + " failed, wait_status=" + "256" + ", exit_code=" + "1" + BusyHint
  {
    var trace, attempts;
    ok, lastError, trace, attempts := Unload(env);
    assert attempts == 5;
    RmmodExitOneMessage();
  }
}
