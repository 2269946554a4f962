/**
 KMI resolution: turning the running kernel's release string into the
 kernel-module-interface tag `android<N>-<major>.<minor>` that names the
 prebuilt module image, or `""` when the release carries no such tag.
 */
module Kmi {
  import opened Common
  import opened Text

  /** The marker that precedes the Android version in a GKI release string. */
  const AndroidMarker: string := "-android"

  /** `mm` is the "major.minor" part of `release` as the resolver cuts it:
      a prefix holding exactly one dot, at index `dot`, that stops at the
      second dot or runs to the end of the string. */
  predicate IsMajorMinor(release: string, dot: nat, mm: string) {
    && |mm| <= |release| && mm == release[..|mm|]
    && dot < |mm| && mm[dot] == '.'
    && (forall j | 0 <= j < |mm| && j != dot :: mm[j] != '.')
    && (|mm| == |release| || release[|mm|] == '.')
  }

  /** `v` is the Android version that the resolver reads: the text right
      after the first `-android`, which starts at `p`, up to the next `-`
      or the end of the string. */
  predicate IsAndroidVersion(release: string, p: nat, v: string) {
    && FirstOccurrence(release, AndroidMarker, p)
    && OccursAt(release, v, p + |AndroidMarker|)
    && '-' !in v
    && (p + |AndroidMarker| + |v| == |release| || release[p + |AndroidMarker| + |v|] == '-')
  }

  /** `s.find(c, from)`, with npos read as the end of the string. */
  function FindCharOrEnd(s: string, c: char, from: nat): (e: nat)
    requires from <= |s|
    ensures from <= e <= |s|
    ensures forall j | from <= j < e :: s[j] != c
    ensures e == |s| || s[e] == c
  {
    match FindChar(s, c, from)
    case None => |s|
    case Some(i) => i
  }

  /** The end found by `FindCharOrEnd` is the only index with its two properties. */
  lemma FindCharOrEndUnique(s: string, c: char, from: nat, e: nat)
    requires from <= e <= |s|
    requires forall j | from <= j < e :: s[j] != c
    requires e == |s| || s[e] == c
    ensures FindCharOrEnd(s, c, from) == e
  {
  }

  /** The major.minor part cut at the first dot `dot1`: up to the next dot
      or the end of the string. */
  function MajorMinorAt(release: string, dot1: nat): string
    requires dot1 < |release|
  {
    release[..FindCharOrEnd(release, '.', dot1 + 1)]
  }

  /** The Android version read after the marker found at `pos`: up to the
      next `-` or the end of the string. */
  function VersionAt(release: string, pos: nat): string
    requires pos + |AndroidMarker| <= |release|
  {
    var verStart := pos + |AndroidMarker|;
    release[verStart..FindCharOrEnd(release, '-', verStart)]
  }

  /** The KMI tag the resolver returns for a release string. */
  function ResolveKmi(release: string): (kmi: string)
    ensures kmi == "" <==> '.' !in release || !Contains(release, AndroidMarker)
    ensures kmi != "" ==> |kmi| > 7 && kmi[..7] == "android"
  {
    match FindChar(release, '.', 0)
    case None => ""
    case Some(dot1) =>
      match FindSub(release, AndroidMarker, 0)
      case None => ""
      case Some(pos) => "android" + VersionAt(release, pos) + "-" + MajorMinorAt(release, dot1)
  }

  /** The result of the resolver is fully determined by the declarative
      description of its two parts. */
  lemma ResolveKmiCharacterized(release: string, dot: nat, mm: string, p: nat, v: string)
    requires IsMajorMinor(release, dot, mm)
    requires IsAndroidVersion(release, p, v)
    ensures ResolveKmi(release) == "android" + v + "-" + mm
  {
    FirstDot(release, dot, mm);
    MajorMinorAtIs(release, dot, mm);
    FindSubFromStart(release, AndroidMarker, p);
    VersionAtIs(release, p, v);
  }

  /** The cut at the first dot yields the major.minor part. */
  lemma MajorMinorAtIs(release: string, dot: nat, mm: string)
    requires IsMajorMinor(release, dot, mm)
    ensures MajorMinorAt(release, dot) == mm
  {
    FindCharOrEndUnique(release, '.', dot + 1, |mm|);
  }

  /** The cut after the marker yields the Android version. */
  lemma VersionAtIs(release: string, p: nat, v: string)
    requires IsAndroidVersion(release, p, v)
    ensures VersionAt(release, p) == v
  {
    var verStart := p + |AndroidMarker|;
    assert release[verStart..verStart + |v|] == v;
    FindCharOrEndUnique(release, '-', verStart, verStart + |v|);
  }

  /** The dot of a major.minor part is the first dot of the release. */
  lemma FirstDot(release: string, dot: nat, mm: string)
    requires IsMajorMinor(release, dot, mm)
    ensures FindChar(release, '.', 0) == Some(dot)
  {
    assert release[dot] == '.';
    assert forall j | 0 <= j < dot :: release[j] == mm[j];
  }

  /** A release with a dot has a major.minor part. */
  lemma MajorMinorPart(release: string) returns (dot: nat, mm: string)
    requires '.' in release
    ensures IsMajorMinor(release, dot, mm)
  {
    dot := FindChar(release, '.', 0).value;
    mm := MajorMinorAt(release, dot);
    assert forall j | 0 <= j < |mm| :: mm[j] == release[j];
  }

  /** A release holding the marker has an Android version part. */
  lemma AndroidVersionPart(release: string) returns (p: nat, v: string)
    requires Contains(release, AndroidMarker)
    ensures IsAndroidVersion(release, p, v)
  {
    p := FindSub(release, AndroidMarker, 0).value;
    var verStart := p + |AndroidMarker|;
    v := VersionAt(release, p);
    assert forall j | 0 <= j < |v| :: v[j] == release[verStart + j];
  }

  /** Whenever the resolver returns a tag, its parts are a major.minor prefix
      and an Android version in the sense above. */
  lemma ResolveKmiParts(release: string) returns (dot: nat, mm: string, p: nat, v: string)
    requires ResolveKmi(release) != ""
    ensures IsMajorMinor(release, dot, mm)
    ensures IsAndroidVersion(release, p, v)
    ensures ResolveKmi(release) == "android" + v + "-" + mm
  {
    dot, mm := MajorMinorPart(release);
    p, v := AndroidVersionPart(release);
    ResolveKmiCharacterized(release, dot, mm, p, v);
  }

  /** `get_current_kmi`: the release string comes from the kernel's own
      osrelease file, which the module's uname spoofing cannot alter; only
      when that reads empty is the `uname` release used, and a failing
      `uname` call (`None`) yields no tag. */
  function CurrentKmi(osrelease: string, uname: Option<string>): (kmi: string)
    ensures osrelease != "" ==> kmi == ResolveKmi(osrelease)
    ensures osrelease == "" && uname.None? ==> kmi == ""
    ensures osrelease == "" && uname.Some? ==> kmi == ResolveKmi(uname.value)
  {
    if osrelease != "" then ResolveKmi(osrelease)
    else match uname
      case None => ""
      case Some(release) => ResolveKmi(release)
  }

  /** Once the kernel's own osrelease file yields a release, the `uname`
      answer, which the module can spoof, has no influence on the tag. */
  lemma CurrentKmiIgnoresUname(osrelease: string, uname: Option<string>, uname': Option<string>)
    requires osrelease != ""
    ensures CurrentKmi(osrelease, uname) == CurrentKmi(osrelease, uname')
  {
  }
}
