/**
 How the build script settles the project version from its `-P` properties.

 The declared version is rewritten by three steps in order: `release`
 deletes every "-SNAPSHOT" of a version that ends in one, `versionTag`
 replaces every "-SNAPSHOT" of such a version with "-<tag>" (and aborts the
 build on a version that does not end in "-SNAPSHOT"), and `releaseVersion`
 replaces the version outright.
 */
module BuildVersion {

  /** The version the build script declares. */
  const DeclaredVersion: string := "0.12.0-jf.1"

  const Snapshot: string := "-SNAPSHOT"

  const VersionTagError: string := "Could not apply 'versionTag' together with non-snapshot version."

  datatype Option<T> = None | Some(value: T)

  /** The project properties the version block consults; `release` only
      matters by being present. */
  datatype Properties = Properties(release: bool, versionTag: Option<string>, releaseVersion: Option<string>)

  /** Either the version the project ends up with, or the build error. */
  datatype Outcome = Configured(version: string) | Failed(message: string)

  predicate EndsWith(s: string, suffix: string): (b: bool)
    ensures b <==> |suffix| <= |s| && forall k :: 0 <= k < |suffix| ==> s[|s| - |suffix| + k] == suffix[k]
  {
    |suffix| <= |s| && s[|s| - |suffix|..] == suffix
  }

  /** "-SNAPSHOT" occurs in `s` starting at index `i`. */
  predicate OccursAt(s: string, i: int) {
    0 <= i && i + |Snapshot| <= |s| && s[i..i + |Snapshot|] == Snapshot
  }

  lemma NoOccurrenceWithoutDash(s: string, i: int)
    requires 0 <= i < |s| && s[i] != '-'
    ensures !OccursAt(s, i)
  {
    if i + |Snapshot| <= |s| {
      assert s[i..i + |Snapshot|][0] == s[i];
    }
  }

  /** Kotlin's `String.replace("-SNAPSHOT", replacement)`: every occurrence,
      found left to right without overlap, is replaced. */
  function ReplaceSnapshot(s: string, replacement: string): (r: string)
    ensures replacement == Snapshot ==> r == s
    decreases |s|
  {
    if |s| < |Snapshot| then s
    else if s[..|Snapshot|] == Snapshot then replacement + ReplaceSnapshot(s[|Snapshot|..], replacement)
    else [s[0]] + ReplaceSnapshot(s[1..], replacement)
  }

  /** Number of occurrences `ReplaceSnapshot` replaces. */
  function SnapshotCount(s: string): nat
    decreases |s|
  {
    if |s| < |Snapshot| then 0
    else if s[..|Snapshot|] == Snapshot then 1 + SnapshotCount(s[|Snapshot|..])
    else SnapshotCount(s[1..])
  }

  /** Each replaced occurrence trades the nine characters of "-SNAPSHOT" for
      the replacement; nothing else changes length. */
  lemma {:induction false} ReplaceSnapshotLength(s: string, replacement: string)
    ensures |ReplaceSnapshot(s, replacement)| == |s| + SnapshotCount(s) * (|replacement| - |Snapshot|)
    decreases |s|
  {
    if |s| < |Snapshot| {
    } else if s[..|Snapshot|] == Snapshot {
      var rest := s[|Snapshot|..];
      ReplaceSnapshotLength(rest, replacement);
      var c, d := SnapshotCount(rest), |replacement| - |Snapshot|;
      assert SnapshotCount(s) == c + 1;
      assert |ReplaceSnapshot(s, replacement)| == |replacement| + |ReplaceSnapshot(rest, replacement)|;
      assert |ReplaceSnapshot(rest, replacement)| == |rest| + c * d;
      MulSucc(c, d);
    } else {
      ReplaceSnapshotLength(s[1..], replacement);
      assert SnapshotCount(s) == SnapshotCount(s[1..]);
      assert |ReplaceSnapshot(s, replacement)| == 1 + |ReplaceSnapshot(s[1..], replacement)|;
    }
  }

  lemma MulSucc(c: nat, d: int)
    ensures (c + 1) * d == c * d + d
  {
  }

  /** A text without "-SNAPSHOT" is left as it is. */
  lemma {:induction false} ReplaceSnapshotAbsent(s: string, replacement: string)
    requires forall i :: 0 <= i <= |s| ==> !OccursAt(s, i)
    ensures ReplaceSnapshot(s, replacement) == s
    ensures SnapshotCount(s) == 0
    decreases |s|
  {
    if |s| >= |Snapshot| {
      assert !OccursAt(s, 0);
      forall i | 0 <= i <= |s[1..]|
        ensures !OccursAt(s[1..], i)
      {
        assert !OccursAt(s, i + 1);
        if i + |Snapshot| <= |s[1..]| {
          assert s[1..][i..i + |Snapshot|] == s[i + 1..i + 1 + |Snapshot|];
        }
      }
      ReplaceSnapshotAbsent(s[1..], replacement);
    }
  }

  /** A snapshot version whose only "-SNAPSHOT" is the suffix gets exactly
      that suffix replaced. */
  lemma {:induction false} ReplaceSnapshotSuffix(base: string, replacement: string)
    requires forall i :: 0 <= i < |base| ==> !OccursAt(base + Snapshot, i)
    ensures ReplaceSnapshot(base + Snapshot, replacement) == base + replacement
    ensures SnapshotCount(base + Snapshot) == 1
    decreases |base|
  {
    var s := base + Snapshot;
    if |base| == 0 {
      assert s == Snapshot;
      assert s[|Snapshot|..] == [];
    } else {
      assert !OccursAt(s, 0);
      assert s[1..] == base[1..] + Snapshot;
      forall i | 0 <= i < |base[1..]|
        ensures !OccursAt(base[1..] + Snapshot, i)
      {
        assert !OccursAt(s, i + 1);
        assert s[1..][i..i + |Snapshot|] == s[i + 1..i + 1 + |Snapshot|];
      }
      ReplaceSnapshotSuffix(base[1..], replacement);
      assert [base[0]] + (base[1..] + replacement) == base + replacement;
    }
  }

  /** Every index at which "-SNAPSHOT" starts in `s`, overlapping or not. */
  function Occurrences(s: string): set<nat> {
    set i: nat | i <= |s| && OccursAt(s, i)
  }

  function Shift(a: set<nat>, k: nat): set<nat> {
    set i | i in a :: i + k
  }

  lemma ShiftSize(a: set<nat>, k: nat)
    ensures |Shift(a, k)| == |a|
  {
    if a != {} {
      var x :| x in a;
      var smaller := Shift(a - {x}, k);
      ShiftSize(a - {x}, k);
      forall y | y in Shift(a, k)
        ensures y in smaller + {x + k}
      {
        var i :| i in a && y == i + k;
        if i != x {
          assert i in a - {x};
        }
      }
      assert Shift(a, k) == smaller + {x + k};
      assert x + k !in smaller;
    }
  }

  /** Occurrences in `s[k..]` are those of `s` from index `k` on, moved by `k`. */
  lemma OccursShift(s: string, k: nat, i: nat)
    requires k <= |s|
    ensures OccursAt(s, i + k) <==> OccursAt(s[k..], i)
  {
    if i + k + |Snapshot| <= |s| {
      assert s[i + k..i + k + |Snapshot|] == s[k..][i..i + |Snapshot|];
    }
  }

  /** The occurrences of `s` all lie at or after `k`. */
  lemma OccurrencesFrom(s: string, k: nat)
    requires k <= |s|
    requires forall i :: 0 <= i < k ==> !OccursAt(s, i)
    ensures Occurrences(s) == Shift(Occurrences(s[k..]), k)
  {
    forall i | i in Occurrences(s)
      ensures i in Shift(Occurrences(s[k..]), k)
    {
      OccursShift(s, k, i - k);
      assert i - k in Occurrences(s[k..]);
    }
    forall j | j in Occurrences(s[k..])
      ensures j + k in Occurrences(s)
    {
      OccursShift(s, k, j);
    }
  }

  /** "-SNAPSHOT" cannot overlap itself: none starts strictly inside another. */
  lemma NoOverlap(s: string, i: nat)
    requires OccursAt(s, 0) && 0 < i < |Snapshot|
    ensures !OccursAt(s, i)
  {
    assert s[i] == s[..|Snapshot|][i] == Snapshot[i];
    NoOccurrenceWithoutDash(s, i);
  }

  /** The left-to-right scan counts every occurrence: because "-SNAPSHOT"
      cannot overlap itself, no occurrence is skipped over. */
  lemma {:induction false} SnapshotCountIsOccurrences(s: string)
    ensures SnapshotCount(s) == |Occurrences(s)|
    decreases |s|
  {
    if |s| < |Snapshot| {
      assert Occurrences(s) == {};
    } else if s[..|Snapshot|] == Snapshot {
      var rest := s[|Snapshot|..];
      assert OccursAt(s, 0);
      forall i | 1 <= i < |Snapshot|
        ensures !OccursAt(s, i)
      {
        NoOverlap(s, i);
      }
      SnapshotCountIsOccurrences(rest);
      var later := Shift(Occurrences(rest), |Snapshot|);
      forall i | i in Occurrences(s)
        ensures i == 0 || i in later
      {
        if i >= |Snapshot| {
          OccursShift(s, |Snapshot|, i - |Snapshot|);
          assert i - |Snapshot| in Occurrences(rest);
        }
      }
      forall j | j in Occurrences(rest)
        ensures j + |Snapshot| in Occurrences(s)
      {
        OccursShift(s, |Snapshot|, j);
      }
      assert Occurrences(s) == {0} + later;
      ShiftSize(Occurrences(rest), |Snapshot|);
    } else {
      assert !OccursAt(s, 0);
      OccurrencesFrom(s, 1);
      SnapshotCountIsOccurrences(s[1..]);
      ShiftSize(Occurrences(s[1..]), 1);
    }
  }

  /** Where no occurrence starts inside `a`, the replacement leaves `a` as it
      is and works on the rest alone. */
  lemma {:induction false} ReplaceSnapshotSkipsPrefix(a: string, b: string, replacement: string)
    requires forall i :: 0 <= i < |a| ==> !OccursAt(a + b, i)
    ensures ReplaceSnapshot(a + b, replacement) == a + ReplaceSnapshot(b, replacement)
    decreases |a|
  {
    if a != [] {
      var s := a + b;
      NoOccurrenceInTail(a, b);
      ReplaceSnapshotSkipsPrefix(a[1..], b, replacement);
      ReplaceSnapshotCopyStep(s, replacement);
      ConsAppend(a, ReplaceSnapshot(b, replacement));
    } else {
      assert a + b == b;
    }
  }

  lemma NoOccurrenceInTail(a: string, b: string)
    requires a != []
    requires forall i :: 0 <= i < |a| ==> !OccursAt(a + b, i)
    ensures (a + b)[1..] == a[1..] + b
    ensures forall i :: 0 <= i < |a[1..]| ==> !OccursAt(a[1..] + b, i)
  {
    var s := a + b;
    assert s[1..] == a[1..] + b;
    forall i | 0 <= i < |a[1..]|
      ensures !OccursAt(a[1..] + b, i)
    {
      OccursShift(s, 1, i);
    }
  }

  /** Regrouping `[a[0]] + (a[1..] + t)`, apart so that its caller's proof
      stays small. */
  lemma ConsAppend(a: string, t: string)
    requires a != []
    ensures [a[0]] + (a[1..] + t) == a + t
  {
    assert [a[0]] + a[1..] == a;
  }

  /** Where no "-SNAPSHOT" starts, the first character is copied. */
  lemma ReplaceSnapshotCopyStep(s: string, replacement: string)
    requires |s| > 0 && !OccursAt(s, 0)
    ensures ReplaceSnapshot(s, replacement) == [s[0]] + ReplaceSnapshot(s[1..], replacement)
  {
    if |s| >= |Snapshot| {
      assert s[..|Snapshot|] != Snapshot;
    }
  }

  /** Step of the `release` property: a snapshot version gets shorter by
      nine characters per "-SNAPSHOT" it holds; any other version is kept. */
  function ApplyRelease(version: string, release: bool): (v: string)
    ensures release && EndsWith(version, Snapshot) ==>
      |v| == |version| - |Snapshot| * |Occurrences(version)| < |version|
    ensures !(release && EndsWith(version, Snapshot)) ==> v == version
  {
    if release && EndsWith(version, Snapshot) then
      DeleteLength(version);
      SuffixIsCounted(version);
      ReplaceSnapshot(version, "")
    else version
  }

  /** Step of the `versionTag` property: it fails exactly on a version that
      does not end in "-SNAPSHOT"; otherwise each "-SNAPSHOT" gives way to
      "-<tag>". */
  function ApplyVersionTag(version: string, versionTag: Option<string>): (o: Outcome)
    ensures o.Failed? <==> versionTag.Some? && !EndsWith(version, Snapshot)
    ensures o.Failed? ==> o.message == VersionTagError
    ensures versionTag.None? ==> o == Configured(version)
    ensures o.Configured? && versionTag.Some? ==>
      |o.version| == |version| + |Occurrences(version)| * (|versionTag.value| + 1 - |Snapshot|)
  {
    match versionTag
    case None => Configured(version)
    case Some(tag) =>
      if EndsWith(version, Snapshot) then
        ReplaceSnapshotLength(version, "-" + tag);
        SnapshotCountIsOccurrences(version);
        Configured(ReplaceSnapshot(version, "-" + tag))
      else Failed(VersionTagError)
  }

  /** The three steps in the order the script runs them; an error stops the
      sequence, and `releaseVersion`, when reached, decides the version. */
  function Resolve(declared: string, props: Properties): (r: Outcome)
    ensures r.Failed? <==> props.versionTag.Some? && !EndsWith(ApplyRelease(declared, props.release), Snapshot)
    ensures r.Failed? ==> r.message == VersionTagError
    ensures r.Configured? && props.releaseVersion.Some? ==> r.version == props.releaseVersion.value
    ensures props.versionTag.None? && props.releaseVersion.None? ==>
      r == Configured(ApplyRelease(declared, props.release))
  {
    match ApplyVersionTag(ApplyRelease(declared, props.release), props.versionTag)
    case Failed(message) => Failed(message)
    case Configured(v) => Configured(if props.releaseVersion.Some? then props.releaseVersion.value else v)
  }

  /** The project whose `version` property the script reassigns. */
  class Project {
    var version: string

    constructor (declared: string)
      ensures version == declared
    {
      version := declared;
    }

    /** The version block of the build script, run on this project. When it
        fails, the version is left as the `release` step made it. */
    method ConfigureVersion(props: Properties) returns (outcome: Outcome)
      modifies this
      ensures outcome == Resolve(old(version), props)
      ensures outcome.Configured? ==> version == outcome.version
      ensures outcome.Failed? ==> version == ApplyRelease(old(version), props.release)
    {
      if props.release {
        var versionString := version;
        if EndsWith(versionString, Snapshot) {
          version := ReplaceSnapshot(versionString, "");
        }
      }
      if props.versionTag.Some? {
        var versionString := version;
        var versionTag := props.versionTag.value;
        if EndsWith(versionString, Snapshot) {
          version := ReplaceSnapshot(versionString, "-" + versionTag);
        } else {
          return Failed(VersionTagError);
        }
      }
      if props.releaseVersion.Some? {
        version := props.releaseVersion.value;
      }
      return Configured(version);
    }
  }

  /** With no properties set, the declared version stands. */
  lemma NoPropertiesKeepDeclared(declared: string)
    ensures Resolve(declared, Properties(false, None, None)) == Configured(declared)
  {
  }

  /** `release` on a version that is not a snapshot changes nothing. */
  lemma ReleaseKeepsNonSnapshot(declared: string)
    requires !EndsWith(declared, Snapshot)
    ensures Resolve(declared, Properties(true, None, None)) == Configured(declared)
  {
  }

  /** `release` on a snapshot version deletes its "-SNAPSHOT" suffix. */
  lemma ReleaseStripsSnapshot(base: string)
    requires forall i :: 0 <= i < |base| ==> !OccursAt(base + Snapshot, i)
    ensures Resolve(base + Snapshot, Properties(true, None, None)) == Configured(base)
  {
    ReplaceSnapshotSuffix(base, "");
    assert (base + Snapshot)[|base|..] == Snapshot;
  }

  /** A version ending in "-SNAPSHOT" has its suffix among its occurrences,
      so it has at least one. */
  lemma SuffixIsCounted(s: string)
    requires EndsWith(s, Snapshot)
    ensures |s| - |Snapshot| in Occurrences(s)
    ensures |Occurrences(s)| >= 1
  {
    SuffixOccurs(s);
    NonEmptySize(Occurrences(s), |s| - |Snapshot|);
  }

  lemma SuffixOccurs(s: string)
    requires EndsWith(s, Snapshot)
    ensures OccursAt(s, |s| - |Snapshot|)
  {
    var tail := |s| - |Snapshot|;
    assert s[tail..tail + |Snapshot|] == s[tail..];
  }

  lemma NonEmptySize(a: set<nat>, x: nat)
    requires x in a
    ensures |a| >= 1
  {
    assert |a - {x}| + 1 == |a|;
  }

  /** Deleting every "-SNAPSHOT" removes nine characters per occurrence. */
  lemma DeleteLength(s: string)
    ensures |ReplaceSnapshot(s, "")| == |s| - |Snapshot| * |Occurrences(s)|
  {
    SnapshotCountIsOccurrences(s);
    ReplaceSnapshotLength(s, "");
    DeletedLength(|ReplaceSnapshot(s, "")|, |s|, SnapshotCount(s), |Occurrences(s)|, |Snapshot|);
  }

  /** The arithmetic step of `DeleteLength`, on plain numbers so that its
      caller's proof stays small. */
  lemma DeletedLength(newLength: int, oldLength: int, count: nat, occurrences: nat, patternLength: nat)
    requires newLength == oldLength + count * (0 - patternLength) && count == occurrences
    ensures newLength == oldLength - patternLength * occurrences
  {
  }

  /** `release` on a snapshot version deletes every occurrence of
      "-SNAPSHOT", the suffix among them. */
  lemma ReleaseDeletesSnapshots(s: string)
    requires EndsWith(s, Snapshot)
    ensures Resolve(s, Properties(true, None, None)) == Configured(ReplaceSnapshot(s, ""))
    ensures |s| - |Snapshot| in Occurrences(s)
    ensures |ReplaceSnapshot(s, "")| == |s| - |Snapshot| * |Occurrences(s)|
  {
    DeleteLength(s);
    SuffixIsCounted(s);
    var r := ReplaceSnapshot(s, "");
    assert ApplyRelease(s, true) == r;
    assert ApplyVersionTag(r, None) == Configured(r);
  }

  /** `versionTag` on a snapshot version puts "-<tag>" in place of "-SNAPSHOT". */
  lemma VersionTagReplacesSnapshot(base: string, tag: string)
    requires forall i :: 0 <= i < |base| ==> !OccursAt(base + Snapshot, i)
    ensures Resolve(base + Snapshot, Properties(false, Some(tag), None)) == Configured(base + "-" + tag)
  {
    ReplaceSnapshotSuffix(base, "-" + tag);
    assert (base + Snapshot)[|base|..] == Snapshot;
  }

  /** A base without a dash has no "-SNAPSHOT" of its own, so the only one in
      `base + "-SNAPSHOT"` is the suffix. */
  lemma SnapshotOnlyAtEnd(base: string)
    requires '-' !in base
    ensures forall i :: 0 <= i < |base| ==> !OccursAt(base + Snapshot, i)
  {
    forall i | 0 <= i < |base|
      ensures !OccursAt(base + Snapshot, i)
    {
      assert (base + Snapshot)[i] == base[i];
      NoOccurrenceWithoutDash(base + Snapshot, i);
    }
  }

  /** The example of the build script's comment: "0.6.13-SNAPSHOT" with tag
      "my-tag" becomes "0.6.13-my-tag". */
  lemma VersionTagExample()
    ensures Resolve("0.6.13" + Snapshot, Properties(false, Some("my-tag"), None)) == Configured("0.6.13" + "-" + "my-tag")
  {
    var base := "0.6.13";
    assert '-' !in base;
    SnapshotOnlyAtEnd(base);
    VersionTagReplacesSnapshot(base, "my-tag");
  }

  /** `versionTag` on a version that is not a snapshot (after the `release`
      step) is a build error, whatever `releaseVersion` says. */
  lemma VersionTagRejectsNonSnapshot(declared: string, props: Properties)
    requires props.versionTag.Some?
    requires !EndsWith(ApplyRelease(declared, props.release), Snapshot)
    ensures Resolve(declared, props) == Failed(VersionTagError)
  {
  }

  /** The declared version is not a snapshot, so as the script stands any
      `versionTag` fails the build. */
  lemma DeclaredVersionRejectsVersionTag(props: Properties)
    requires props.versionTag.Some?
    ensures Resolve(DeclaredVersion, props) == Failed(VersionTagError)
  {
    assert DeclaredVersion[|DeclaredVersion| - |Snapshot|] != Snapshot[0];
    assert !EndsWith(DeclaredVersion, Snapshot);
  }

  /** `release` runs first, so `release` with `versionTag` on a snapshot
      version fails: the tag step sees the version without its suffix. */
  lemma ReleaseWithVersionTagFails(base: string, props: Properties)
    requires forall i :: 0 <= i < |base| ==> !OccursAt(base + Snapshot, i)
    requires props.release && props.versionTag.Some?
    ensures Resolve(base + Snapshot, props) == Failed(VersionTagError)
  {
    var s := base + Snapshot;
    ReplaceSnapshotSuffix(base, "");
    assert s[|base|..] == Snapshot;
    assert ApplyRelease(s, true) == base;
    if EndsWith(base, Snapshot) {
      var i := |base| - |Snapshot|;
      assert s[i..i + |Snapshot|] == base[i..];
      assert OccursAt(s, i);
    }
  }

  /** Deleting several "-SNAPSHOT"s can leave a new "-SNAPSHOT" suffix: with
      `release` and `versionTag`, "-SNAP-SNAPSHOTSHOT-SNAPSHOT" becomes
      "-SNAPSHOT" and then "-t", and the build does not fail. */
  lemma ReleaseThenVersionTagCanSucceed()
    ensures Resolve("-SNAP" + Snapshot + "SHOT" + Snapshot, Properties(true, Some("t"), None)) == Configured("-" + "t")
  {
    var s := "-SNAP" + Snapshot + "SHOT" + Snapshot;
    CounterexampleRelease();
    assert s[|s| - |Snapshot|..] == Snapshot;
    assert ApplyRelease(s, true) == Snapshot;
    ReplaceSnapshotSuffix([], "-" + "t");
    assert [] + Snapshot == Snapshot;
  }

  /** The `release` step on the counterexample leaves exactly "-SNAPSHOT". */
  lemma CounterexampleRelease()
    ensures ReplaceSnapshot("-SNAP" + Snapshot + "SHOT" + Snapshot, "") == Snapshot
  {
    var a, b := "-SNAP", "SHOT";
    var rest := Snapshot + (b + Snapshot);
    assert a + Snapshot + b + Snapshot == a + rest;
    assert rest[0] == '-';
    CounterexampleHead(a, rest);
    ReplaceSnapshotSkipsPrefix(a, rest, "");
    assert rest[..|Snapshot|] == Snapshot;
    assert rest[|Snapshot|..] == b + Snapshot;
    assert '-' !in b;
    SnapshotOnlyAtEnd(b);
    ReplaceSnapshotSuffix(b, "");
    assert a + b == Snapshot;
  }

  /** No "-SNAPSHOT" starts inside "-SNAP" when "-SNAPSHOT" follows it. */
  lemma CounterexampleHead(a: string, rest: string)
    requires a == "-SNAP" && |rest| >= |Snapshot| && rest[0] == '-'
    ensures forall i :: 0 <= i < |a| ==> !OccursAt(a + rest, i)
  {
    var t := a + rest;
    forall i | 0 <= i < |a|
      ensures !OccursAt(t, i)
    {
      if i == 0 {
        assert t[..|Snapshot|][5] == t[5] == rest[0];
      } else {
        assert t[i] == a[i];
        NoOccurrenceWithoutDash(t, i);
      }
    }
  }

  /** Once reached, `releaseVersion` decides the version alone. */
  lemma ReleaseVersionOverrides(declared: string, props: Properties, v: string)
    requires props.releaseVersion == Some(v)
    requires ApplyVersionTag(ApplyRelease(declared, props.release), props.versionTag).Configured?
    ensures Resolve(declared, props) == Configured(v)
  {
  }
}
