/**
 * Version selection (filter_versions) and the primary-file pick of
 * download_version. The registry lists versions newest first; selection only
 * filters and never re-orders, so the first survivor is the newest.
 */
module Versions {
  import opened Wrappers
  import opened Sequences

  /** One entry of a version's "files" list. */
  datatype File = File(filename: string, url: string, primary: bool)

  /** One entry of a version's "dependencies" list; projectId is "" when absent or null. */
  datatype Dependency = Dependency(projectId: string, dependencyType: string)

  /** A version record as the registry returns it; absent lists are empty. */
  datatype Version = Version(
    number: string,
    versionType: string,
    gameVersions: seq<string>,
    loaders: seq<string>,
    files: seq<File>,
    dependencies: seq<Dependency>)

  /** The version lists both the requested game version and the requested loader. */
  predicate Compatible(v: Version, gameVersion: string, loader: string)
  {
    gameVersion in v.gameVersions && loader in v.loaders
  }

  predicate IsRelease(v: Version)
  {
    v.versionType == "release"
  }

  /** The first comprehension of filter_versions: compatible versions, in order. */
  function Candidates(vs: seq<Version>, gameVersion: string, loader: string): (r: seq<Version>)
    ensures forall v :: v in r <==> v in vs && Compatible(v, gameVersion, loader)
  {
    if vs == [] then []
    else if Compatible(vs[0], gameVersion, loader) then [vs[0]] + Candidates(vs[1..], gameVersion, loader)
    else Candidates(vs[1..], gameVersion, loader)
  }

  /** The second comprehension of filter_versions: release versions, in order. */
  function Releases(vs: seq<Version>): (r: seq<Version>)
    ensures forall v :: v in r <==> v in vs && IsRelease(v)
  {
    if vs == [] then []
    else if IsRelease(vs[0]) then [vs[0]] + Releases(vs[1..])
    else Releases(vs[1..])
  }

  /** Every occurrence of a compatible version is kept, and nothing else. */
  lemma {:induction false} CandidatesCount(vs: seq<Version>, gameVersion: string, loader: string)
    ensures forall v ::
              multiset(Candidates(vs, gameVersion, loader))[v] == (if Compatible(v, gameVersion, loader) then multiset(vs)[v] else 0)
  {
    if vs != [] {
      CandidatesCount(vs[1..], gameVersion, loader);
      assert vs == [vs[0]] + vs[1..];
    }
  }

  /** Every occurrence of a release is kept, and nothing else. */
  lemma {:induction false} ReleasesCount(vs: seq<Version>)
    ensures forall v :: multiset(Releases(vs))[v] == (if IsRelease(v) then multiset(vs)[v] else 0)
  {
    if vs != [] {
      ReleasesCount(vs[1..]);
      assert vs == [vs[0]] + vs[1..];
    }
  }

  /** The head of Candidates is the first compatible version of the list. */
  lemma {:induction false} CandidatesHead(vs: seq<Version>, gameVersion: string, loader: string) returns (i: nat)
    requires Candidates(vs, gameVersion, loader) != []
    ensures i < |vs| && vs[i] == Candidates(vs, gameVersion, loader)[0]
    ensures Compatible(vs[i], gameVersion, loader)
    ensures forall j :: 0 <= j < i ==> !Compatible(vs[j], gameVersion, loader)
  {
    if Compatible(vs[0], gameVersion, loader) {
      i := 0;
    } else {
      var k := CandidatesHead(vs[1..], gameVersion, loader);
      i := k + 1;
    }
  }

  /** The head of the releases among the candidates is the first compatible release of the list. */
  lemma {:induction false} ReleaseHead(vs: seq<Version>, gameVersion: string, loader: string) returns (i: nat)
    requires Releases(Candidates(vs, gameVersion, loader)) != []
    ensures i < |vs| && vs[i] == Releases(Candidates(vs, gameVersion, loader))[0]
    ensures Compatible(vs[i], gameVersion, loader) && IsRelease(vs[i])
    ensures forall j :: 0 <= j < i ==> !(Compatible(vs[j], gameVersion, loader) && IsRelease(vs[j]))
  {
    var rest := Candidates(vs[1..], gameVersion, loader);
    if Compatible(vs[0], gameVersion, loader) && IsRelease(vs[0]) {
      var c := [vs[0]] + rest;
      assert c[0] == vs[0] && c[1..] == rest;
      i := 0;
    } else {
      if Compatible(vs[0], gameVersion, loader) {
        var c := [vs[0]] + rest;
        assert c[0] == vs[0] && c[1..] == rest;
        assert Releases(Candidates(vs, gameVersion, loader)) == Releases(rest);
      } else {
        assert Candidates(vs, gameVersion, loader) == rest;
      }
      var k := ReleaseHead(vs[1..], gameVersion, loader);
      i := k + 1;
      forall j | 0 <= j < i ensures !(Compatible(vs[j], gameVersion, loader) && IsRelease(vs[j])) {
        if j > 0 { assert vs[j] == vs[1..][j - 1]; }
      }
    }
  }

  lemma {:induction false} CandidatesSubsequence(vs: seq<Version>, gameVersion: string, loader: string)
    ensures IsSubsequence(Candidates(vs, gameVersion, loader), vs)
  {
    if vs != [] {
      CandidatesSubsequence(vs[1..], gameVersion, loader);
    }
  }

  lemma {:induction false} ReleasesSubsequence(vs: seq<Version>)
    ensures IsSubsequence(Releases(vs), vs)
  {
    if vs != [] {
      ReleasesSubsequence(vs[1..]);
    }
  }

  /** Filtering a list whose every element already passes keeps it whole. */
  lemma {:induction false} CandidatesOfCompatible(vs: seq<Version>, gameVersion: string, loader: string)
    requires forall v :: v in vs ==> Compatible(v, gameVersion, loader)
    ensures Candidates(vs, gameVersion, loader) == vs
  {
    if vs != [] {
      CandidatesOfCompatible(vs[1..], gameVersion, loader);
    }
  }

  lemma {:induction false} ReleasesOfReleases(vs: seq<Version>)
    requires forall v :: v in vs ==> IsRelease(v)
    ensures Releases(vs) == vs
  {
    if vs != [] {
      ReleasesOfReleases(vs[1..]);
    }
  }

  lemma {:induction false} ReleasesOfNone(vs: seq<Version>)
    requires forall v :: v in vs ==> !IsRelease(v)
    ensures Releases(vs) == []
  {
    if vs != [] {
      ReleasesOfNone(vs[1..]);
    }
  }

  /**
   * A version filter_versions keeps: a compatible one that is a release, or
   * any compatible one when no compatible release exists.
   */
  ghost predicate Preferred(v: Version, vs: seq<Version>, gameVersion: string, loader: string)
  {
    Compatible(v, gameVersion, loader)
    && (IsRelease(v) || forall w :: w in vs && Compatible(w, gameVersion, loader) ==> !IsRelease(w))
  }

  /**
   * filter_versions: the compatible versions, narrowed to the release ones
   * when there is at least one, in registry order. Every occurrence of a
   * preferred version is kept and nothing else.
   */
  function FilterVersions(vs: seq<Version>, gameVersion: string, loader: string): (r: seq<Version>)
    ensures IsSubsequence(r, vs)
    ensures forall v :: multiset(r)[v] == (if Preferred(v, vs, gameVersion, loader) then multiset(vs)[v] else 0)
    ensures forall v :: v in r ==> Compatible(v, gameVersion, loader)
    ensures r == [] <==> forall v :: v in vs ==> !Compatible(v, gameVersion, loader)
    ensures (exists v :: v in vs && Compatible(v, gameVersion, loader) && IsRelease(v)) ==>
      forall v :: v in r <==> v in vs && Compatible(v, gameVersion, loader) && IsRelease(v)
    ensures (forall v :: v in vs && Compatible(v, gameVersion, loader) ==> !IsRelease(v)) ==>
      forall v :: v in r <==> v in vs && Compatible(v, gameVersion, loader)
  {
    var candidates := Candidates(vs, gameVersion, loader);
    CandidatesSubsequence(vs, gameVersion, loader);
    CandidatesCount(vs, gameVersion, loader);
    ReleasesCount(candidates);
    if candidates == [] then
      []
    else
      var releases := Releases(candidates);
      ReleasesSubsequence(candidates);
      SubsequenceTransitive(releases, candidates, vs);
      assert candidates[0] in vs;
      assert releases != [] ==> releases[0] in releases;
      if releases != [] then releases else candidates
  }

  /** Applying filter_versions to its own result changes nothing. */
  lemma FilterVersionsIdempotent(vs: seq<Version>, gameVersion: string, loader: string)
    ensures FilterVersions(FilterVersions(vs, gameVersion, loader), gameVersion, loader)
      == FilterVersions(vs, gameVersion, loader)
  {
    var r := FilterVersions(vs, gameVersion, loader);
    if r != [] {
      CandidatesOfCompatible(r, gameVersion, loader);
      var candidates := Candidates(vs, gameVersion, loader);
      var releases := Releases(candidates);
      if releases != [] {
        ReleasesOfReleases(r);
      } else {
        assert forall v :: v in r ==> !IsRelease(v) by {
          forall v | v in r ensures !IsRelease(v) {
            assert v !in releases;
          }
        }
        ReleasesOfNone(r);
      }
    }
  }

  /**
   * The version main() installs: the first survivor of filter_versions, that
   * is, the first preferred version in registry order.
   */
  function Latest(vs: seq<Version>, gameVersion: string, loader: string): (r: Option<Version>)
    ensures r.None? <==> forall v :: v in vs ==> !Compatible(v, gameVersion, loader)
    ensures r.Some? ==> r.value in vs && Compatible(r.value, gameVersion, loader)
    ensures r.Some? && (exists v :: v in vs && Compatible(v, gameVersion, loader) && IsRelease(v)) ==> IsRelease(r.value)
    ensures r.Some? ==> exists i :: (0 <= i < |vs| && vs[i] == r.value && Preferred(vs[i], vs, gameVersion, loader)
      && forall j :: 0 <= j < i ==> !Preferred(vs[j], vs, gameVersion, loader))
  {
    var candidates := FilterVersions(vs, gameVersion, loader);
    if candidates == [] then None
    else
      SubsequenceElements(candidates, vs);
      assert candidates[0] in candidates;
      FirstPreferred(vs, gameVersion, loader);
      Some(candidates[0])
  }

  /** The head of filter_versions is the first preferred version of the list. */
  lemma FirstPreferred(vs: seq<Version>, gameVersion: string, loader: string)
    requires FilterVersions(vs, gameVersion, loader) != []
    ensures exists i :: (0 <= i < |vs| && vs[i] == FilterVersions(vs, gameVersion, loader)[0]
      && Preferred(vs[i], vs, gameVersion, loader)
      && forall j :: 0 <= j < i ==> !Preferred(vs[j], vs, gameVersion, loader))
  {
    var candidates := Candidates(vs, gameVersion, loader);
    if Releases(candidates) != [] {
      var i := ReleaseHead(vs, gameVersion, loader);
      assert Preferred(vs[i], vs, gameVersion, loader);
    } else {
      var i := CandidatesHead(vs, gameVersion, loader);
      assert forall w :: w in vs && Compatible(w, gameVersion, loader) ==> !IsRelease(w) by {
        forall w | w in vs && Compatible(w, gameVersion, loader) ensures !IsRelease(w) {
          assert w in candidates;
        }
      }
      assert Preferred(vs[i], vs, gameVersion, loader);
    }
  }

  /**
   * A release is preferred to a newer beta; with only the beta compatible,
   * the beta is chosen.
   */
  lemma ReleasePreferred(v1: Version, v2: Version, gameVersion: string, loader: string)
    requires Compatible(v1, gameVersion, loader) && IsRelease(v1)
    requires v2.versionType == "beta"
    ensures Compatible(v2, gameVersion, loader) ==> Latest([v2, v1], gameVersion, loader) == Some(v1)
    ensures Latest([v1, v2], gameVersion, loader) == Some(v1)
    ensures Compatible(v2, gameVersion, loader) ==> Latest([v2], gameVersion, loader) == Some(v2)
  {
    assert [v2, v1][1..] == [v1];
    assert [v1, v2][1..] == [v2];
  }

  /** Index of the first file flagged primary; |files| when there is none. */
  function FirstPrimary(files: seq<File>): (i: nat)
    ensures i <= |files|
    ensures forall j :: 0 <= j < i ==> !files[j].primary
    ensures i < |files| ==> files[i].primary
  {
    if files == [] || files[0].primary then 0 else 1 + FirstPrimary(files[1..])
  }

  /** next((f for f in files if f.get("primary")), None) */
  function PrimaryFile(files: seq<File>): (r: Option<File>)
    ensures r.None? <==> forall f :: f in files ==> !f.primary
    ensures r.Some? ==> r.value.primary && r.value in files
    ensures r.Some? ==>
      exists i :: 0 <= i < |files| && files[i] == r.value && (forall j :: 0 <= j < i ==> !files[j].primary)
  {
    var i := FirstPrimary(files);
    if i < |files| then
      assert files[i] in files;
      Some(files[i])
    else
      None
  }
}
