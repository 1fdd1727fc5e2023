/** The update check (internal/updater/updater.go): the version comparison
    and the decision taken on the latest-release response. The HTTP request
    and the JSON decoding are inputs: `Fetch` says what came back. */
module Updater {
  import opened Base
  import opened Text

  const INSTALLER_PREFIX: string := "Velocity_Setup"
  const INSTALLER_SUFFIX: string := ".exe"

  // ---------------------------------------------------------------------
  // Version comparison

  /** `strings.TrimPrefix(s, "v")`: at most one leading 'v' goes. */
  function TrimV(s: string): (r: string)
    ensures |s| > 0 && s[0] == 'v' ==> s == "v" + r
    ensures !(|s| > 0 && s[0] == 'v') ==> r == s
  {
    if |s| > 0 && s[0] == 'v' then s[1..] else s
  }

  function VersionParts(version: string): (parts: seq<string>)
    ensures |parts| >= 1
  {
    Split(TrimV(version), '.')
  }

  /** The comparison the loop performs, stated as a property of the two
      component lists: at the first component where they differ the remote
      one is greater as a STRING; with no difference among the common
      components, the remote list is the longer one. */
  predicate PartsNewer(r: seq<string>, l: seq<string>)
  {
    || (exists i :: 0 <= i < |r| && i < |l| && r[..i] == l[..i] && Less(l[i], r[i]))
    || (|r| > |l| && r[..|l|] == l)
  }

  /** The version order `isNewerVersion` decides. */
  predicate VersionNewer(remote: string, local: string)
  {
    PartsNewer(VersionParts(remote), VersionParts(local))
  }

  /** `isNewerVersion`: trim, split, compare. */
  method IsNewerVersion(remote: string, local: string) returns (newer: bool)
    ensures newer <==> VersionNewer(remote, local)
  {
    newer := ComparePartsLoop(VersionParts(remote), VersionParts(local));
  }

  /** The comparison loop of `isNewerVersion` over the component lists. */
  method ComparePartsLoop(r: seq<string>, l: seq<string>) returns (newer: bool)
    ensures newer <==> PartsNewer(r, l)
  {
    var i := 0;
    while i < |r| && i < |l|
      invariant 0 <= i <= |r| && i <= |l|
      invariant r[..i] == l[..i]
    {
      if Less(l[i], r[i]) {
        assert PartsNewer(r, l);
        return true;
      }
      if Less(r[i], l[i]) {
        NoLaterDifference(r, l, i);
        return false;
      }
      LessTotal(r[i], l[i]);
      PrefixGrows(r, l, i);
      i := i + 1;
    }
    CommonPrefixDecides(r, l);
    return |r| > |l|;
  }

  /** Agreeing up to `i` and at `i` is agreeing up to `i + 1`. */
  lemma PrefixGrows(r: seq<string>, l: seq<string>, i: nat)
    requires i < |r| && i < |l| && r[..i] == l[..i] && r[i] == l[i]
    ensures r[..i + 1] == l[..i + 1]
  {
    assert r[..i + 1] == r[..i] + [r[i]];
    assert l[..i + 1] == l[..i] + [l[i]];
  }

  /** When one list is a prefix of the other, the longer one is newer. */
  lemma CommonPrefixDecides(r: seq<string>, l: seq<string>)
    requires |r| <= |l| ==> r == l[..|r|]
    requires |l| <= |r| ==> l == r[..|l|]
    ensures PartsNewer(r, l) <==> |r| > |l|
  {
    forall j | 0 <= j < |r| && j < |l| && r[..j] == l[..j]
      ensures !Less(l[j], r[j])
    {
      if |r| <= |l| {
        assert r[j] == l[..|r|][j];
      } else {
        assert l[j] == r[..|l|][j];
      }
      LessIrreflexive(r[j]);
    }
  }

  /** When the lists agree before `i` and the remote component at `i` is
      smaller, the remote list is not newer. */
  lemma NoLaterDifference(r: seq<string>, l: seq<string>, i: nat)
    requires i < |r| && i < |l| && r[..i] == l[..i] && Less(r[i], l[i])
    ensures !PartsNewer(r, l)
  {
    forall j | 0 <= j < |r| && j < |l| && r[..j] == l[..j]
      ensures !Less(l[j], r[j])
    {
      if j < i {
        assert r[j] == r[..i][j] && l[j] == l[..i][j];
        LessIrreflexive(r[j]);
      } else if j == i {
        LessAsymmetric(r[i], l[i]);
      } else {
        assert r[i] == r[..j][i];
        LessIrreflexive(r[i]);
        assert false;
      }
    }
    if |r| > |l| && r[..|l|] == l {
      assert false;
    }
  }

  /** No version is newer than itself. */
  lemma NotNewerThanItself(v: string)
    ensures !VersionNewer(v, v)
  {
    var p := VersionParts(v);
    forall i | 0 <= i < |p|
      ensures !Less(p[i], p[i])
    {
      LessIrreflexive(p[i]);
    }
  }

  /** Of two versions at most one is newer than the other. */
  lemma {:induction false} NewerIsAsymmetric(a: string, b: string)
    ensures !(VersionNewer(a, b) && VersionNewer(b, a))
  {
    var p := VersionParts(a);
    var q := VersionParts(b);
    if PartsNewer(p, q) {
      if i :| 0 <= i < |p| && i < |q| && p[..i] == q[..i] && Less(q[i], p[i]) {
        NoLaterDifference(q, p, i);
      } else {
        CommonPrefixDecides(q, p);
      }
    }
  }

  /** Two different component lists are ordered one way or the other. */
  lemma {:induction false} PartsTotal(p: seq<string>, q: seq<string>)
    requires p != q
    ensures PartsNewer(p, q) || PartsNewer(q, p)
  {
    var i := 0;
    while i < |p| && i < |q| && p[i] == q[i]
      invariant 0 <= i <= |p| && i <= |q|
      invariant p[..i] == q[..i]
    {
      PrefixGrows(p, q, i);
      i := i + 1;
    }
    if i < |p| && i < |q| {
      LessTotal(p[i], q[i]);
    } else {
      CommonPrefixDecides(p, q);
      CommonPrefixDecides(q, p);
      assert |p| != |q|;
    }
  }

  /** Two versions that differ once a leading 'v' is dropped are ordered one
      way or the other. */
  lemma DistinctVersionsAreOrdered(a: string, b: string)
    requires TrimV(a) != TrimV(b)
    ensures VersionNewer(a, b) || VersionNewer(b, a)
  {
    assert Join(VersionParts(a), '.') == TrimV(a);
    assert Join(VersionParts(b), '.') == TrimV(b);
    PartsTotal(VersionParts(a), VersionParts(b));
  }

  /** Joining two lists with the separator between them. */
  lemma {:induction false} JoinAppend(a: seq<string>, b: seq<string>, sep: char)
    requires |a| >= 1 && |b| >= 1
    ensures Join(a + b, sep) == Join(a, sep) + [sep] + Join(b, sep)
    decreases |a|
  {
    if |a| == 1 {
      assert (a + b)[1..] == b;
    } else {
      assert (a + b)[1..] == a[1..] + b;
      JoinAppend(a[1..], b, sep);
    }
  }

  /** Splitting at a separator splits the component lists. */
  lemma SplitAppend(x: string, y: string, sep: char)
    ensures Split(x + [sep] + y, sep) == Split(x, sep) + Split(y, sep)
  {
    var px := Split(x, sep);
    var py := Split(y, sep);
    JoinAppend(px, py, sep);
    SplitJoin(px + py, sep);
  }

  /** A version that extends another by one more component is newer:
      "1.0.0" is newer than "1.0". */
  lemma ExtraComponentIsNewer(v: string, extra: string)
    ensures VersionNewer(v + "." + extra, v)
  {
    var u := TrimV(v);
    TrimVAppend(v, extra);
    SplitAppend(u, extra, '.');
    var p := VersionParts(v + "." + extra);
    var q := VersionParts(v);
    assert q == Split(u, '.');
    assert p == q + Split(extra, '.');
    assert p[..|q|] == q;
  }

  /** Appending a component after a dot leaves the leading 'v' alone. */
  lemma TrimVAppend(v: string, extra: string)
    ensures TrimV(v + "." + extra) == TrimV(v) + ['.'] + extra
  {
    var s := v + "." + extra;
    if |v| == 0 {
      assert s[0] == '.';
    } else if v[0] == 'v' {
      assert s[0] == 'v';
      assert s[1..] == v[1..] + "." + extra;
    } else {
      assert s[0] == v[0];
    }
  }

  /** A leading 'v' on either side makes no difference. */
  lemma LeadingVIgnored(a: string, b: string)
    requires !(|a| > 0 && a[0] == 'v') && !(|b| > 0 && b[0] == 'v')
    ensures VersionNewer("v" + a, b) == VersionNewer(a, b)
    ensures VersionNewer(a, "v" + b) == VersionNewer(a, b)
  {
    assert ("v" + a)[1..] == a;
    assert ("v" + b)[1..] == b;
  }

  /** A dotted triple without a leading 'v' splits into its three
      components. */
  lemma PartsOfTriple(x: string, y: string, z: string)
    requires |x| > 0 && x[0] != 'v'
    requires '.' !in x && '.' !in y && '.' !in z
    ensures VersionParts(x + "." + y + "." + z) == [x, y, z]
  {
    var v := x + "." + y + "." + z;
    assert v[0] == x[0];
    var p := [x, y, z];
    assert Join(p[2..], '.') == z;
    assert Join(p[1..], '.') == y + "." + z;
    assert Join(p, '.') == x + "." + (y + "." + z);
    assert v == x + "." + (y + "." + z);
    SplitJoin(p, '.');
  }

  /** "9" sorts after "10" as a string. */
  lemma NineAfterTen()
    ensures PartsNewer(["1", "0", "9"], ["1", "0", "10"])
  {
    var p9: seq<string> := ["1", "0", "9"];
    var p10: seq<string> := ["1", "0", "10"];
    assert p9[..2] == p10[..2];
    assert Less(p10[2], p9[2]);
  }

  /** Components compare as strings, not numbers: "1.0.10" is NOT newer than
      "1.0.9", and "1.0.9" counts as newer than "1.0.10". */
  lemma ComponentsCompareAsStrings()
    ensures VersionNewer("1.0.9", "1.0.10")
    ensures !VersionNewer("1.0.10", "1.0.9")
  {
    PartsOfNine();
    PartsOfTen();
    NineAfterTen();
    NewerIsAsymmetric("1.0.9", "1.0.10");
  }

  lemma PartsOfNine()
    ensures VersionParts("1.0.9") == ["1", "0", "9"]
  {
    PartsOfTriple("1", "0", "9");
    assert "1" + "." + "0" + "." + "9" == "1.0.9";
  }

  lemma PartsOfTen()
    ensures VersionParts("1.0.10") == ["1", "0", "10"]
  {
    PartsOfTriple("1", "0", "10");
    assert "1" + "." + "0" + "." + "10" == "1.0.10";
  }

  // ---------------------------------------------------------------------
  // CheckForUpdates

  /** A release asset; its size plays no part in the decision. */
  datatype Asset = Asset(name: string, downloadUrl: string)

  datatype Release = Release(tagName: string, assets: seq<Asset>)

  /** What the request for the latest release produced: a transport error,
      or a status with the decoded body (`None` when the JSON did not
      decode). */
  datatype Fetch =
    | TransportFailed
    | Response(status: int, body: Option<Release>)

  datatype UpdateInfo = UpdateInfo(available: bool, newVersion: string, downloadUrl: string, installerName: string)

  datatype UpdateError =
    | RequestFailed
    | BadStatus(status: int)
    | ParseFailed
    | NoInstaller(tag: string)

  const NoUpdate: UpdateInfo := UpdateInfo(false, "", "", "")

  predicate IsInstaller(name: string)
  {
    HasPrefix(name, INSTALLER_PREFIX) && HasSuffix(name, INSTALLER_SUFFIX)
  }

  /** The position of the first installer asset, if there is one. */
  function FirstInstaller(assets: seq<Asset>): (r: Option<nat>)
    ensures r.None? <==> forall i :: 0 <= i < |assets| ==> !IsInstaller(assets[i].name)
    ensures r.Some? ==> r.value < |assets| && IsInstaller(assets[r.value].name)
    ensures r.Some? ==> forall j :: 0 <= j < r.value ==> !IsInstaller(assets[j].name)
  {
    if |assets| == 0 then None
    else if IsInstaller(assets[0].name) then Some(0)
    else
      match FirstInstaller(assets[1..])
      case None => None
      case Some(k) => Some(k + 1)
  }

  /** `CheckForUpdates`: 404 means no release yet; any other status but 200
      is an error; a release that is not newer is "no update"; a newer one
      must carry a `Velocity_Setup*.exe` asset, the first of which is
      offered. */
  method CheckForUpdates(current: string, fetch: Fetch) returns (r: Result<UpdateInfo, UpdateError>)
    ensures fetch.TransportFailed? ==> r == Err(RequestFailed)
    ensures fetch.Response? && fetch.status == 404 ==> r == Ok(NoUpdate)
    ensures fetch.Response? && fetch.status != 404 && fetch.status != 200 ==> r == Err(BadStatus(fetch.status))
    ensures fetch.Response? && fetch.status == 200 && fetch.body.None? ==> r == Err(ParseFailed)
    ensures (fetch.Response? && fetch.status == 200 && fetch.body.Some?
             && !VersionNewer(fetch.body.value.tagName, current)) ==> r == Ok(NoUpdate)
    ensures r.Ok? && r.value.available ==>
              && fetch.Response? && fetch.status == 200 && fetch.body.Some?
              && r.value.newVersion == fetch.body.value.tagName
              && VersionNewer(r.value.newVersion, current)
              && exists i :: 0 <= i < |fetch.body.value.assets|
                             && fetch.body.value.assets[i] == Asset(r.value.installerName, r.value.downloadUrl)
                             && IsInstaller(r.value.installerName)
                             && forall j :: 0 <= j < i ==> !IsInstaller(fetch.body.value.assets[j].name)
    ensures r.Err? && r.error.NoInstaller? <==>
              && fetch.Response? && fetch.status == 200 && fetch.body.Some?
              && VersionNewer(fetch.body.value.tagName, current)
              && forall i :: 0 <= i < |fetch.body.value.assets| ==> !IsInstaller(fetch.body.value.assets[i].name)
    ensures r.Err? && r.error.NoInstaller? ==> r.error.tag == fetch.body.value.tagName
    ensures (fetch.Response? && fetch.status == 200 && fetch.body.Some?
             && VersionNewer(fetch.body.value.tagName, current)
             && FirstInstaller(fetch.body.value.assets).Some?) ==>
              var asset := fetch.body.value.assets[FirstInstaller(fetch.body.value.assets).value];
              r == Ok(UpdateInfo(true, fetch.body.value.tagName, asset.downloadUrl, asset.name))
    ensures r.Ok? && !r.value.available ==> r.value == NoUpdate
  {
    if fetch.TransportFailed? {
      return Err(RequestFailed);
    }
    if fetch.status == 404 {
      return Ok(NoUpdate);
    }
    if fetch.status != 200 {
      return Err(BadStatus(fetch.status));
    }
    if fetch.body.None? {
      return Err(ParseFailed);
    }
    var release := fetch.body.value;
    var newer := IsNewerVersion(release.tagName, current);
    if !newer {
      return Ok(NoUpdate);
    }
    match FirstInstaller(release.assets)
    case None =>
      return Err(NoInstaller(release.tagName));
    case Some(i) =>
      var asset := release.assets[i];
      return Ok(UpdateInfo(true, release.tagName, asset.downloadUrl, asset.name));
  }
}
