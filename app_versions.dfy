/**
 * `SelfserviceAppAction`: finding the version record an app identifier names among the
 * apps the `query` command lists (`_get_ucs_version`, `_find_all_app_versions`,
 * `_find_app_versions`, `_find_app`).
 */
module AppVersions {
  import opened Common
  import opened AppIdentifier

  /** A version record of the `query` answer, reduced to the keys the client reads. */
  datatype VersionRecord = VersionRecord(id: string, version: string, ucsVersion: string, componentId: string)

  /** An app of the `query` answer: its id and the records of all its versions. */
  datatype AppEntry = AppEntry(id: string, versions: seq<VersionRecord>)

  /** The UCS version assumed when the identifier names none. */
  const DefaultUcsVersion: string := "4.1"

  /** `_get_ucs_version`: the identifier's UCS version, or the default when it is None or empty. */
  function GetUcsVersion(app: AppSpec): (u: string)
    ensures u != ""
    ensures app.ucsVersion.Some? && app.ucsVersion.value != "" ==> u == app.ucsVersion.value
    ensures app.ucsVersion.None? || app.ucsVersion == Some("") ==> u == DefaultUcsVersion
  {
    if app.ucsVersion.Some? && app.ucsVersion.value != "" then app.ucsVersion.value else DefaultUcsVersion
  }

  /**
   * The ordering `LooseVersion` gives version strings, abstracted: any total preorder
   * (two different strings may compare equal).
   */
  ghost predicate TotalPreorder(le: (string, string) -> bool) {
    && (forall a, b :: le(a, b) || le(b, a))
    && (forall a, b, c :: le(a, b) && le(b, c) ==> le(a, c))
  }

  /** The version records of every app whose id is the requested one, in the order listed. */
  function AllAppVersions(apps: seq<AppEntry>, appId: Option<string>): seq<VersionRecord> {
    if apps == [] then []
    else
      var n := |apps| - 1;
      AllAppVersions(apps[..n], appId) + (if Some(apps[n].id) == appId then apps[n].versions else [])
  }

  /** A record is listed exactly when it is a version of an app with the requested id. */
  lemma {:induction false} AllAppVersionsMembership(apps: seq<AppEntry>, appId: Option<string>, v: VersionRecord)
    ensures v in AllAppVersions(apps, appId) <==>
      exists i :: 0 <= i < |apps| && Some(apps[i].id) == appId && v in apps[i].versions
  {
    if apps != [] {
      var n := |apps| - 1;
      AllAppVersionsMembership(apps[..n], appId, v);
      if i :| 0 <= i < n && Some(apps[..n][i].id) == appId && v in apps[..n][i].versions {
        assert apps[i] == apps[..n][i];
      }
      if i :| 0 <= i < |apps| && Some(apps[i].id) == appId && v in apps[i].versions {
        if i < n {
          assert apps[..n][i] == apps[i];
        }
      }
    }
  }

  /** `_find_all_app_versions`: extends the result with the versions of each matching app. */
  method FindAllAppVersions(apps: seq<AppEntry>, appId: Option<string>) returns (ret: seq<VersionRecord>)
    ensures ret == AllAppVersions(apps, appId)
  {
    ret := [];
    var i := 0;
    while i < |apps|
      invariant 0 <= i <= |apps|
      invariant ret == AllAppVersions(apps[..i], appId)
    {
      assert apps[..i + 1][..i] == apps[..i];
      if Some(apps[i].id) == appId {
        ret := ret + apps[i].versions;
      }
      i := i + 1;
    }
    assert apps[..i] == apps;
  }

  /** `_find_app_versions`' filter: the records for one UCS version, in their order. */
  function FilterUcs(versions: seq<VersionRecord>, ucs: string): (r: seq<VersionRecord>)
    ensures |r| <= |versions|
    ensures forall v :: v in r <==> v in versions && v.ucsVersion == ucs
  {
    if versions == [] then []
    else
      var rest := FilterUcs(versions[1..], ucs);
      assert forall v :: v in versions <==> v == versions[0] || v in versions[1..];
      if versions[0].ucsVersion == ucs then [versions[0]] + rest else rest
  }

  /** The filter keeps the order of the records: filtering two runs is filtering each in turn. */
  lemma {:induction false} FilterUcsAppend(a: seq<VersionRecord>, b: seq<VersionRecord>, ucs: string)
    ensures FilterUcs(a + b, ucs) == FilterUcs(a, ucs) + FilterUcs(b, ucs)
  {
    if a != [] {
      assert (a + b)[0] == a[0];
      assert (a + b)[1..] == a[1..] + b;
      FilterUcsAppend(a[1..], b, ucs);
    } else {
      assert a + b == b;
    }
  }

  /** One record is kept exactly when it is for the requested UCS version. */
  lemma FilterUcsSingle(v: VersionRecord, ucs: string)
    ensures FilterUcs([v], ucs) == if v.ucsVersion == ucs then [v] else []
  {
    assert [v][1..] == [];
  }

  /** The records `_find_app` chooses from: the requested app's, for the requested UCS version. */
  function Candidates(apps: seq<AppEntry>, app: AppSpec): seq<VersionRecord> {
    FilterUcs(AllAppVersions(apps, app.appId), GetUcsVersion(app))
  }

  /** A record with a greatest version: what `sorted(...)[-1]` picks. */
  function MaxVersion(records: seq<VersionRecord>, le: (string, string) -> bool): (r: VersionRecord)
    requires |records| > 0 && TotalPreorder(le)
    ensures r in records
    ensures forall x :: x in records ==> le(x.version, r.version)
  {
    if |records| == 1 then records[0]
    else
      var m := MaxVersion(records[1..], le);
      assert forall x :: x in records ==> x == records[0] || x in records[1..];
      if le(records[0].version, m.version) then m else records[0]
  }

  /**
   * Different records never have versions that compare equal. Sorting `(version, record)`
   * pairs compares the records on such a tie, which raises TypeError.
   */
  ghost predicate NoVersionTies(records: seq<VersionRecord>, le: (string, string) -> bool) {
    forall i, j :: 0 <= i < |records| && 0 <= j < |records|
      && le(records[i].version, records[j].version) && le(records[j].version, records[i].version)
      ==> records[i] == records[j]
  }

  /**
   * `_find_app`: with a requested app version, the first candidate with exactly that
   * version string; without one, the candidate with the greatest version; Abort when
   * nothing qualifies.
   */
  method FindApp(apps: seq<AppEntry>, app: AppSpec, le: (string, string) -> bool)
    returns (r: Outcome<VersionRecord>)
    requires TotalPreorder(le)
    requires app.appVersion.None? ==> NoVersionTies(Candidates(apps, app), le)
    ensures r.Ok? ==> r.value in Candidates(apps, app)
    ensures app.appVersion.Some? ==>
      (r.Ok? <==> exists v :: v in Candidates(apps, app) && v.version == app.appVersion.value)
    ensures app.appVersion.Some? && r.Ok? ==>
      exists j :: 0 <= j < |Candidates(apps, app)| && Candidates(apps, app)[j] == r.value
        && r.value.version == app.appVersion.value
        && forall k :: 0 <= k < j ==> Candidates(apps, app)[k].version != app.appVersion.value
    ensures app.appVersion.None? ==> (r.Ok? <==> Candidates(apps, app) != [])
    ensures app.appVersion.None? && r.Ok? ==>
      forall v :: v in Candidates(apps, app) ==> le(v.version, r.value.version)
    ensures app.appVersion.None? && r.Ok? ==>
      forall v :: v in Candidates(apps, app) && le(r.value.version, v.version) ==> v == r.value
  {
    var all := FindAllAppVersions(apps, app.appId);
    var versions := FilterUcs(all, GetUcsVersion(app));
    assert versions == Candidates(apps, app);
    var maybeApps: seq<VersionRecord> := [];
    var i := 0;
    while i < |versions|
      invariant 0 <= i <= |versions|
      invariant app.appVersion.None? ==> maybeApps == versions[..i]
      invariant app.appVersion.Some? ==> maybeApps == []
      invariant app.appVersion.Some? ==> forall k :: 0 <= k < i ==> versions[k].version != app.appVersion.value
    {
      if app.appVersion.None? {
        maybeApps := maybeApps + [versions[i]];
      } else if versions[i].version == app.appVersion.value {
        assert versions[i] in versions;
        return Ok(versions[i]);
      }
      i := i + 1;
    }
    if maybeApps != [] {
      assert maybeApps == versions;
      var best := MaxVersion(maybeApps, le);
      MaxVersionUnique(versions, best, le);
      return Ok(best);
    }
    NoneMatches(versions, app.appVersion);
    return Abort("Could not find App");
  }

  /** Without ties, a greatest record is the only one its version does not exceed. */
  lemma MaxVersionUnique(records: seq<VersionRecord>, best: VersionRecord, le: (string, string) -> bool)
    requires NoVersionTies(records, le)
    requires best in records
    requires forall x :: x in records ==> le(x.version, best.version)
    ensures forall v :: v in records && le(best.version, v.version) ==> v == best
  {
    forall v | v in records && le(best.version, v.version) ensures v == best {
      var a :| 0 <= a < |records| && records[a] == v;
      var b :| 0 <= b < |records| && records[b] == best;
    }
  }

  /** A search that passed every record found no record with the version. */
  lemma NoneMatches(records: seq<VersionRecord>, version: Option<string>)
    requires version.Some? ==> forall k :: 0 <= k < |records| ==> records[k].version != version.value
    ensures version.Some? ==> !exists v :: v in records && v.version == version.value
  {
  }
}
