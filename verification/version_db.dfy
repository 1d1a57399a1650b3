/**
 * The version registry of `versiondb.rs`: an ordered map from target name to
 * an ordered map from version string to the record saying how to run that
 * version.  Loading and saving the YAML file are not part of this model.
 */
module VersionRegistry {
  import opened Results
  import opened Text
  import opened IndexMaps
  import opened Versions

  /**
   * How to run one installed version.  `path` is required; the rest is
   * optional.  Both `icon` and `bindings` are kept because different parts
   * of the tool read different ones.
   */
  datatype VData = VData(
    alias: Option<string>,
    path: string,
    icon: Option<string>,
    envs: Option<seq<(string, string)>>,
    bindings: Option<seq<(string, string)>>)

  /** `VersionRoot`: target -> (version -> record), both levels insertion-ordered. */
  datatype VersionDb = VersionDb(root: seq<(string, seq<(string, VData)>)>)

  /** Both map levels have distinct keys, as an `IndexMap` guarantees. */
  predicate Valid(db: VersionDb) {
    && DistinctKeys(db.root)
    && forall i :: 0 <= i < |db.root| ==> DistinctKeys(db.root[i].1)
  }

  /** No target is left with an empty version map (the cascade of `remove_vdata`). */
  predicate NoEmptyTargets(db: VersionDb) {
    forall i :: 0 <= i < |db.root| ==> |db.root[i].1| > 0
  }

  function Empty(): (db: VersionDb)
    ensures Valid(db) && NoEmptyTargets(db)
  {
    VersionDb([])
  }

  /** The version map of a target, if it is registered. */
  function VersionsOf(db: VersionDb, name: string): Option<seq<(string, VData)>> {
    Get(db.root, name)
  }

  lemma VersionsOfValid(db: VersionDb, name: string)
    requires Valid(db)
    ensures VersionsOf(db, name).Some? ==> DistinctKeys(VersionsOf(db, name).value)
    ensures NoEmptyTargets(db) && VersionsOf(db, name).Some? ==> |VersionsOf(db, name).value| > 0
  {
  }

  /** `has_target`. */
  function HasTarget(db: VersionDb, name: string): (r: bool)
    ensures r <==> exists i :: 0 <= i < |db.root| && db.root[i].0 == name
    ensures r <==> VersionsOf(db, name).Some?
  {
    HasKey(db.root, name)
  }

  /** `is_empty`: the target has no entry at all. */
  function IsEmpty(db: VersionDb, name: string): (r: bool)
    ensures r <==> !HasTarget(db, name)
  {
    Get(db.root, name).None?
  }

  /** `has_version`. */
  function HasVersion(db: VersionDb, name: string, version: string): (r: bool)
    ensures r ==> HasTarget(db, name)
  {
    match Get(db.root, name)
    case None => false
    case Some(versions) => HasKey(versions, version)
  }

  /** `get_vdata`. */
  function GetVData(db: VersionDb, name: string, version: string): (r: Option<VData>)
    ensures r.Some? <==> HasVersion(db, name, version)
  {
    match Get(db.root, name)
    case None => None
    case Some(versions) => Get(versions, version)
  }

  /** `get_all_version`: the version keys in map order. */
  function GetAllVersion(db: VersionDb, name: string): (r: Option<seq<string>>)
    ensures r.None? <==> !HasTarget(db, name)
    ensures r.Some? ==> forall v :: v in r.value <==> HasVersion(db, name, v)
  {
    match Get(db.root, name)
    case None => None
    case Some(versions) =>
      var ks := Keys(versions);
      assert forall v :: v in ks <==> HasKey(versions, v) by {
        forall v
          ensures v in ks <==> HasKey(versions, v)
        {
          if v in ks {
            var i :| 0 <= i < |ks| && ks[i] == v;
            assert versions[i].0 == v;
          }
        }
      }
      Some(ks)
  }

  /** `get_first_version`: the first key of the target's version map. */
  function GetFirstVersion(db: VersionDb, name: string): (r: Option<string>)
    ensures r.Some? ==> HasVersion(db, name, r.value)
    ensures r.Some? ==> GetAllVersion(db, name).Some? && GetAllVersion(db, name).value[0] == r.value
    ensures r.None? ==> GetAllVersion(db, name) == None || GetAllVersion(db, name) == Some([])
    ensures Valid(db) && NoEmptyTargets(db) ==> (r.None? <==> !HasTarget(db, name))
  {
    match Get(db.root, name)
    case None => None
    case Some(versions) =>
      if |versions| == 0 then None
      else
        assert versions[0].0 in Keys(versions);
        Some(versions[0].0)
  }

  /**
   * `set_vdata`: create the target (at the end) if absent, then insert or
   * overwrite the version record.
   */
  function SetVData(db: VersionDb, name: string, version: string, vdata: VData): (r: VersionDb)
    requires Valid(db)
    ensures Valid(r)
    ensures HasTarget(r, name)
    ensures GetVData(r, name, version) == Some(vdata)
    ensures forall n, v :: (n, v) != (name, version) ==> GetVData(r, n, v) == GetVData(db, n, v)
    ensures forall n :: n != name ==> VersionsOf(r, n) == VersionsOf(db, n)
    ensures NoEmptyTargets(db) ==> NoEmptyTargets(r)
  {
    var versions := Get(db.root, name).GetOr([]);
    assert DistinctKeys(versions) by {
      if Get(db.root, name).Some? {
        GetMembership(db.root, name, versions);
      }
    }
    var root := Insert(db.root, name, Insert(versions, version, vdata));
    InsertTargetValid(db, name, Insert(versions, version, vdata));
    VersionDb(root)
  }

  /**
   * `remove_vdata`: swap-remove the version; when the target's map becomes
   * empty, swap-remove the target as well.  An unknown target is left alone.
   */
  function RemoveVData(db: VersionDb, name: string, version: string): (r: VersionDb)
    requires Valid(db)
    ensures Valid(r)
    ensures !HasVersion(r, name, version)
    ensures !HasTarget(db, name) ==> r == db
    ensures HasTarget(r, name) <==> HasTarget(db, name) && exists v :: v != version && HasVersion(db, name, v)
    ensures forall n, v :: (n, v) != (name, version) ==> GetVData(r, n, v) == GetVData(db, n, v)
    ensures forall n :: n != name ==> VersionsOf(r, n) == VersionsOf(db, n)
    ensures NoEmptyTargets(db) ==> NoEmptyTargets(r)
  {
    match Get(db.root, name)
    case None => db
    case Some(versions) =>
      GetMembership(db.root, name, versions);
      var remaining := SwapRemove(versions, version);
      if |remaining| == 0 then
        var r := VersionDb(SwapRemove(db.root, name));
        assert forall v :: v != version ==> !HasKey(versions, v) by {
          forall v | v != version
            ensures !HasKey(versions, v)
          {
            assert Get(remaining, v) == Get(versions, v);
          }
        }
        RemoveTargetValid(db, name);
        r
      else
        var r := VersionDb(Insert(db.root, name, remaining));
        assert Get(remaining, remaining[0].0).Some?;
        assert remaining[0].0 != version;
        assert HasVersion(db, name, remaining[0].0);
        InsertTargetValid(db, name, remaining);
        r
  }

  /** The first version of a new target is the one that created it. */
  lemma FirstAddIsFirst(db: VersionDb, name: string, version: string, vdata: VData)
    requires Valid(db) && !HasTarget(db, name)
    ensures GetFirstVersion(SetVData(db, name, version, vdata), name) == Some(version)
  {
    var r := SetVData(db, name, version, vdata);
    var versions := VersionsOf(r, name).value;
    GetMembership(r.root, name, versions);
    assert Get(versions, version) == Some(vdata);
    assert forall v :: v != version ==> Get(versions, v) == None by {
      forall v | v != version
        ensures Get(versions, v) == None
      {
        assert GetVData(r, name, v) == GetVData(db, name, v);
      }
    }
    assert versions[0].0 == version;
  }

  /**
   * Removal is a swap-remove, so removing the first version promotes the
   * last one (not the second) to first.
   */
  lemma RemoveFirstPromotesLast(db: VersionDb, name: string, versions: seq<(string, VData)>)
    requires Valid(db)
    requires VersionsOf(db, name) == Some(versions) && |versions| >= 2
    ensures GetFirstVersion(RemoveVData(db, name, versions[0].0), name) == Some(versions[|versions| - 1].0)
  {
    GetMembership(db.root, name, versions);
    assert Find(versions, versions[0].0) == 0;
    var remaining := SwapRemove(versions, versions[0].0);
    assert remaining[0] == versions[|versions| - 1];
  }

  /** `remove_all_vdata`: drop the whole target. */
  function RemoveAllVData(db: VersionDb, name: string): (r: VersionDb)
    requires Valid(db)
    ensures Valid(r)
    ensures !HasTarget(r, name)
    ensures forall n :: n != name ==> VersionsOf(r, n) == VersionsOf(db, n)
    ensures forall n, v :: n != name ==> GetVData(r, n, v) == GetVData(db, n, v)
    ensures NoEmptyTargets(db) ==> NoEmptyTargets(r)
  {
    RemoveTargetValid(db, name);
    VersionDb(SwapRemove(db.root, name))
  }

  /** Putting a well-formed version map under a target keeps the registry well formed. */
  lemma InsertTargetValid(db: VersionDb, name: string, versions: seq<(string, VData)>)
    requires Valid(db) && DistinctKeys(versions)
    ensures Valid(VersionDb(Insert(db.root, name, versions)))
    ensures NoEmptyTargets(db) && |versions| > 0 ==> NoEmptyTargets(VersionDb(Insert(db.root, name, versions)))
  {
    var root := Insert(db.root, name, versions);
    forall i | 0 <= i < |root|
      ensures DistinctKeys(root[i].1)
      ensures NoEmptyTargets(db) && |versions| > 0 ==> |root[i].1| > 0
    {
      GetMembership(root, root[i].0, root[i].1);
      if root[i].0 != name {
        GetMembership(db.root, root[i].0, root[i].1);
      }
    }
  }

  /** Dropping a target keeps the registry well formed. */
  lemma RemoveTargetValid(db: VersionDb, name: string)
    requires Valid(db)
    ensures Valid(VersionDb(SwapRemove(db.root, name)))
    ensures NoEmptyTargets(db) ==> NoEmptyTargets(VersionDb(SwapRemove(db.root, name)))
  {
    var root := SwapRemove(db.root, name);
    forall i | 0 <= i < |root|
      ensures root[i] in db.root
    {
      GetMembership(root, root[i].0, root[i].1);
      GetMembership(db.root, root[i].0, root[i].1);
    }
  }

  /** Keeps the target's name and lists its version keys. */
  function TargetSummary(entry: (string, seq<(string, VData)>)): (string, seq<string>) {
    (entry.0, Keys(entry.1))
  }

  function Summaries(entries: seq<(string, seq<(string, VData)>)>): (r: seq<(string, seq<string>)>)
    ensures |r| == |entries|
    ensures forall i :: 0 <= i < |r| ==> r[i] == (entries[i].0, Keys(entries[i].1))
  {
    seq(|entries|, i requires 0 <= i < |entries| => TargetSummary(entries[i]))
  }

  /** The filter of `match_by`: the target name contains the pattern. */
  function NameFilter(pattern: string): string -> bool {
    (n: string) => Contains(n, pattern)
  }

  /** `match_by`: every target whose name contains `pattern`, with its versions. */
  function MatchBy(db: VersionDb, pattern: string): (r: seq<(string, seq<string>)>)
    requires Valid(db)
    ensures forall i :: 0 <= i < |r| ==> Contains(r[i].0, pattern) && GetAllVersion(db, r[i].0) == Some(r[i].1)
    ensures forall n :: HasTarget(db, n) && Contains(n, pattern) ==> exists i :: 0 <= i < |r| && r[i].0 == n
  {
    var kept := FilterByKey(db.root, NameFilter(pattern));
    MatchedEntries(db, kept, pattern);
    MatchedAll(db, kept, pattern);
    Summaries(kept)
  }

  /** `match_by` lists the targets in registry order. */
  lemma MatchByOrdered(db: VersionDb, pattern: string)
    requires Valid(db)
    ensures var r := MatchBy(db, pattern);
      forall i, j :: 0 <= i < j < |r| ==> Find(db.root, r[i].0) < Find(db.root, r[j].0)
  {
    var kept := FilterByKey(db.root, NameFilter(pattern));
    assert MatchBy(db, pattern) == Summaries(kept);
    KeptOrdered(db.root, pattern, kept);
    SummariesOrdered(db, kept, Summaries(kept));
  }

  lemma KeptOrdered(root: seq<(string, seq<(string, VData)>)>, pattern: string, kept: seq<(string, seq<(string, VData)>)>)
    requires DistinctKeys(root)
    requires kept == FilterByKey(root, NameFilter(pattern))
    ensures forall i, j :: 0 <= i < j < |kept| ==> Find(root, kept[i].0) < Find(root, kept[j].0)
  {
    FilterByKeyOrdered(root, NameFilter(pattern));
  }

  lemma SummariesOrdered(db: VersionDb, kept: seq<(string, seq<(string, VData)>)>, r: seq<(string, seq<string>)>)
    requires forall i, j :: 0 <= i < j < |kept| ==> Find(db.root, kept[i].0) < Find(db.root, kept[j].0)
    requires |r| == |kept| && forall i :: 0 <= i < |r| ==> r[i].0 == kept[i].0
    ensures forall i, j :: 0 <= i < j < |r| ==> Find(db.root, r[i].0) < Find(db.root, r[j].0)
  {
    forall i, j | 0 <= i < j < |r|
      ensures Find(db.root, r[i].0) < Find(db.root, r[j].0)
    {
      assert r[i].0 == kept[i].0 && r[j].0 == kept[j].0;
    }
  }

  lemma MatchedEntries(db: VersionDb, kept: seq<(string, seq<(string, VData)>)>, pattern: string)
    requires Valid(db)
    requires forall e :: e in kept <==> e in db.root && Contains(e.0, pattern)
    ensures forall i :: 0 <= i < |kept| ==>
      Contains(kept[i].0, pattern) && GetAllVersion(db, kept[i].0) == Some(Keys(kept[i].1))
  {
    forall i | 0 <= i < |kept|
      ensures Contains(kept[i].0, pattern) && GetAllVersion(db, kept[i].0) == Some(Keys(kept[i].1))
    {
      assert kept[i] in kept;
      GetMembership(db.root, kept[i].0, kept[i].1);
    }
  }

  lemma MatchedAll(db: VersionDb, kept: seq<(string, seq<(string, VData)>)>, pattern: string)
    requires Valid(db)
    requires forall e :: e in kept <==> e in db.root && Contains(e.0, pattern)
    ensures forall n :: HasTarget(db, n) && Contains(n, pattern) ==> exists i :: 0 <= i < |kept| && kept[i].0 == n
  {
    forall n | HasTarget(db, n) && Contains(n, pattern)
      ensures exists i :: 0 <= i < |kept| && kept[i].0 == n
    {
      var j := Find(db.root, n);
      assert db.root[j] in db.root;
      assert db.root[j] in kept;
    }
  }

  /**
   * The answer of `match_first_version` among `versions`: the position of the
   * earliest version that agrees with `query` and is maximal under
   * `cmp_versions` among those that agree.  This is what the source gets by
   * filtering, sorting with the reversed comparator (a stable sort) and taking
   * the first element.
   */
  function BestMatch(versions: seq<string>, query: string): (r: Option<nat>)
    ensures r.None? <==> forall j :: 0 <= j < |versions| ==> !Agrees(query, versions[j])
    ensures r.Some? ==> r.value < |versions| && Agrees(query, versions[r.value])
    ensures r.Some? ==> forall j :: 0 <= j < |versions| && Agrees(query, versions[j]) ==>
      CmpVersions(versions[j], versions[r.value]) != Greater
    ensures r.Some? ==> forall j :: 0 <= j < r.value && Agrees(query, versions[j]) ==>
      CmpVersions(versions[j], versions[r.value]) == Less
    decreases |versions|
  {
    if |versions| == 0 then None
    else
      var rest := BestMatch(versions[1..], query);
      var head := versions[0];
      if !Agrees(query, head) then
        if rest.Some? then
          ShiftBest(versions, query, rest.value);
          Some(rest.value + 1)
        else
          assert forall j :: 1 <= j < |versions| ==> versions[j] == versions[1..][j - 1];
          None
      else if rest.None? then
        CmpVersionsReflexive(head);
        assert forall j :: 1 <= j < |versions| ==> versions[j] == versions[1..][j - 1];
        Some(0)
      else
        var best := versions[1..][rest.value];
        if CmpVersions(best, head) == Greater then
          CmpVersionsFlip(best, head);
          ShiftBest(versions, query, rest.value);
          Some(rest.value + 1)
        else
          CmpVersionsReflexive(head);
          assert forall j :: 1 <= j < |versions| && Agrees(query, versions[j]) ==>
            CmpVersions(versions[j], head) != Greater by {
            forall j | 1 <= j < |versions| && Agrees(query, versions[j])
              ensures CmpVersions(versions[j], head) != Greater
            {
              assert versions[j] == versions[1..][j - 1];
              CmpVersionsTransitive(versions[j], best, head);
            }
          }
          Some(0)
  }

  /**
   * The best match among `versions[1..]`, at `i`, is the best among
   * `versions` at `i + 1` when the head does not compete with it.
   */
  lemma ShiftBest(versions: seq<string>, query: string, i: nat)
    requires 0 < |versions| && i < |versions| - 1
    requires Agrees(query, versions[1..][i])
    requires forall j :: 0 <= j < |versions| - 1 && Agrees(query, versions[1..][j]) ==>
      CmpVersions(versions[1..][j], versions[1..][i]) != Greater
    requires forall j :: 0 <= j < i && Agrees(query, versions[1..][j]) ==>
      CmpVersions(versions[1..][j], versions[1..][i]) == Less
    requires Agrees(query, versions[0]) ==> CmpVersions(versions[0], versions[i + 1]) == Less
    ensures Agrees(query, versions[i + 1])
    ensures forall j :: 0 <= j < |versions| && Agrees(query, versions[j]) ==>
      CmpVersions(versions[j], versions[i + 1]) != Greater
    ensures forall j :: 0 <= j < i + 1 && Agrees(query, versions[j]) ==>
      CmpVersions(versions[j], versions[i + 1]) == Less
  {
    forall j | 1 <= j < |versions|
      ensures versions[j] == versions[1..][j - 1]
    {
    }
  }

  /**
   * `match_first_version`: among the registered versions of `name` that agree
   * with `query` position by position, the greatest under `cmp_versions`
   * (the first registered one on a tie).
   */
  function MatchFirstVersion(db: VersionDb, name: string, query: string): (r: Option<string>)
    ensures r.Some? ==> HasVersion(db, name, r.value) && Agrees(query, r.value)
    ensures r.Some? ==> forall v :: HasVersion(db, name, v) && Agrees(query, v) ==> CmpVersions(v, r.value) != Greater
    ensures r.None? <==> forall v :: HasVersion(db, name, v) ==> !Agrees(query, v)
  {
    match GetAllVersion(db, name)
    case None => None
    case Some(versions) =>
      match BestMatch(versions, query)
      case None => None
      case Some(i) =>
        assert versions[i] in versions;
        Some(versions[i])
  }

  /** With `1.2.0`, `1.2.9` and `1.3.0` registered, the query `1.2` picks `1.2.9`. */
  lemma MatchFirstVersionExample(db: VersionDb, name: string)
    requires GetAllVersion(db, name) == Some(["1.2.0", "1.2.9", "1.3.0"])
    ensures MatchFirstVersion(db, name, "1.2") == Some("1.2.9")
  {
    var all := ["1.2.0", "1.2.9", "1.3.0"];
    assert all[1] in all;
    ExampleAgreement();
    ExampleOrder();
    var r := MatchFirstVersion(db, name, "1.2");
    assert r.value in all;
  }

  lemma ExampleAgreement()
    ensures Agrees("1.2", "1.2.0") && Agrees("1.2", "1.2.9") && !Agrees("1.2", "1.3.0")
  {
    assert "1.2.0" == "1" + "." + "2" + "." + "0";
    assert "1.2.9" == "1" + "." + "2" + "." + "9";
    assert "1.3.0" == "1" + "." + "3" + "." + "0";
    assert "1.2" == "1" + "." + "2";
    PatchAgrees("1", "2", "0");
    PatchAgrees("1", "2", "9");
    OtherMinorDisagrees("1", "2", "3", "0");
  }

  /** A `major.minor` query agrees with every patch release of it. */
  lemma PatchAgrees(x: string, y: string, z: string)
    requires '.' !in x && '.' !in y && '.' !in z
    ensures Agrees(x + "." + y, x + "." + y + "." + z)
  {
    TwoParts(x, y);
    ThreeParts(x, y, z);
  }

  /** A `major.minor` query rejects every release of another minor version. */
  lemma OtherMinorDisagrees(x: string, y: string, y': string, z: string)
    requires '.' !in x && '.' !in y && '.' !in y' && '.' !in z && y != y'
    ensures !Agrees(x + "." + y, x + "." + y' + "." + z)
  {
    TwoParts(x, y);
    ThreeParts(x, y', z);
    assert Split(x + "." + y, '.')[1] != Split(x + "." + y' + "." + z, '.')[1];
  }

  lemma ExampleOrder()
    ensures CmpVersions("1.2.9", "1.2.0") == Greater
  {
    SmallNumbers();
    assert "1.2.0" == "1" + "." + "2" + "." + "0";
    assert "1.2.9" == "1" + "." + "2" + "." + "9";
    NumericThree("1", "2", "0", 1, 2, 0);
    NumericThree("1", "2", "9", 1, 2, 9);
  }
}
