/**
 * `workspace.rs`: a named, insertion-ordered map from target to selected
 * version, with `active` and `inherit` flags.  Loading and saving the file
 * are not part of this model.
 */
module Workspaces {
  import opened Results
  import opened Text
  import opened IndexMaps

  datatype Workspace = Workspace(
    name: string,
    active: bool,
    inherit: bool,
    versions: seq<(string, string)>)

  predicate Valid(w: Workspace) {
    DistinctKeys(w.versions)
  }

  /** `Workspace::new`: active, inheriting, and no versions selected. */
  function New(name: string): (w: Workspace)
    ensures Valid(w)
    ensures w.name == name && w.active && w.inherit
    ensures forall t :: Version(w, t) == None
  {
    Workspace(name, true, true, [])
  }

  /** `version`: the selected version of a target. */
  function Version(w: Workspace, target: string): Option<string> {
    Get(w.versions, target)
  }

  /** `set_version`: select `version`, overwriting an earlier selection in place. */
  function SetVersion(w: Workspace, target: string, version: string): (r: Workspace)
    requires Valid(w)
    ensures Valid(r)
    ensures Version(r, target) == Some(version)
    ensures forall t :: t != target ==> Version(r, t) == Version(w, t)
    ensures (r.name, r.active, r.inherit) == (w.name, w.active, w.inherit)
    ensures Version(w, target).Some? ==> Keys(r.versions) == Keys(w.versions)
  {
    w.(versions := Insert(w.versions, target, version))
  }

  /** `remove`: drop the target's selection (a swap-remove). */
  function Remove(w: Workspace, target: string): (r: Workspace)
    requires Valid(w)
    ensures Valid(r)
    ensures Version(r, target) == None
    ensures forall t :: t != target ==> Version(r, t) == Version(w, t)
    ensures (r.name, r.active, r.inherit) == (w.name, w.active, w.inherit)
    ensures Version(w, target).None? ==> r == w
  {
    w.(versions := SwapRemove(w.versions, target))
  }

  function SetName(w: Workspace, name: string): (r: Workspace)
    ensures r.name == name
    ensures (r.active, r.inherit, r.versions) == (w.active, w.inherit, w.versions)
  {
    w.(name := name)
  }

  function SetActive(w: Workspace, active: bool): (r: Workspace)
    ensures r.active == active
    ensures (r.name, r.inherit, r.versions) == (w.name, w.inherit, w.versions)
  {
    w.(active := active)
  }

  function SetInherit(w: Workspace, inherit: bool): (r: Workspace)
    ensures r.inherit == inherit
    ensures (r.name, r.active, r.versions) == (w.name, w.active, w.versions)
  {
    w.(inherit := inherit)
  }

  /**
   * `merge`: `set_version` for every pair of `other` in order, so `other`
   * wins on every key it has; the metadata of `w` stays.
   */
  function Merge(w: Workspace, other: Workspace): (r: Workspace)
    requires Valid(w) && Valid(other)
    ensures Valid(r)
    ensures forall t :: Version(other, t).Some? ==> Version(r, t) == Version(other, t)
    ensures forall t :: Version(other, t).None? ==> Version(r, t) == Version(w, t)
    ensures (r.name, r.active, r.inherit) == (w.name, w.active, w.inherit)
    ensures |w.versions| <= |r.versions| && Keys(r.versions)[..|w.versions|] == Keys(w.versions)
    ensures |other.versions| == 0 ==> r == w
  {
    var versions := InsertAll(w.versions, other.versions);
    assert forall t :: Version(other, t).Some? ==> Get(versions, t) == Version(other, t) by {
      forall t | Version(other, t).Some?
        ensures Get(versions, t) == Version(other, t)
      {
        InsertAllOverlays(w.versions, other.versions, t);
      }
    }
    assert forall t :: Version(other, t).None? ==> Get(versions, t) == Version(w, t) by {
      forall t | Version(other, t).None?
        ensures Get(versions, t) == Version(w, t)
      {
        InsertAllKeeps(w.versions, other.versions, t);
      }
    }
    InsertAllKeepsOrder(w.versions, other.versions);
    w.(versions := versions)
  }

  /** Merging the same workspace a second time changes nothing, order included. */
  lemma MergeIdempotent(w: Workspace, other: Workspace)
    requires Valid(w) && Valid(other)
    ensures Merge(Merge(w, other), other) == Merge(w, other)
  {
    var once := Merge(w, other);
    forall i | 0 <= i < |other.versions|
      ensures Get(once.versions, other.versions[i].0) == Some(other.versions[i].1)
    {
      var (k, v) := other.versions[i];
      GetMembership(other.versions, k, v);
      assert Version(other, k) == Some(v);
      assert Version(once, k) == Version(other, k);
    }
    InsertAllPresent(once.versions, other.versions);
  }

  /** `match_by`: the pairs whose target contains `pattern`, in map order. */
  function MatchBy(w: Workspace, pattern: string): (r: seq<(string, string)>)
    requires Valid(w)
    ensures forall t :: Get(r, t) == if Contains(t, pattern) then Version(w, t) else None
  {
    var r := FilterByKey(w.versions, TargetFilter(pattern));
    MatchedVersions(w, pattern, r);
    r
  }

  function TargetFilter(pattern: string): string -> bool {
    (t: string) => Contains(t, pattern)
  }

  lemma MatchedVersions(w: Workspace, pattern: string, r: seq<(string, string)>)
    requires Valid(w)
    requires r == FilterByKey(w.versions, TargetFilter(pattern))
    ensures forall t :: Get(r, t) == if Contains(t, pattern) then Version(w, t) else None
  {
    forall t
      ensures Get(r, t) == if Contains(t, pattern) then Version(w, t) else None
    {
      FilterByKeyGet(w.versions, TargetFilter(pattern), t);
    }
  }

  /** `match_by` keeps the map order of the workspace. */
  lemma MatchByOrdered(w: Workspace, pattern: string)
    requires Valid(w)
    ensures var r := MatchBy(w, pattern);
      forall i, j :: 0 <= i < j < |r| ==> Find(w.versions, r[i].0) < Find(w.versions, r[j].0)
  {
    assert MatchBy(w, pattern) == FilterByKey(w.versions, TargetFilter(pattern));
    FilterByKeyOrdered(w.versions, TargetFilter(pattern));
  }

  /** `all_versions`: every pair in map order. */
  function AllVersions(w: Workspace): seq<(string, string)> {
    w.versions
  }

  /** Every name contains the empty pattern, so `match_by("")` is `all_versions`. */
  lemma MatchByEmptyIsAll(w: Workspace)
    requires Valid(w)
    ensures MatchBy(w, "") == AllVersions(w)
  {
    forall t {
      ContainsEmpty(t);
    }
    FilterAll(w.versions, TargetFilter(""));
  }

  lemma {:induction false} FilterAll(m: seq<(string, string)>, p: string -> bool)
    requires DistinctKeys(m)
    requires forall t :: p(t)
    ensures FilterByKey(m, p) == m
  {
    if |m| > 0 {
      FilterAll(m[1..], p);
      assert [m[0]] + m[1..] == m;
    }
  }
}
