/**
 * Selection of the latest version among objects, through a dictionary keyed by version: of several
 * objects with the same version, the last one stays.
 */
module LatestVersion {
  import opened Wrappers
  import opened SemVer

  predicate AllParse<T>(objects: seq<T>, key: T -> string) {
    forall i | 0 <= i < |objects| :: Parse(key(objects[i])).Some?
  }

  function VersionOf<T>(x: T, key: T -> string): Version
    requires Parse(key(x)).Some?
  {
    Parse(key(x)).value
  }

  function Versions<T>(objects: seq<T>, key: T -> string): (vs: seq<Version>)
    requires AllParse(objects, key)
    ensures |vs| == |objects|
    ensures forall i | 0 <= i < |vs| :: vs[i] == VersionOf(objects[i], key)
  {
    seq(|objects|, i requires 0 <= i < |objects| => VersionOf(objects[i], key))
  }

  // For every version, the position of the object that the dictionary holds
  function ByVersion(vs: seq<Version>): map<Version, nat> {
    if vs == [] then map[] else ByVersion(vs[..|vs| - 1])[vs[|vs| - 1] := |vs| - 1]
  }

  ghost predicate IsMaximum(versions: set<Version>, m: Version) {
    m in versions && forall v | v in versions :: Compare(v, m) <= 0
  }

  lemma {:induction false} MaximumExists(versions: set<Version>)
    requires versions != {}
    ensures exists m :: IsMaximum(versions, m)
    decreases |versions|
  {
    var m :| m in versions;
    var rest := versions - {m};
    CompareIsATotalOrder(m, m, m);
    if rest == {} {
      assert versions == {m};
      assert IsMaximum(versions, m);
    } else {
      MaximumExists(rest);
      var r :| IsMaximum(rest, r);
      CompareIsATotalOrder(m, r, m);
      if Compare(m, r) <= 0 {
        assert IsMaximum(versions, r);
      } else {
        forall v | v in rest ensures Compare(v, m) <= 0 {
          CompareIsATotalOrder(v, r, m);
        }
        assert IsMaximum(versions, m);
      }
    }
  }

  // max() of the keys
  ghost function Maximum(versions: set<Version>): (m: Version)
    requires versions != {}
    ensures IsMaximum(versions, m)
  {
    MaximumExists(versions);
    var m :| IsMaximum(versions, m);
    m
  }

  // find_latest_stable and find_latest_wildcard; `keep` is what their filters leave in
  ghost function FindLatest<T>(objects: seq<T>, key: T -> string, keep: Version -> bool): Result<Option<T>, string> {
    if !AllParse(objects, key) then Err("version doesn't match SemVer format")
    else
      var vs := Versions(objects, key);
      ByVersionIsLast(vs);
      var candidates := map v | v in ByVersion(vs) && keep(v) :: objects[ByVersion(vs)[v]];
      if candidates == map[] then Ok(None) else Ok(Some(candidates[Maximum(candidates.Keys)]))
  }

  // vs[i] is the last v.
  ghost predicate IsLastWith(vs: seq<Version>, v: Version, i: nat) {
    i < |vs| && vs[i] == v && forall j | i < j < |vs| :: vs[j] != v
  }

  lemma {:induction false} ByVersionIsLast(vs: seq<Version>)
    ensures forall v :: v in ByVersion(vs) <==> v in vs
    ensures forall v | v in ByVersion(vs) :: IsLastWith(vs, v, ByVersion(vs)[v])
  {
    if vs != [] {
      var front := vs[..|vs| - 1];
      ByVersionIsLast(front);
      assert vs == front + [vs[|vs| - 1]];
      forall v | v in ByVersion(vs) ensures IsLastWith(vs, v, ByVersion(vs)[v]) {
        assert v != vs[|vs| - 1] ==> IsLastWith(front, v, ByVersion(front)[v]);
      }
    }
  }

  // The i-th version passes the filter, it precedes no other that does, and none after it is equal.
  ghost predicate IsLatest(vs: seq<Version>, keep: Version -> bool, i: nat) {
    && i < |vs|
    && IsLastWith(vs, vs[i], i)
    && keep(vs[i])
    && forall v | v in vs && keep(v) :: !Precedes(vs[i], v)
  }

  // The selection fails exactly if a version cannot be parsed, finds nothing exactly if no object
  // passes the filter, and otherwise returns the last of the objects with the greatest version.
  lemma FindLatestFindsTheLatest<T>(objects: seq<T>, key: T -> string, keep: Version -> bool)
    ensures var r := FindLatest(objects, key, keep);
      && (r.Err? <==> !AllParse(objects, key))
      && (r.Ok? && r.value.None? ==> forall v | v in Versions(objects, key) :: !keep(v))
      && (r.Ok? && r.value.Some? ==> exists i: nat :: IsLatest(Versions(objects, key), keep, i) && objects[i] == r.value.value)
  {
    if AllParse(objects, key) {
      var vs := Versions(objects, key);
      ByVersionIsLast(vs);
      var candidates := map v | v in ByVersion(vs) && keep(v) :: objects[ByVersion(vs)[v]];
      assert forall v | v in vs && keep(v) :: v in candidates;
      if candidates != map[] {
        var m := Maximum(candidates.Keys);
        assert IsLastWith(vs, m, ByVersion(vs)[m]);
        forall v | v in vs && keep(v) ensures !Precedes(m, v) {
          CompareIsByPrecedence(v, m);
        }
        assert IsLatest(vs, keep, ByVersion(vs)[m]);
      }
    }
  }
}
