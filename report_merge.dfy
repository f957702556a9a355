/**
 The pure part of `performAnalysis`: the three keyed views built from the
 requested dependencies and from the provider's findings, with every Java
 stream `collect(toMap(..., (o1, o2) -> o1))` read in encounter order, so that
 on a key collision the earlier element wins.
 */
module ReportMerge {
  import opened Wrappers

  /**
   One per-dependency finding of the analysis provider. `ref` is the package
   URL of the dependency it is about, when the provider gave one; `details`
   is everything else the report carries, which the cache never inspects.
   */
  datatype DependencyReport<X> = DependencyReport(ref: Option<string>, details: X)

  /** The finding `r` has a reference whose version-insensitive key is `k`. */
  predicate RefersTo<X, K(==)>(r: DependencyReport<X>, keyOfPurl: string -> K, k: K)
  {
    r.ref.Some? && keyOfPurl(r.ref.value) == k
  }

  /** `i` is the position of the first finding that refers to `k`. */
  ghost predicate FirstReferring<X, K>(reports: seq<DependencyReport<X>>, keyOfPurl: string -> K, k: K, i: int)
  {
    && 0 <= i < |reports|
    && RefersTo(reports[i], keyOfPurl, k)
    && forall j :: 0 <= j < i ==> !RefersTo(reports[j], keyOfPurl, k)
  }

  /** No finding refers to `k`. */
  ghost predicate Unreferenced<X, K>(reports: seq<DependencyReport<X>>, keyOfPurl: string -> K, k: K)
  {
    forall i :: 0 <= i < |reports| ==> !RefersTo(reports[i], keyOfPurl, k)
  }

  /**
   `dependencyMap`: each requested dependency mapped to its
   version-insensitive identity.
   */
  function DependencyMap<D(==,!new), K>(deps: seq<D>, normalize: D -> K): (m: map<D, K>)
    ensures forall d :: d in m <==> d in deps
    ensures forall d :: d in m ==> m[d] == normalize(d)
  {
    if deps == [] then map[]
    else DependencyMap(deps[1..], normalize)[deps[0] := normalize(deps[0])]
  }

  /**
   `reportMap`: the findings that carry a reference, keyed by the
   version-insensitive identity of that reference; findings without a
   reference are dropped, and of two findings with the same key the earlier
   one is kept.
   */
  function ReportMap<X, K(==)>(reports: seq<DependencyReport<X>>, keyOfPurl: string -> K): (m: map<K, DependencyReport<X>>)
    ensures forall k :: k in m ==> m[k] in reports && RefersTo(m[k], keyOfPurl, k)
  {
    if reports == [] then map[]
    else
      var rest := ReportMap(reports[1..], keyOfPurl);
      match reports[0].ref
      case None => rest
      case Some(purl) => rest[keyOfPurl(purl) := reports[0]]
  }

  /** A key is in `reportMap` exactly when some finding refers to it. */
  lemma {:induction false} ReportMapKeys<X, K>(reports: seq<DependencyReport<X>>, keyOfPurl: string -> K, k: K)
    ensures k in ReportMap(reports, keyOfPurl) <==> !Unreferenced(reports, keyOfPurl, k)
  {
    if reports != [] {
      var tail := reports[1..];
      ReportMapKeys(tail, keyOfPurl, k);
      if !Unreferenced(tail, keyOfPurl, k) {
        var i :| 0 <= i < |tail| && RefersTo(tail[i], keyOfPurl, k);
        assert RefersTo(reports[i + 1], keyOfPurl, k);
      }
      if !Unreferenced(reports, keyOfPurl, k) && !RefersTo(reports[0], keyOfPurl, k) {
        var i :| 0 <= i < |reports| && RefersTo(reports[i], keyOfPurl, k);
        assert RefersTo(tail[i - 1], keyOfPurl, k);
      }
    }
  }

  /** Of the findings that refer to a key, `reportMap` keeps the first one. */
  lemma {:induction false} ReportMapFirstWins<X, K>(reports: seq<DependencyReport<X>>, keyOfPurl: string -> K, k: K, i: int)
    requires FirstReferring(reports, keyOfPurl, k, i)
    ensures k in ReportMap(reports, keyOfPurl) && ReportMap(reports, keyOfPurl)[k] == reports[i]
  {
    if i > 0 {
      var tail := reports[1..];
      assert !RefersTo(reports[0], keyOfPurl, k);
      forall j | 0 <= j < i - 1 ensures !RefersTo(tail[j], keyOfPurl, k) {
        assert tail[j] == reports[j + 1];
      }
      ReportMapFirstWins(tail, keyOfPurl, k, i - 1);
    }
  }

  /** Every key some finding refers to has a first such finding. */
  lemma {:induction false} FirstReferringExists<X, K>(reports: seq<DependencyReport<X>>, keyOfPurl: string -> K, k: K)
    requires !Unreferenced(reports, keyOfPurl, k)
    ensures exists i :: FirstReferring(reports, keyOfPurl, k, i)
  {
    if RefersTo(reports[0], keyOfPurl, k) {
      assert FirstReferring(reports, keyOfPurl, k, 0);
    } else {
      var tail := reports[1..];
      var i :| 0 <= i < |reports| && RefersTo(reports[i], keyOfPurl, k);
      assert RefersTo(tail[i - 1], keyOfPurl, k);
      FirstReferringExists(tail, keyOfPurl, k);
      var j :| FirstReferring(tail, keyOfPurl, k, j);
      forall m | 0 <= m < j + 1 ensures !RefersTo(reports[m], keyOfPurl, k) {
        if m > 0 { assert reports[m] == tail[m - 1]; }
      }
      assert FirstReferring(reports, keyOfPurl, k, j + 1);
    }
  }

  /**
   A finding without a reference contributes nothing: removing it, wherever
   it stands, leaves `reportMap` as it was.
   */
  lemma {:induction false} ReportMapIgnoresUnreferenced<X, K>(
    before: seq<DependencyReport<X>>, r: DependencyReport<X>, after: seq<DependencyReport<X>>, keyOfPurl: string -> K)
    requires r.ref.None?
    ensures ReportMap(before + [r] + after, keyOfPurl) == ReportMap(before + after, keyOfPurl)
  {
    if before == [] {
      assert before + [r] + after == [r] + after;
      assert ([r] + after)[1..] == after;
      assert before + after == after;
    } else {
      assert (before + [r] + after)[1..] == before[1..] + [r] + after;
      assert (before + after)[1..] == before[1..] + after;
      ReportMapIgnoresUnreferenced(before[1..], r, after, keyOfPurl);
    }
  }

  /**
   `resultMap`: every requested dependency paired with the finding for its
   identity, or with the sentinel `noVulDep` when there is none.
   */
  function ResultMap<D, K, X>(dependencyMap: map<D, K>, reportMap: map<K, DependencyReport<X>>, noVulDep: DependencyReport<X>)
    : (m: map<D, DependencyReport<X>>)
    ensures m.Keys == dependencyMap.Keys
  {
    map d | d in dependencyMap :: if dependencyMap[d] in reportMap then reportMap[dependencyMap[d]] else noVulDep
  }

  /** The merged per-dependency result of one analysis (lines 70-101). */
  function Merge<D(==,!new), K(==), X>(
    deps: seq<D>, reports: seq<DependencyReport<X>>,
    normalize: D -> K, keyOfPurl: string -> K, noVulDep: DependencyReport<X>)
    : (m: map<D, DependencyReport<X>>)
    ensures forall d :: d in m <==> d in deps
  {
    ResultMap(DependencyMap(deps, normalize), ReportMap(reports, keyOfPurl), noVulDep)
  }

  /**
   A requested dependency gets the first finding whose reference has the
   same version-insensitive identity as the dependency.
   */
  lemma MergeUsesFirstMatch<D(!new), K, X>(
    deps: seq<D>, reports: seq<DependencyReport<X>>,
    normalize: D -> K, keyOfPurl: string -> K, noVulDep: DependencyReport<X>, d: D, i: int)
    requires d in deps
    requires FirstReferring(reports, keyOfPurl, normalize(d), i)
    ensures Merge(deps, reports, normalize, keyOfPurl, noVulDep)[d] == reports[i]
  {
    ReportMapFirstWins(reports, keyOfPurl, normalize(d), i);
  }

  /** A requested dependency that no finding refers to gets the sentinel. */
  lemma MergeUsesSentinel<D(!new), K, X>(
    deps: seq<D>, reports: seq<DependencyReport<X>>,
    normalize: D -> K, keyOfPurl: string -> K, noVulDep: DependencyReport<X>, d: D)
    requires d in deps
    requires Unreferenced(reports, keyOfPurl, normalize(d))
    ensures Merge(deps, reports, normalize, keyOfPurl, noVulDep)[d] == noVulDep
  {
    ReportMapKeys(reports, keyOfPurl, normalize(d));
  }

  /**
   Every requested dependency gets exactly one result: the first matching
   finding if there is one, the sentinel otherwise, and never nothing.
   */
  lemma MergeTotal<D(!new), K, X>(
    deps: seq<D>, reports: seq<DependencyReport<X>>,
    normalize: D -> K, keyOfPurl: string -> K, noVulDep: DependencyReport<X>, d: D)
    requires d in deps
    ensures d in Merge(deps, reports, normalize, keyOfPurl, noVulDep)
    ensures (Unreferenced(reports, keyOfPurl, normalize(d))
             && Merge(deps, reports, normalize, keyOfPurl, noVulDep)[d] == noVulDep)
            || exists i :: FirstReferring(reports, keyOfPurl, normalize(d), i)
                        && Merge(deps, reports, normalize, keyOfPurl, noVulDep)[d] == reports[i]
  {
    if Unreferenced(reports, keyOfPurl, normalize(d)) {
      MergeUsesSentinel(deps, reports, normalize, keyOfPurl, noVulDep, d);
    } else {
      FirstReferringExists(reports, keyOfPurl, normalize(d));
      var i :| FirstReferring(reports, keyOfPurl, normalize(d), i);
      MergeUsesFirstMatch(deps, reports, normalize, keyOfPurl, noVulDep, d, i);
    }
  }

  /**
   With a sentinel that carries no reference, as `new DependencyReport()`
   does, a requested dependency gets the sentinel exactly when no finding
   refers to its identity: the sentinel is never confused with a finding.
   */
  lemma MergeSentinelIff<D(!new), K, X>(
    deps: seq<D>, reports: seq<DependencyReport<X>>,
    normalize: D -> K, keyOfPurl: string -> K, noVulDep: DependencyReport<X>, d: D)
    requires d in deps
    requires noVulDep.ref.None?
    ensures Merge(deps, reports, normalize, keyOfPurl, noVulDep)[d] == noVulDep
            <==> Unreferenced(reports, keyOfPurl, normalize(d))
  {
    MergeTotal(deps, reports, normalize, keyOfPurl, noVulDep, d);
    if Unreferenced(reports, keyOfPurl, normalize(d)) {
      MergeUsesSentinel(deps, reports, normalize, keyOfPurl, noVulDep, d);
    }
  }

  /**
   Two requested dependencies `a` and `b` with different identities, and one
   finding whose reference has the identity of `a` (for instance the same
   package at another version): `a` gets the finding, `b` the sentinel.
   */
  lemma MergeOneFinding<D(!new), K, X>(
    a: D, b: D, finding: DependencyReport<X>,
    normalize: D -> K, keyOfPurl: string -> K, noVulDep: DependencyReport<X>)
    requires finding.ref.Some? && keyOfPurl(finding.ref.value) == normalize(a)
    requires normalize(b) != normalize(a)
    ensures Merge([a, b], [finding], normalize, keyOfPurl, noVulDep) == map[a := finding, b := noVulDep]
  {
    var m := Merge([a, b], [finding], normalize, keyOfPurl, noVulDep);
    MergeUsesFirstMatch([a, b], [finding], normalize, keyOfPurl, noVulDep, a, 0);
    assert Unreferenced([finding], keyOfPurl, normalize(b));
    MergeUsesSentinel([a, b], [finding], normalize, keyOfPurl, noVulDep, b);
    assert m.Keys == {a, b};
  }
}
