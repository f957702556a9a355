/**
 The two-level vulnerability-report cache of the component-analysis service
 and its analysis routine. The outer level maps a file path to that file's
 inner cache; an inner cache maps a requested dependency to the report the
 analysis provider gave for it, or to the sentinel `noVulDep` when the
 provider analysed the file and had nothing to say about that dependency.
 */
module ComponentAnalysis {
  import opened Wrappers
  import opened ReportMerge

  /** One call of the external analysis provider, which analyses a whole file. */
  datatype ProviderCall = ProviderCall(packageManager: string, fileName: string, filePath: string)

  /**
   What the provider answers: `None` for a null report, `Some(None)` for a
   report whose dependency list is null, `Some(Some(reports))` otherwise.
   */
  type Response<X> = Option<Option<seq<DependencyReport<X>>>>

  /** Caffeine's `getAllPresent`: the entries of `inner` for the requested dependencies. */
  function AllPresent<D(==,!new), V>(inner: map<D, V>, deps: seq<D>): (present: map<D, V>)
    ensures present.Keys <= inner.Keys
    ensures forall d :: d in present ==> d in deps && present[d] == inner[d]
    ensures forall d :: d in deps && d in inner ==> d in present
  {
    map d | d in deps && d in inner :: inner[d]
  }

  /** Java's `keys.containsAll(deps)`. */
  predicate ContainsAll<D(==)>(keys: set<D>, deps: seq<D>)
  {
    forall d :: d in deps ==> d in keys
  }

  /** The test of line 65: every requested dependency already has a report in `inner`. */
  predicate Covered<D(==,!new), V>(inner: map<D, V>, deps: seq<D>)
    ensures Covered(inner, deps) ==> AllPresent(inner, deps).Keys == set d | d in deps
  {
    ContainsAll(AllPresent(inner, deps).Keys, deps)
  }

  /** The cache-hit test holds exactly when `inner` has a key for every requested dependency. */
  lemma CoveredIff<D(!new), V>(inner: map<D, V>, deps: seq<D>)
    ensures Covered(inner, deps) <==> forall i :: 0 <= i < |deps| ==> deps[i] in inner
  {
  }

  /**
   The decision `performAnalysis` takes for a file whose inner cache is
   `inner`: `Some(resultMap)` when it writes `resultMap` into the inner cache
   and returns true, `None` when it returns false and writes nothing.
   `response` is what the provider answers if it is asked.
   */
  function Analyze<D(==,!new), K(==), X>(
    inner: map<D, DependencyReport<X>>, deps: seq<D>, response: Response<X>,
    normalize: D -> K, keyOfPurl: string -> K, noVulDep: DependencyReport<X>)
    : (decision: Option<map<D, DependencyReport<X>>>)
    ensures decision.Some? ==> !Covered(inner, deps) && response.Some? && response.value.Some?
    ensures decision.Some? ==> forall d :: d in decision.value <==> d in deps
  {
    if Covered(inner, deps) then None
    else
      match response
      case None => None
      case Some(None) => None
      case Some(Some(reports)) =>
        var resultMap := Merge(deps, reports, normalize, keyOfPurl, noVulDep);
        if ContainsAll(resultMap.Keys, deps) then Some(resultMap) else None
  }

  /**
   Nothing is written exactly when the cache already covers the request or
   the provider gave no usable report; otherwise the merged result is
   written. In particular the defensive `containsAll` of line 103 never
   fails once a report with a dependency list has arrived.
   */
  lemma AnalyzeWritesIff<D(!new), K, X>(
    inner: map<D, DependencyReport<X>>, deps: seq<D>, response: Response<X>,
    normalize: D -> K, keyOfPurl: string -> K, noVulDep: DependencyReport<X>)
    ensures Analyze(inner, deps, response, normalize, keyOfPurl, noVulDep).Some?
            <==> !Covered(inner, deps) && response.Some? && response.value.Some?
    ensures Analyze(inner, deps, response, normalize, keyOfPurl, noVulDep).Some? ==>
            Analyze(inner, deps, response, normalize, keyOfPurl, noVulDep).value
            == Merge(deps, response.value.value, normalize, keyOfPurl, noVulDep)
  {
  }

  /**
   After a write, the inner cache covers every requested dependency, so
   reading those dependencies back gives exactly the merged result, and a
   repeated analysis of the same dependencies asks the provider nothing.
   Entries for other dependencies keep their old reports.
   */
  lemma AnalyzeThenCovered<D(!new), K, X>(
    inner: map<D, DependencyReport<X>>, deps: seq<D>, response: Response<X>,
    normalize: D -> K, keyOfPurl: string -> K, noVulDep: DependencyReport<X>)
    requires Analyze(inner, deps, response, normalize, keyOfPurl, noVulDep).Some?
    ensures var written := Analyze(inner, deps, response, normalize, keyOfPurl, noVulDep).value;
            && Covered(inner + written, deps)
            && AllPresent(inner + written, deps) == written
            && (forall d :: d in inner && d !in deps ==> d in inner + written && (inner + written)[d] == inner[d])
  {
  }

  /** The service: the outer cache, the identity functions and the sentinel. */
  class CAService<D(==,!new), K(==), X> {
    /** `new Dependency(d, false)`: the version-insensitive identity of a requested dependency. */
    const normalize: D -> K
    /** `new Dependency(purl, false)`: the version-insensitive identity of a package URL. */
    const keyOfPurl: string -> K
    /** `NO_VUL_DEP`: the shared "analysed, no findings" report, which has no reference. */
    const noVulDep: DependencyReport<X>

    /** The outer cache: file path to that file's inner cache. */
    var vulnerabilityCache: map<string, map<D, DependencyReport<X>>>
    /** The provider calls made so far, in order. */
    ghost var providerCalls: seq<ProviderCall>

    constructor (normalize: D -> K, keyOfPurl: string -> K, noVulDep: DependencyReport<X>)
      requires noVulDep.ref.None?
      ensures this.normalize == normalize && this.keyOfPurl == keyOfPurl && this.noVulDep == noVulDep
      ensures vulnerabilityCache == map[] && providerCalls == []
    {
      this.normalize := normalize;
      this.keyOfPurl := keyOfPurl;
      this.noVulDep := noVulDep;
      vulnerabilityCache := map[];
      providerCalls := [];
    }

    /** The inner cache of `filePath`; a file without one reads as empty. */
    function InnerOf(filePath: string): map<D, DependencyReport<X>>
      reads this
    {
      if filePath in vulnerabilityCache then vulnerabilityCache[filePath] else map[]
    }

    /** Get-or-create: the inner cache of `filePath`, created empty if it is missing. */
    method GetCache(filePath: string) returns (cache: map<D, DependencyReport<X>>)
      modifies this`vulnerabilityCache
      ensures cache == old(InnerOf(filePath))
      ensures vulnerabilityCache == old(vulnerabilityCache)[filePath := cache]
    {
      if filePath !in vulnerabilityCache {
        vulnerabilityCache := vulnerabilityCache[filePath := map[]];
      }
      cache := vulnerabilityCache[filePath];
    }

    /** Drops the inner cache of `filePath`. */
    method DeleteCache(filePath: string)
      modifies this`vulnerabilityCache
      ensures vulnerabilityCache == old(vulnerabilityCache) - {filePath}
    {
      vulnerabilityCache := vulnerabilityCache - {filePath};
    }

    /** The cached reports of `filePath` for the requested dependencies; never asks the provider. */
    method GetReports(filePath: string, dependencies: seq<D>) returns (reports: map<D, DependencyReport<X>>)
      modifies this`vulnerabilityCache
      ensures reports == AllPresent(old(InnerOf(filePath)), dependencies)
      ensures vulnerabilityCache == old(vulnerabilityCache)[filePath := old(InnerOf(filePath))]
    {
      var cache := GetCache(filePath);
      reports := AllPresent(cache, dependencies);
    }

    /** Drops every cached report of `filePath`; a later read of it is empty. */
    method DeleteReports(filePath: string)
      modifies this`vulnerabilityCache
      ensures vulnerabilityCache == old(vulnerabilityCache) - {filePath}
      ensures InnerOf(filePath) == map[]
    {
      DeleteCache(filePath);
    }

    /**
     Fetches and caches reports for `dependencies` of `filePath` unless all of
     them are cached already. The provider is asked at most once, for the
     whole file; `response` is its answer. Returns true exactly when the
     merged result was written into the inner cache, which is the only change
     to any inner cache; the get-or-create of the file's inner cache is the
     only other change to the outer cache.
     */
    method PerformAnalysis(packageManager: string, fileName: string, filePath: string,
                           dependencies: seq<D>, response: Response<X>)
      returns (fetched: bool)
      modifies this
      ensures providerCalls == old(providerCalls) +
                (if Covered(old(InnerOf(filePath)), dependencies) then []
                 else [ProviderCall(packageManager, fileName, filePath)])
      ensures var decision := Analyze(old(InnerOf(filePath)), dependencies, response, normalize, keyOfPurl, noVulDep);
              && fetched == decision.Some?
              && vulnerabilityCache == old(vulnerabilityCache)[filePath :=
                   if fetched then old(InnerOf(filePath)) + decision.value else old(InnerOf(filePath))]
    {
      var cache := GetCache(filePath);
      fetched := false;
      if !ContainsAll(AllPresent(cache, dependencies).Keys, dependencies) {
        providerCalls := providerCalls + [ProviderCall(packageManager, fileName, filePath)];
        var report := response;
        if report.Some? && report.value.Some? {
          var dependencyMap := DependencyMap(dependencies, normalize);
          var reportMap := ReportMap(report.value.value, keyOfPurl);
          var resultMap := ResultMap(dependencyMap, reportMap, noVulDep);
          if ContainsAll(resultMap.Keys, dependencies) {
            vulnerabilityCache := vulnerabilityCache[filePath := cache + resultMap];
            fetched := true;
          }
        }
      }
    }
  }

  /**
   A caller's view of the service: a fresh analysis of two dependencies with
   one matching finding caches the finding and the sentinel, a second
   analysis of them asks the provider nothing, and after deleting the file's
   reports nothing is read back.
   */
  method AnalyseReadDelete<D(==,!new), K(==), X>(
    service: CAService<D, K, X>, filePath: string, a: D, b: D, finding: DependencyReport<X>)
    requires filePath !in service.vulnerabilityCache
    requires finding.ref.Some? && service.keyOfPurl(finding.ref.value) == service.normalize(a)
    requires service.normalize(b) != service.normalize(a)
    modifies service
    ensures service.providerCalls == old(service.providerCalls) + [ProviderCall("maven", "pom.xml", filePath)]
    ensures service.InnerOf(filePath) == map[]
  {
    var fetched := service.PerformAnalysis("maven", "pom.xml", filePath, [a, b], Some(Some([finding])));
    MergeOneFinding(a, b, finding, service.normalize, service.keyOfPurl, service.noVulDep);
    assert fetched;
    var reports := service.GetReports(filePath, [a, b]);
    assert reports == map[a := finding, b := service.noVulDep];
    var again := service.PerformAnalysis("maven", "pom.xml", filePath, [a, b], None);
    assert !again;
    service.DeleteReports(filePath);
    reports := service.GetReports(filePath, [a, b]);
    assert reports == map[];
  }
}
