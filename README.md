# Component-analysis report cache

A model of the vulnerability-report cache of the IntelliJ dependency-analytics
plugin's component-analysis service (`CAService`) and of its analysis routine
`performAnalysis`.

The service keeps a two-level cache. The outer level maps a manifest's file
path to that file's inner cache. An inner cache maps a requested dependency to
the `DependencyReport` the analysis provider returned for it, or to the shared
sentinel `NO_VUL_DEP` ("analysed, no findings"). `performAnalysis` asks the
provider for a report on the whole file only when some requested dependency is
missing from the inner cache. It then matches the requested dependencies to the
provider's findings by version-insensitive identity, gives unmatched
dependencies the sentinel, and writes the whole result into the inner cache at
once.

Files:

- `wrappers.dfy` (module `Wrappers`): `Option`, standing for Java's nullable references.
- `report_merge.dfy` (module `ReportMerge`): the pure stream pipeline of lines
  70-101. `DependencyMap`, `ReportMap` and `ResultMap` are the three keyed
  views; `Merge` composes them. Each `collect(toMap(..., (o1, o2) -> o1))` is
  read in encounter order, so the earlier element wins a key collision. The
  lemmas characterise `ReportMap` and `Merge` against an independent
  definition: the first finding whose reference has a given identity
  (`FirstReferring`), or no such finding (`Unreferenced`).
- `ca_service.dfy` (module `ComponentAnalysis`): Caffeine's `getAllPresent` as
  `AllPresent`, the decision of `performAnalysis` as the function `Analyze`
  with its lemmas, and the class `CAService`. The class holds the outer cache as
  a `map<string, map<D, DependencyReport<X>>>` field, plus a ghost log of
  provider calls. Its methods mirror `getCache`, `deleteCache`, `getReports`,
  `deleteReports` and `performAnalysis`, and they are proved against `AllPresent`
  and `Analyze`. `AnalyseReadDelete` is a client of the class that walks through
  an analyse / read / re-analyse / delete / read sequence using only the
  method contracts.

How the Java entities are represented:

- `Dependency` is not shown, so it is a type parameter `D`. The version-insensitive
  identities `new Dependency(d, false)` and `new Dependency(purl, false)` are
  the injected functions `normalize: D -> K` and `keyOfPurl: string -> K` into
  a shared key type `K`.
- A `DependencyReport` is `DependencyReport(ref, details)`. `ref` is the
  package URL of its reference, or `None` for a null `ref`. `details` (type
  parameter `X`) is the rest of the report, which the cache never looks at.
  `NO_VUL_DEP` is the constant `noVulDep`, fixed when the service is built.
  Like `new DependencyReport()`, it must have no `ref`. Every finding in the
  report map has one, so a cached sentinel always means "no finding matched".
- The provider call `ApiService.getComponentAnalysis` is the parameter
  `response: Option<Option<seq<DependencyReport<X>>>>`. `None` is a null
  report, `Some(None)` is a report whose dependency list is null. The ghost field
  `providerCalls` records each time the provider is asked, and with which
  package manager, file name and file path.
- The `Collection<Dependency>` of requested dependencies is a `seq<D>`.

Two behaviours of the code worth noting:

- The cache-hit test at CAService.java:65 looks the requested dependencies up under their
  own identity (`getAllPresent(dependencies)`), not the normalised one.
  Normalisation is used only to match dependencies to findings.
- `getReports` and `performAnalysis` both go through `getCache` (CAService.java:41-46). Reading a file
  that has no inner cache, or analysing one that then fails, leaves an empty
  inner cache for that file path in the outer cache.

## Model

| member | source | states |
|---|---|---|
| ReportMerge.DependencyMap | src/main/java/org/jboss/tools/intellij/componentanalysis/CAService.java:70-78 | the keys are exactly the requested dependencies, and each maps to its version-insensitive identity |
| ReportMerge.ReportMap | src/main/java/org/jboss/tools/intellij/componentanalysis/CAService.java:80-89 | every entry of the report map is one of the findings, it has a non-null ref, and it is keyed by that ref's version-insensitive identity |
| ReportMerge.ReportMapKeys | src/main/java/org/jboss/tools/intellij/componentanalysis/CAService.java:80-89 | an identity is a key of the report map exactly when some finding with a non-null ref has that identity |
| ReportMerge.ReportMapFirstWins | src/main/java/org/jboss/tools/intellij/componentanalysis/CAService.java:84-88 | when several findings share an identity, the report map holds the first of them |
| ReportMerge.FirstReferringExists | src/main/java/org/jboss/tools/intellij/componentanalysis/CAService.java:84-88 | every identity that some finding refers to has a first finding that refers to it |
| ReportMerge.ReportMapIgnoresUnreferenced | src/main/java/org/jboss/tools/intellij/componentanalysis/CAService.java:83 | a finding with a null ref, wherever it stands, can be removed without changing the report map |
| ReportMerge.ResultMap | src/main/java/org/jboss/tools/intellij/componentanalysis/CAService.java:91-101 | the result map has exactly the keys of the dependency map: no requested dependency is left without a result |
| ReportMerge.Merge | src/main/java/org/jboss/tools/intellij/componentanalysis/CAService.java:70-101 | the merged result's keys are exactly the requested dependencies |
| ReportMerge.MergeUsesFirstMatch | src/main/java/org/jboss/tools/intellij/componentanalysis/CAService.java:91-96 | a requested dependency gets the first finding whose ref has the dependency's version-insensitive identity |
| ReportMerge.MergeUsesSentinel | src/main/java/org/jboss/tools/intellij/componentanalysis/CAService.java:94-95 | a requested dependency that no finding refers to gets `NO_VUL_DEP` |
| ReportMerge.MergeTotal | src/main/java/org/jboss/tools/intellij/componentanalysis/CAService.java:91-101 | every requested dependency has a result, and it is the first matching finding, or the sentinel when no finding matches |
| ReportMerge.MergeSentinelIff | src/main/java/org/jboss/tools/intellij/componentanalysis/CAService.java:30-95 | when the sentinel has no ref, a requested dependency gets the sentinel exactly when no finding refers to its identity |
| ReportMerge.MergeOneFinding | src/main/java/org/jboss/tools/intellij/componentanalysis/CAService.java:69-101 | requesting A and B when the one finding refers to A under another version gives exactly `{A: finding, B: NO_VUL_DEP}` |
| ComponentAnalysis.AllPresent | src/main/java/org/jboss/tools/intellij/componentanalysis/CAService.java:53 | the result is the part of the inner cache whose keys were requested, with every requested cached key included |
| ComponentAnalysis.Covered | src/main/java/org/jboss/tools/intellij/componentanalysis/CAService.java:65 | when the cache-hit test holds, the present entries are exactly the requested dependencies |
| ComponentAnalysis.CoveredIff | src/main/java/org/jboss/tools/intellij/componentanalysis/CAService.java:65 | the cache-hit test holds exactly when every requested dependency is a key of the inner cache |
| ComponentAnalysis.Analyze | src/main/java/org/jboss/tools/intellij/componentanalysis/CAService.java:64-109 | a write is decided only on a cache miss with a non-null report and dependency list, and what is written has exactly the requested dependencies as keys |
| ComponentAnalysis.AnalyzeWritesIff | src/main/java/org/jboss/tools/intellij/componentanalysis/CAService.java:64-109 | a write happens exactly when the request is not fully cached and the report and its dependency list are non-null; the written map is then the merged result, so the check at line 103 never fails |
| ComponentAnalysis.AnalyzeThenCovered | src/main/java/org/jboss/tools/intellij/componentanalysis/CAService.java:103-105 | after a write, every requested dependency is cached, reading them back yields the merged result, a repeat analysis is a cache hit, and entries for other dependencies are unchanged |
| ComponentAnalysis.CAService.constructor | src/main/java/org/jboss/tools/intellij/componentanalysis/CAService.java:30-39 | a new service has an empty outer cache, has made no provider call, and has the given identity functions and sentinel; the sentinel must have no ref, as `new DependencyReport()` has none |
| ComponentAnalysis.CAService.GetCache | src/main/java/org/jboss/tools/intellij/componentanalysis/CAService.java:41-46 | get-or-create: it returns the file's inner cache (empty if there was none), and only that file path's entry may change, from absent to empty |
| ComponentAnalysis.CAService.DeleteCache | src/main/java/org/jboss/tools/intellij/componentanalysis/CAService.java:48-50 | the file path's inner cache is removed and every other file path keeps its inner cache |
| ComponentAnalysis.CAService.GetReports | src/main/java/org/jboss/tools/intellij/componentanalysis/CAService.java:52-54 | it returns the cached reports for the requested dependencies, makes no provider call, and changes nothing except the get-or-create |
| ComponentAnalysis.CAService.DeleteReports | src/main/java/org/jboss/tools/intellij/componentanalysis/CAService.java:56-58 | the file's inner cache is removed, so the file then reads as empty |
| ComponentAnalysis.CAService.PerformAnalysis | src/main/java/org/jboss/tools/intellij/componentanalysis/CAService.java:60-110 | the provider is asked once exactly when the request is not fully cached; it returns true exactly when the merged result was added to the file's inner cache; besides that write, the only change is the get-or-create, and other file paths are untouched |
| ComponentAnalysis.AnalyseReadDelete | src/main/java/org/jboss/tools/intellij/componentanalysis/CAService.java:52-110 | a client sequence that follows from the contracts alone: the analysis caches `{A: finding, B: NO_VUL_DEP}`, a repeat makes no provider call and returns false, and after deleting the file's reports the read is empty |

## Left out

- Time-based expiry (50 minutes for the outer cache, 1 minute for the inner ones) is not modelled. It is Caffeine behaviour driven by the wall clock. In the model, entries stay until they are deleted.
- The outer cache's `maximumSize(100)` eviction is not modelled. Its policy lives inside Caffeine, and the model's outer map is unbounded.
- `getInstance` and the IntelliJ service lookups are not modelled. The service object is passed to its callers, and the provider's answer is a parameter.
- `ApiService.getComponentAnalysis` is a network call into code that is not part of this model. Its answer is the `response` parameter, and the model records only that the call happened and with which arguments.
- `parallelStream` is modelled sequentially, in encounter order. This is the order in which Java's `toMap` merge function sees colliding elements.
- Concurrent callers are not modelled: the check-then-act race between the cache-hit test and the write, and Caffeine's per-key atomicity.
- The inner cache is held by value in the outer map, and `putAll` writes through the file path. A caller holding an old handle to an inner cache that was meanwhile invalidated is not modelled.
- The internals of `Dependency`, `AnalysisReport` and `DependencyReport` are not modelled. Identities come from the injected functions, a report's `ref` is just its package URL, and the rest of a report is opaque.
