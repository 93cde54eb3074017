/**
 * The validation mojo: the scan, the required-locale check, the encoding
 * check, and for every base path the loading of its bundles and the
 * key-consistency check, with the configured report and fail switches
 * deciding which findings end the build.
 */
module ValidateMojo {
  import opened Wrappers
  import opened Sums
  import opened BundleIndex
  import opened BundleChecks
  import opened KeyConsistency
  import opened EncodingScan

  /** The mojo parameters that decide what is checked and what fails the build. */
  datatype Settings = Settings(
    skip: bool,
    requiredLocales: seq<Locale>,
    failOnMissingLocaleBundles: bool,
    reportInconsistentMessageKeys: bool,
    failOnInconsistentMessageKeys: bool,
    reportEncodingIssues: bool,
    failOnEncodingIssues: bool)

  /** Why the mojo ended the build. */
  datatype Failure =
      /** the StringIndexOutOfBoundsException of the locale loop on a file name */
    | LocaleSuffixRejected
    | RequiredLocalesMissing
    | EncodingIssuesFound
      /** a file that cannot be read, a rethrown IllegalArgumentException, or a base path without a loaded root bundle */
    | ValidationAborted
    | MissingLocaleBundlesFound
    | InconsistentMessageKeysFound

  /** The two counters the bundle validation accumulates. */
  datatype Counts = Counts(missingLocaleBundles: nat, inconsistentMessageKeys: nat)

  datatype Outcome =
    | Skipped
    | NothingToValidate
    | Validated(counts: Counts)
    | Failed(failure: Failure)

  predicate EncodingEnabled(s: Settings) {
    s.reportEncodingIssues || s.failOnEncodingIssues
  }

  predicate ConsistencyEnabled(s: Settings) {
    s.reportInconsistentMessageKeys || s.failOnInconsistentMessageKeys
  }

  /** Loading the base path ends the validation, or its bundles have no root bundle to compare against. */
  predicate BasePathAborts(s: Settings, allLocales: set<Locale>, index: Index, disk: Disk, basePath: BasePath) {
    LoadFails(allLocales, index, disk, basePath)
    || (ConsistencyEnabled(s) && Root !in LoadedBundles(allLocales, index, disk, basePath))
  }

  /** What one base path adds to the inconsistent-key counter: the size of its report, when it has a root bundle. */
  function InconsistencyCount(allLocales: set<Locale>, index: Index, disk: Disk, basePath: BasePath): nat {
    var bundles := LoadedBundles(allLocales, index, disk, basePath);
    if Root in bundles then ReportOf(bundles).Count() else 0
  }

  /** The missing-bundle counter after the given base paths. */
  ghost function MissingTotal(allLocales: set<Locale>, index: Index, basePaths: set<BasePath>): nat {
    SumValues(map b | b in basePaths :: |MissingLocales(allLocales, index, b)|)
  }

  /** The inconsistent-key counter after the given base paths. */
  ghost function InconsistencyTotal(allLocales: set<Locale>, index: Index, disk: Disk, basePaths: set<BasePath>): nat {
    SumValues(map b | b in basePaths :: InconsistencyCount(allLocales, index, disk, b))
  }

  /**
   * What validating one base path adds to the two counters, or None when
   * its loading ends the validation or it has no root bundle to compare
   * against.
   */
  ghost function BasePathCounts(s: Settings, allLocales: set<Locale>, index: Index, disk: Disk, basePath: BasePath): Option<Counts> {
    if BasePathAborts(s, allLocales, index, disk, basePath) then None
    else Some(Counts(|MissingLocales(allLocales, index, basePath)|,
                     if ConsistencyEnabled(s) then InconsistencyCount(allLocales, index, disk, basePath) else 0))
  }

  /**
   * What the second `validateResourceBundles` ends with: the encoding
   * check first (when reported or failed on), then every base path; the
   * counters when nothing ends the validation.
   */
  ghost function BundlesOutcome(s: Settings, allLocales: set<Locale>, allBasePaths: set<BasePath>, index: Index, disk: Disk)
    : Result<Counts, Failure>
    requires allLocales <= index.Keys
  {
    if EncodingEnabled(s) && !AllReadable(allLocales, index, disk) then Failure(ValidationAborted)
    else if s.failOnEncodingIssues && IssueCount(allLocales, index, disk) > 0 then Failure(EncodingIssuesFound)
    else BasePathsOutcome(s, allLocales, allBasePaths, index, disk)
  }

  /** What the loop over the base paths ends with: the counters, unless some base path ends the validation. */
  ghost function BasePathsOutcome(s: Settings, allLocales: set<Locale>, allBasePaths: set<BasePath>, index: Index, disk: Disk)
    : Result<Counts, Failure>
  {
    if exists b :: b in allBasePaths && BasePathAborts(s, allLocales, index, disk, b) then Failure(ValidationAborted)
    else Success(CountsAfter(s, allLocales, index, disk, allBasePaths))
  }

  /**
   * The second `validateResourceBundles` overload: the encoding check,
   * then for every base path the loading of its bundles and, when
   * inconsistent keys are reported or failed on, the consistency check.
   */
  method ValidateBundleContents(s: Settings, allLocales: set<Locale>, allBasePaths: set<BasePath>, index: Index, disk: Disk)
    returns (r: Result<Counts, Failure>)
    requires allLocales <= index.Keys
    ensures r == BundlesOutcome(s, allLocales, allBasePaths, index, disk)
  {
    if EncodingEnabled(s) {
      var encodingIssues := ValidateResourceBundleEncoding(allLocales, index, disk);
      if encodingIssues.Failure? {
        return Failure(ValidationAborted);
      }
      if s.failOnEncodingIssues && encodingIssues.value > 0 {
        return Failure(EncodingIssuesFound);
      }
    }
    r := ValidateBasePaths(s, allLocales, allBasePaths, index, disk);
  }

  /** The loop of the second `validateResourceBundles` over the base paths. */
  method ValidateBasePaths(s: Settings, allLocales: set<Locale>, allBasePaths: set<BasePath>, index: Index, disk: Disk)
    returns (r: Result<Counts, Failure>)
    ensures r == BasePathsOutcome(s, allLocales, allBasePaths, index, disk)
  {
    var missingLocaleBundles: nat := 0;
    var inconsistentMessageKeys: nat := 0;
    var remaining := allBasePaths;
    assert allBasePaths - remaining == {};
    CountsAfterNothing(s, allLocales, index, disk);
    while remaining != {}
      invariant remaining <= allBasePaths
      invariant forall b :: b in allBasePaths - remaining ==> !BasePathAborts(s, allLocales, index, disk, b)
      invariant CountsAfter(s, allLocales, index, disk, allBasePaths - remaining) == Counts(missingLocaleBundles, inconsistentMessageKeys)
      decreases |remaining|
    {
      var basePath :| basePath in remaining;
      ghost var doneBefore := allBasePaths - remaining;
      var counts := ValidateBasePath(s, allLocales, index, disk, basePath);
      if counts.None? {
        BasePathsOutcomeAborted(s, allLocales, allBasePaths, index, disk, basePath);
        return Failure(ValidationAborted);
      }
      ghost var before := Counts(missingLocaleBundles, inconsistentMessageKeys);
      missingLocaleBundles := missingLocaleBundles + counts.value.missingLocaleBundles;
      inconsistentMessageKeys := inconsistentMessageKeys + counts.value.inconsistentMessageKeys;
      remaining := remaining - {basePath};
      assert allBasePaths - remaining == doneBefore + {basePath};
      BasePathsStep(s, allLocales, index, disk, doneBefore, basePath, before, counts.value,
                    allBasePaths - remaining, Counts(missingLocaleBundles, inconsistentMessageKeys));
    }
    assert allBasePaths - remaining == allBasePaths;
    r := Success(Counts(missingLocaleBundles, inconsistentMessageKeys));
  }

  /** The counters carried over one base path that did not end the validation. */
  lemma BasePathsStep(s: Settings, allLocales: set<Locale>, index: Index, disk: Disk, doneBefore: set<BasePath>, basePath: BasePath,
                      before: Counts, more: Counts, done: set<BasePath>, after: Counts)
    requires basePath !in doneBefore && done == doneBefore + {basePath}
    requires CountsAfter(s, allLocales, index, disk, doneBefore) == before
    requires BasePathCounts(s, allLocales, index, disk, basePath) == Some(more)
    requires after.missingLocaleBundles == before.missingLocaleBundles + more.missingLocaleBundles
    requires after.inconsistentMessageKeys == before.inconsistentMessageKeys + more.inconsistentMessageKeys
    ensures CountsAfter(s, allLocales, index, disk, done) == after
  {
    CountsAfterAdd(s, allLocales, index, disk, doneBefore, basePath, before, more);
  }

  /** One base path that ends the validation decides the loop's outcome. */
  lemma BasePathsOutcomeAborted(s: Settings, allLocales: set<Locale>, allBasePaths: set<BasePath>, index: Index, disk: Disk, basePath: BasePath)
    requires basePath in allBasePaths && BasePathAborts(s, allLocales, index, disk, basePath)
    ensures BasePathsOutcome(s, allLocales, allBasePaths, index, disk) == Failure(ValidationAborted)
  {
  }

  /** The two counters once the given base paths have been validated. */
  ghost function CountsAfter(s: Settings, allLocales: set<Locale>, index: Index, disk: Disk, done: set<BasePath>): Counts {
    Counts(MissingTotal(allLocales, index, done),
           if ConsistencyEnabled(s) then InconsistencyTotal(allLocales, index, disk, done) else 0)
  }

  lemma CountsAfterNothing(s: Settings, allLocales: set<Locale>, index: Index, disk: Disk)
    ensures CountsAfter(s, allLocales, index, disk, {}) == Counts(0, 0)
  {
    assert (map b: BasePath | b in {} :: |MissingLocales(allLocales, index, b)|) == map[];
    assert (map b: BasePath | b in {} :: InconsistencyCount(allLocales, index, disk, b)) == map[];
  }

  /** Validating one more base path adds what it counts to each counter. */
  lemma CountsAfterAdd(s: Settings, allLocales: set<Locale>, index: Index, disk: Disk, done: set<BasePath>, basePath: BasePath,
                       before: Counts, more: Counts)
    requires basePath !in done
    requires CountsAfter(s, allLocales, index, disk, done) == before
    requires BasePathCounts(s, allLocales, index, disk, basePath) == Some(more)
    ensures CountsAfter(s, allLocales, index, disk, done + {basePath})
            == Counts(before.missingLocaleBundles + more.missingLocaleBundles,
                      before.inconsistentMessageKeys + more.inconsistentMessageKeys)
  {
    MissingTotalAdd(allLocales, index, done, basePath);
    InconsistencyTotalAdd(allLocales, index, disk, done, basePath);
  }

  /** One more base path adds its missing locales to the counter. */
  lemma MissingTotalAdd(allLocales: set<Locale>, index: Index, done: set<BasePath>, basePath: BasePath)
    requires basePath !in done
    ensures MissingTotal(allLocales, index, done + {basePath})
            == MissingTotal(allLocales, index, done) + |MissingLocales(allLocales, index, basePath)|
  {
    var before := map b | b in done :: |MissingLocales(allLocales, index, b)|;
    assert (map b | b in done + {basePath} :: |MissingLocales(allLocales, index, b)|)
           == before[basePath := |MissingLocales(allLocales, index, basePath)|];
    SumValuesAdd(before, basePath, |MissingLocales(allLocales, index, basePath)|);
  }

  /** One more base path adds its reported keys to the counter. */
  lemma InconsistencyTotalAdd(allLocales: set<Locale>, index: Index, disk: Disk, done: set<BasePath>, basePath: BasePath)
    requires basePath !in done
    ensures InconsistencyTotal(allLocales, index, disk, done + {basePath})
            == InconsistencyTotal(allLocales, index, disk, done) + InconsistencyCount(allLocales, index, disk, basePath)
  {
    var before := map b | b in done :: InconsistencyCount(allLocales, index, disk, b);
    assert (map b | b in done + {basePath} :: InconsistencyCount(allLocales, index, disk, b))
           == before[basePath := InconsistencyCount(allLocales, index, disk, basePath)];
    SumValuesAdd(before, basePath, InconsistencyCount(allLocales, index, disk, basePath));
  }

  /** The body of the base-path loop: loading the bundles, then the consistency check when it is enabled. */
  method ValidateBasePath(s: Settings, allLocales: set<Locale>, index: Index, disk: Disk, basePath: BasePath) returns (r: Option<Counts>)
    ensures r == BasePathCounts(s, allLocales, index, disk, basePath)
  {
    var bundles, missing := LoadBundlesForBasePath(basePath, allLocales, index, disk);
    if bundles.Failure? {
      return None;
    }
    var inconsistent := 0;
    if ConsistencyEnabled(s) {
      var report := ValidateResourceBundleConsistency(bundles.value);
      if report.None? {
        return None;
      }
      inconsistent := report.value.Count();
    }
    return Some(Counts(missing, inconsistent));
  }

  /** The required-locale check fails for some required locale. */
  predicate RequiredLocalesLack(s: Settings, index: Index, allBasePaths: set<BasePath>) {
    exists i :: 0 <= i < |RequiredLocales(s.requiredLocales)| && LacksBundles(index, allBasePaths, RequiredLocales(s.requiredLocales)[i])
  }

  /**
   * What the first `validateResourceBundles` ends with: the required
   * locales first, then the bundle validation, then the fail switches for
   * missing bundles and for inconsistent keys, in that order.
   */
  ghost function ValidationOutcome(s: Settings, index: Index, disk: Disk, allBasePaths: set<BasePath>): Result<Counts, Failure> {
    if RequiredLocalesLack(s, index, allBasePaths) then Failure(RequiredLocalesMissing)
    else
      match BundlesOutcome(s, index.Keys, allBasePaths, index, disk)
      case Failure(f) => Failure(f)
      case Success(counts) =>
        if s.failOnMissingLocaleBundles && counts.missingLocaleBundles > 0 then Failure(MissingLocaleBundlesFound)
        else if s.failOnInconsistentMessageKeys && counts.inconsistentMessageKeys > 0 then Failure(InconsistentMessageKeysFound)
        else Success(counts)
  }

  /** The first `validateResourceBundles` overload. */
  method ValidateResourceBundles(s: Settings, index: Index, disk: Disk, allBasePaths: set<BasePath>) returns (r: Result<Counts, Failure>)
    ensures r == ValidationOutcome(s, index, disk, allBasePaths)
  {
    var requiredLocales := RequiredLocales(s.requiredLocales);
    var ok := ValidateRequiredLocales(allBasePaths, requiredLocales, index);
    if !ok {
      return Failure(RequiredLocalesMissing);
    }
    var counts := ValidateBundleContents(s, index.Keys, allBasePaths, index, disk);
    if counts.Failure? {
      return counts;
    }
    if s.failOnMissingLocaleBundles && counts.value.missingLocaleBundles > 0 {
      return Failure(MissingLocaleBundlesFound);
    } else if s.failOnInconsistentMessageKeys && counts.value.inconsistentMessageKeys > 0 {
      return Failure(InconsistentMessageKeysFound);
    }
    return counts;
  }

  /** The base paths of every locale of the index. */
  function AllBasePaths(index: Index): set<BasePath> {
    set l, b | l in index && b in index[l] :: b
  }

  /** What `execute` ends with. */
  ghost function ExecuteOutcome(s: Settings, configured: seq<Directory>, defaultDirectory: Directory, disk: Disk): Outcome {
    if s.skip then Skipped
    else
      match IndexDirectories(map[], EffectiveDirectories(configured, defaultDirectory))
      case None => Failed(LocaleSuffixRejected)
      case Some(index) =>
        if AllBasePaths(index) == {} then NothingToValidate
        else
          match ValidationOutcome(s, index, disk, AllBasePaths(index))
          case Failure(f) => Failed(f)
          case Success(counts) => Validated(counts)
  }

  /**
   * `execute`: unless skipped, the scan, the collection of every base
   * path of the index, and the validation when there is at least one.
   */
  method Execute(s: Settings, configured: seq<Directory>, defaultDirectory: Directory, disk: Disk) returns (outcome: Outcome)
    ensures outcome == ExecuteOutcome(s, configured, defaultDirectory, disk)
  {
    if s.skip {
      return Skipped;
    }
    var scanned := ScanForPropertiesFiles(configured, defaultDirectory);
    if scanned.None? {
      return Failed(LocaleSuffixRejected);
    }
    var filesByBasePathByLocale := scanned.value;
    var allResourceBundleBasePaths := CollectBasePaths(filesByBasePathByLocale);
    if allResourceBundleBasePaths == {} {
      return NothingToValidate;
    }
    var r := ValidateResourceBundles(s, filesByBasePathByLocale, disk, allResourceBundleBasePaths);
    match r
    case Failure(f) => return Failed(f);
    case Success(counts) => return Validated(counts);
  }

  /** The loop of `execute` that adds the base paths of every locale to one set. */
  method CollectBasePaths(index: Index) returns (allBasePaths: set<BasePath>)
    ensures allBasePaths == AllBasePaths(index)
  {
    allBasePaths := {};
    var remaining := index.Keys;
    while remaining != {}
      invariant remaining <= index.Keys
      invariant forall b :: b in allBasePaths <==> exists l :: l in index && l !in remaining && b in index[l]
      decreases |remaining|
    {
      var locale :| locale in remaining;
      allBasePaths := allBasePaths + index[locale].Keys;
      remaining := remaining - {locale};
    }
    AllBasePathsMembers(index, allBasePaths);
  }

  lemma AllBasePathsMembers(index: Index, paths: set<BasePath>)
    requires forall b :: b in paths <==> exists l :: l in index && b in index[l]
    ensures paths == AllBasePaths(index)
  {
  }

  // ---------------------------------------------------------------------
  // What a passing validation guarantees

  /**
   * A validation that passes has passed the required-locale check: the
   * root locale and every configured required locale have a file for
   * every base path.
   */
  lemma PassingMeansRequiredLocalesComplete(s: Settings, index: Index, disk: Disk, allBasePaths: set<BasePath>)
    requires ValidationOutcome(s, index, disk, allBasePaths).Success?
    ensures Root in index && allBasePaths <= index[Root].Keys
    ensures forall i :: 0 <= i < |s.requiredLocales| ==> s.requiredLocales[i] in index && allBasePaths <= index[s.requiredLocales[i]].Keys
  {
    assert !RequiredLocalesLack(s, index, allBasePaths);
    RequiredPassMeansComplete(index, allBasePaths, s.requiredLocales);
  }

  /** With `failOnEncodingIssues`, a validation that passes has read every file and found every logical line clean. */
  lemma PassingMeansCleanEncoding(s: Settings, index: Index, disk: Disk, allBasePaths: set<BasePath>)
    requires ValidationOutcome(s, index, disk, allBasePaths).Success? && s.failOnEncodingIssues
    ensures AllReadable(index.Keys, index, disk)
    ensures forall l, b :: l in index && b in index[l] ==> IsCleanFile(disk(index[l][b]).lines)
  {
    IssueCountZeroIff(index.Keys, index, disk);
  }

  /** With `failOnMissingLocaleBundles`, a validation that passes found a file for every locale and every base path. */
  lemma PassingMeansNoMissingBundles(s: Settings, index: Index, disk: Disk, allBasePaths: set<BasePath>)
    requires ValidationOutcome(s, index, disk, allBasePaths).Success? && s.failOnMissingLocaleBundles
    ensures forall l, b :: l in index && b in allBasePaths ==> b in index[l]
  {
    MissingTotalZeroIff(index.Keys, index, allBasePaths);
  }

  /**
   * With `failOnInconsistentMessageKeys`, a validation that passes loaded a
   * root bundle for every base path, and every bundle it loaded holds
   * exactly the root bundle's keys.
   */
  lemma PassingMeansConsistentKeys(s: Settings, index: Index, disk: Disk, allBasePaths: set<BasePath>)
    requires ValidationOutcome(s, index, disk, allBasePaths).Success? && s.failOnInconsistentMessageKeys
    ensures forall b :: b in allBasePaths ==> Root in LoadedBundles(index.Keys, index, disk, b)
    ensures forall b :: b in allBasePaths ==> AllMatchRoot(LoadedBundles(index.Keys, index, disk, b))
  {
    assert !RequiredLocalesLack(s, index, allBasePaths);
    var bundles := BundlesOutcome(s, index.Keys, allBasePaths, index, disk);
    assert bundles.Success? && bundles.value.inconsistentMessageKeys == 0;
    assert BasePathsOutcome(s, index.Keys, allBasePaths, index, disk) == bundles;
    forall b | b in allBasePaths ensures Root in LoadedBundles(index.Keys, index, disk, b) {
      assert !BasePathAborts(s, index.Keys, index, disk, b);
    }
    assert InconsistencyTotal(index.Keys, index, disk, allBasePaths) == 0;
    InconsistencyTotalZeroIff(index.Keys, index, disk, allBasePaths);
  }

  /** No missing bundle is counted exactly when every locale has a file for every base path. */
  lemma MissingTotalZeroIff(allLocales: set<Locale>, index: Index, basePaths: set<BasePath>)
    ensures MissingTotal(allLocales, index, basePaths) == 0
            <==> forall l, b :: l in allLocales && b in basePaths ==> HasFile(index, l, b)
  {
    var counts := map b | b in basePaths :: |MissingLocales(allLocales, index, b)|;
    SumValuesZero(counts);
    forall b | b in basePaths
      ensures counts[b] == 0 <==> forall l :: l in allLocales ==> HasFile(index, l, b)
    {
      MissingLocalesEmptyIff(allLocales, index, b);
    }
  }

  /** No inconsistent key is counted exactly when every loaded bundle of every base path holds the root bundle's keys. */
  lemma InconsistencyTotalZeroIff(allLocales: set<Locale>, index: Index, disk: Disk, basePaths: set<BasePath>)
    requires forall b :: b in basePaths ==> Root in LoadedBundles(allLocales, index, disk, b)
    ensures InconsistencyTotal(allLocales, index, disk, basePaths) == 0
            <==> forall b :: b in basePaths ==> AllMatchRoot(LoadedBundles(allLocales, index, disk, b))
  {
    var counts := map b | b in basePaths :: InconsistencyCount(allLocales, index, disk, b);
    SumValuesZero(counts);
    forall b | b in basePaths
      ensures counts[b] == 0 <==> AllMatchRoot(LoadedBundles(allLocales, index, disk, b))
    {
      ReportCountZeroIff(LoadedBundles(allLocales, index, disk, b));
    }
  }

  /**
   * A root file with a malformed escape is left out of the loaded bundles,
   * so when the consistency check runs the base path has no root bundle
   * and the validation ends, even though the required-locale check saw
   * the file.
   */
  lemma MalformedRootFileAborts(s: Settings, index: Index, disk: Disk, allBasePaths: set<BasePath>, basePath: BasePath)
    requires !RequiredLocalesLack(s, index, allBasePaths)
    requires EncodingEnabled(s) ==> AllReadable(index.Keys, index, disk)
    requires s.failOnEncodingIssues ==> IssueCount(index.Keys, index, disk) == 0
    requires ConsistencyEnabled(s) && basePath in allBasePaths
    requires HasFile(index, Root, basePath) && disk(index[Root][basePath]).Readable?
    requires disk(index[Root][basePath]).parsed.MalformedEscape?
    ensures ValidationOutcome(s, index, disk, allBasePaths) == Failure(ValidationAborted)
  {
    assert BasePathAborts(s, index.Keys, index, disk, basePath);
  }

  /**
   * The order of the failures: a required locale that lacks bundles fails
   * the build before any file is read, and an encoding issue with
   * `failOnEncodingIssues` fails it before any bundle is loaded, whatever
   * the bundles hold.
   */
  lemma FailureOrder(s: Settings, index: Index, disk: Disk, allBasePaths: set<BasePath>)
    ensures RequiredLocalesLack(s, index, allBasePaths) ==> ValidationOutcome(s, index, disk, allBasePaths) == Failure(RequiredLocalesMissing)
    ensures !RequiredLocalesLack(s, index, allBasePaths) && s.failOnEncodingIssues && AllReadable(index.Keys, index, disk)
            && IssueCount(index.Keys, index, disk) > 0
            ==> ValidationOutcome(s, index, disk, allBasePaths) == Failure(EncodingIssuesFound)
  {
  }
}
