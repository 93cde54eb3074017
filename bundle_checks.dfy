/**
 * The per-bundle checks of the validation mojo: the required-locale check,
 * the encoding check summed over every indexed file, and the loading of
 * the bundles of one base path.
 *
 * The file system is a parameter: a `Disk` tells for every file whether
 * it can be opened, the physical lines it holds, and what loading it as a
 * `PropertyResourceBundle` gives.
 */
module BundleChecks {
  import opened Wrappers
  import opened Sums
  import opened BundleIndex
  import opened EncodingScan
  import opened LineReader

  type MessageKey = string

  /** What loading a file as a property resource bundle gives. */
  datatype ParseOutcome =
    | Parsed(keys: set<MessageKey>)
      /** an IllegalArgumentException whose message names a malformed `\uxxxx` encoding */
    | MalformedEscape
      /** any other IllegalArgumentException */
    | OtherIllegalArgument

  /** A file as the mojo finds it on disk. */
  datatype DiskFile =
    | Unreadable
    | Readable(lines: seq<string>, parsed: ParseOutcome)

  type Disk = FileRef -> DiskFile

  // ---------------------------------------------------------------------
  // Required locales

  /**
   * A required locale fails the check when it has no files at all, or when
   * some base path of the whole index has no file for it.
   */
  predicate LacksBundles(index: Index, allBasePaths: set<BasePath>, locale: Locale) {
    locale !in index || |index[locale]| == 0 || !(allBasePaths <= index[locale].Keys)
  }

  /** `validateRequiredLocales`: every locale to validate is checked, and the check fails if any of them lacks bundles. */
  method ValidateRequiredLocales(allBasePaths: set<BasePath>, localesToValidate: seq<Locale>, index: Index) returns (ok: bool)
    ensures ok <==> forall i :: 0 <= i < |localesToValidate| ==> !LacksBundles(index, allBasePaths, localesToValidate[i])
  {
    var fail := false;
    for i := 0 to |localesToValidate|
      invariant fail <==> exists j :: 0 <= j < i && LacksBundles(index, allBasePaths, localesToValidate[j])
    {
      var locale := localesToValidate[i];
      if locale !in index || |index[locale]| == 0 {
        fail := true;
      } else {
        var missingBasePaths := allBasePaths - index[locale].Keys;
        assert missingBasePaths == {} <==> allBasePaths <= index[locale].Keys by {
          if missingBasePaths == {} {
            forall b | b in allBasePaths ensures b in index[locale].Keys {
              assert b !in missingBasePaths;
            }
          }
        }
        if missingBasePaths != {} {
          fail := true;
        }
      }
    }
    return !fail;
  }

  /** The locales the mojo requires: the root locale first, then the configured ones. */
  function RequiredLocales(configured: seq<Locale>): (r: seq<Locale>)
    ensures |r| == |configured| + 1 && r[0] == Root && r[1..] == configured
  {
    [Root] + configured
  }

  /**
   * Passing the required-locale check means the root locale, and every
   * configured locale, has a file for every base path of the index.
   */
  lemma RequiredPassMeansComplete(index: Index, allBasePaths: set<BasePath>, configured: seq<Locale>)
    requires forall i :: 0 <= i < |RequiredLocales(configured)| ==> !LacksBundles(index, allBasePaths, RequiredLocales(configured)[i])
    ensures Root in index && allBasePaths <= index[Root].Keys
    ensures forall i :: 0 <= i < |configured| ==> configured[i] in index && allBasePaths <= index[configured[i]].Keys
  {
    var required := RequiredLocales(configured);
    assert !LacksBundles(index, allBasePaths, required[0]);
    forall i | 0 <= i < |configured|
      ensures configured[i] in index && allBasePaths <= index[configured[i]].Keys
    {
      assert required[i + 1] == configured[i];
      assert !LacksBundles(index, allBasePaths, required[i + 1]);
    }
  }

  // ---------------------------------------------------------------------
  // Encoding

  predicate FilesReadable(files: map<BasePath, FileRef>, disk: Disk) {
    forall b :: b in files ==> disk(files[b]).Readable?
  }

  predicate AllReadable(locales: set<Locale>, index: Index, disk: Disk)
    requires locales <= index.Keys
  {
    forall l :: l in locales ==> FilesReadable(index[l], disk)
  }

  /** The number of encoding issues of each file of one locale. */
  function FileIssueCounts(files: map<BasePath, FileRef>, disk: Disk): map<BasePath, nat>
    requires FilesReadable(files, disk)
  {
    map b | b in files :: |FileIssues(disk(files[b]).lines)|
  }

  /** The number of encoding issues of each locale. */
  ghost function LocaleIssueCounts(locales: set<Locale>, index: Index, disk: Disk): map<Locale, nat>
    requires locales <= index.Keys && AllReadable(locales, index, disk)
  {
    map l | l in locales :: SumValues(FileIssueCounts(index[l], disk))
  }

  /** The value of the encoding-issue counter once every file of the given locales has been checked. */
  ghost function IssueCount(locales: set<Locale>, index: Index, disk: Disk): nat
    requires locales <= index.Keys && AllReadable(locales, index, disk)
  {
    SumValues(LocaleIssueCounts(locales, index, disk))
  }

  /**
   * `validateResourceBundleEncoding`: every file of every locale is read
   * and scanned; an unreadable file ends the check with that file (the
   * MojoExecutionException), otherwise the result is the issue count.
   */
  method ValidateResourceBundleEncoding(allLocales: set<Locale>, index: Index, disk: Disk) returns (r: Result<nat, FileRef>)
    requires allLocales <= index.Keys
    ensures r.Success? <==> AllReadable(allLocales, index, disk)
    ensures r.Success? ==> r.value == IssueCount(allLocales, index, disk)
    ensures r.Failure? ==> disk(r.error).Unreadable? && exists l :: l in allLocales && r.error in index[l].Values
  {
    var encodingIssues := 0;
    var remaining := allLocales;
    assert allLocales - remaining == {};
    while remaining != {}
      invariant remaining <= allLocales
      invariant AllReadable(allLocales - remaining, index, disk)
      invariant encodingIssues == IssueCount(allLocales - remaining, index, disk)
      decreases |remaining|
    {
      var locale :| locale in remaining;
      ghost var done := allLocales - remaining;
      var localeResult := ValidateLocaleEncoding(index[locale], disk);
      if localeResult.Failure? {
        return Failure(localeResult.error);
      }
      IssueCountAdd(done, locale, index, disk);
      encodingIssues := encodingIssues + localeResult.value;
      remaining := remaining - {locale};
      assert allLocales - remaining == done + {locale};
    }
    assert allLocales - remaining == allLocales;
    return Success(encodingIssues);
  }

  /** The inner loop of the encoding check, over the files of one locale. */
  method ValidateLocaleEncoding(filesByBasePath: map<BasePath, FileRef>, disk: Disk) returns (r: Result<nat, FileRef>)
    ensures r.Success? <==> FilesReadable(filesByBasePath, disk)
    ensures r.Success? ==> r.value == SumValues(FileIssueCounts(filesByBasePath, disk))
    ensures r.Failure? ==> disk(r.error).Unreadable? && r.error in filesByBasePath.Values
  {
    var encodingIssues := 0;
    var remaining := filesByBasePath.Keys;
    while remaining != {}
      invariant remaining <= filesByBasePath.Keys
      invariant FilesReadable(filesByBasePath - remaining, disk)
      invariant encodingIssues == SumValues(FileIssueCounts(filesByBasePath - remaining, disk))
      decreases |remaining|
    {
      var basePath :| basePath in remaining;
      var file := filesByBasePath[basePath];
      if disk(file).Unreadable? {
        return Failure(file);
      }
      var issues := ScanFileEncoding(disk(file).lines);
      FileIssueCountsStep(filesByBasePath, remaining, basePath, disk);
      encodingIssues := encodingIssues + |issues|;
      remaining := remaining - {basePath};
    }
    assert filesByBasePath - remaining == filesByBasePath;
    return Success(encodingIssues);
  }

  /** Checking one more file of a locale adds that file's issues to the count. */
  lemma FileIssueCountsStep(files: map<BasePath, FileRef>, remaining: set<BasePath>, basePath: BasePath, disk: Disk)
    requires basePath in remaining && remaining <= files.Keys
    requires FilesReadable(files - remaining, disk) && disk(files[basePath]).Readable?
    ensures FilesReadable(files - (remaining - {basePath}), disk)
    ensures SumValues(FileIssueCounts(files - (remaining - {basePath}), disk))
            == SumValues(FileIssueCounts(files - remaining, disk)) + |FileIssues(disk(files[basePath]).lines)|
  {
    var done := files - remaining;
    assert files - (remaining - {basePath}) == done[basePath := files[basePath]];
    FileIssueCountsAdd(done, basePath, files[basePath], disk);
    SumValuesAdd(FileIssueCounts(done, disk), basePath, |FileIssues(disk(files[basePath]).lines)|);
  }

  /** The counts of a locale with one more file are the old counts and that file's issues. */
  lemma FileIssueCountsAdd(files: map<BasePath, FileRef>, basePath: BasePath, file: FileRef, disk: Disk)
    requires basePath !in files && FilesReadable(files, disk) && disk(file).Readable?
    ensures FilesReadable(files[basePath := file], disk)
    ensures FileIssueCounts(files[basePath := file], disk)
            == FileIssueCounts(files, disk)[basePath := |FileIssues(disk(file).lines)|]
  {
  }

  /** Checking the files of one more locale adds that locale's issues to the count. */
  lemma IssueCountAdd(done: set<Locale>, locale: Locale, index: Index, disk: Disk)
    requires done <= index.Keys && locale in index && locale !in done
    requires AllReadable(done, index, disk) && FilesReadable(index[locale], disk)
    ensures AllReadable(done + {locale}, index, disk)
    ensures IssueCount(done + {locale}, index, disk) == IssueCount(done, index, disk) + SumValues(FileIssueCounts(index[locale], disk))
  {
    var before := LocaleIssueCounts(done, index, disk);
    assert LocaleIssueCounts(done + {locale}, index, disk) == before[locale := SumValues(FileIssueCounts(index[locale], disk))];
    SumValuesAdd(before, locale, SumValues(FileIssueCounts(index[locale], disk)));
  }

  /** The encoding counter stays at zero exactly when every file of every locale is clean. */
  lemma IssueCountZeroIff(locales: set<Locale>, index: Index, disk: Disk)
    requires locales <= index.Keys && AllReadable(locales, index, disk)
    ensures IssueCount(locales, index, disk) == 0
            <==> forall l, b :: l in locales && b in index[l] ==> IsCleanFile(disk(index[l][b]).lines)
  {
    var counts := LocaleIssueCounts(locales, index, disk);
    SumValuesZero(counts);
    forall l | l in locales
      ensures counts[l] == 0 <==> forall b :: b in index[l] ==> IsCleanFile(disk(index[l][b]).lines)
    {
      var fileCounts := FileIssueCounts(index[l], disk);
      SumValuesZero(fileCounts);
      forall b | b in index[l]
        ensures fileCounts[b] == 0 <==> IsCleanFile(disk(index[l][b]).lines)
      {
        var lines := disk(index[l][b]).lines;
        assert fileCounts[b] == |FileIssues(lines)|;
        FileIssuesEmptyIff(lines);
      }
    }
  }

  // ---------------------------------------------------------------------
  // Loading the bundles of one base path

  /** Why loading the bundles of a base path ended the validation, and the file that caused it. */
  datatype LoadFailure =
      /** the IOException, rethrown as a MojoExecutionException */
    | ReadFailure(file: FileRef)
      /** an IllegalArgumentException other than a malformed escape, rethrown as it is */
    | RethrownIllegalArgument(file: FileRef)

  predicate HasFile(index: Index, locale: Locale, basePath: BasePath) {
    locale in index && basePath in index[locale]
  }

  /** A file whose loading ends the validation. */
  predicate IsHardFailure(d: DiskFile) {
    d.Unreadable? || d.parsed.OtherIllegalArgument?
  }

  /** The locales that have no file for the base path: each one increments the missing-bundle counter. */
  function MissingLocales(allLocales: set<Locale>, index: Index, basePath: BasePath): set<Locale> {
    set l | l in allLocales && !HasFile(index, l, basePath)
  }

  predicate LoadFails(allLocales: set<Locale>, index: Index, disk: Disk, basePath: BasePath) {
    exists l :: l in allLocales && HasFile(index, l, basePath) && IsHardFailure(disk(index[l][basePath]))
  }

  /**
   * The bundles loaded for a base path: the message keys of every locale
   * whose file parses; a file with a malformed escape is passed over.
   */
  function LoadedBundles(allLocales: set<Locale>, index: Index, disk: Disk, basePath: BasePath): map<Locale, set<MessageKey>> {
    map l | l in allLocales && HasFile(index, l, basePath) && disk(index[l][basePath]).Readable?
                            && disk(index[l][basePath]).parsed.Parsed?
          :: disk(index[l][basePath]).parsed.keys
  }

  /**
   * `loadBundlesForBasePath`: every locale either has a file, which is
   * loaded, or counts as a missing bundle. The result is the loaded
   * bundles and the number of missing ones, or the failure that ends the
   * validation.
   */
  method LoadBundlesForBasePath(basePath: BasePath, allLocales: set<Locale>, index: Index, disk: Disk)
    returns (r: Result<map<Locale, set<MessageKey>>, LoadFailure>, missing: nat)
    ensures r.Failure? <==> LoadFails(allLocales, index, disk, basePath)
    ensures r.Success? ==> r.value == LoadedBundles(allLocales, index, disk, basePath)
    ensures r.Success? ==> missing == |MissingLocales(allLocales, index, basePath)|
    ensures r.Failure? ==> exists l :: l in allLocales && HasFile(index, l, basePath) && index[l][basePath] == r.error.file
    ensures r.Failure? && r.error.ReadFailure? ==> disk(r.error.file).Unreadable?
    ensures r.Failure? && r.error.RethrownIllegalArgument? ==> disk(r.error.file).Readable? && disk(r.error.file).parsed.OtherIllegalArgument?
  {
    var bundles: map<Locale, set<MessageKey>> := map[];
    missing := 0;
    var remaining := allLocales;
    while remaining != {}
      invariant remaining <= allLocales
      invariant !LoadFails(allLocales - remaining, index, disk, basePath)
      invariant bundles == LoadedBundles(allLocales - remaining, index, disk, basePath)
      invariant missing == |MissingLocales(allLocales - remaining, index, basePath)|
      decreases |remaining|
    {
      var locale :| locale in remaining;
      ghost var done := allLocales - remaining;
      if locale in index && basePath in index[locale] {
        var file := index[locale][basePath];
        if disk(file).Unreadable? {
          return Failure(ReadFailure(file)), missing;
        } else if disk(file).parsed.OtherIllegalArgument? {
          return Failure(RethrownIllegalArgument(file)), missing;
        }
        LoadStepPresent(done, locale, index, disk, basePath);
        if disk(file).parsed.Parsed? {
          bundles := bundles[locale := disk(file).parsed.keys];
        }
      } else {
        LoadStepMissing(done, locale, index, disk, basePath);
        missing := missing + 1;
      }
      remaining := remaining - {locale};
      assert allLocales - remaining == done + {locale};
    }
    assert allLocales - remaining == allLocales;
    return Success(bundles), missing;
  }

  /** Loading the file of one more locale: a bundle is added when the file parses, and nothing is missing. */
  lemma LoadStepPresent(done: set<Locale>, locale: Locale, index: Index, disk: Disk, basePath: BasePath)
    requires locale !in done && HasFile(index, locale, basePath) && !IsHardFailure(disk(index[locale][basePath]))
    requires !LoadFails(done, index, disk, basePath)
    ensures !LoadFails(done + {locale}, index, disk, basePath)
    ensures var d := disk(index[locale][basePath]);
            LoadedBundles(done + {locale}, index, disk, basePath)
            == if d.parsed.Parsed? then LoadedBundles(done, index, disk, basePath)[locale := d.parsed.keys]
               else LoadedBundles(done, index, disk, basePath)
    ensures MissingLocales(done + {locale}, index, basePath) == MissingLocales(done, index, basePath)
  {
  }

  /** A locale without a file for the base path adds one missing bundle and no loaded bundle. */
  lemma LoadStepMissing(done: set<Locale>, locale: Locale, index: Index, disk: Disk, basePath: BasePath)
    requires locale !in done && !HasFile(index, locale, basePath)
    requires !LoadFails(done, index, disk, basePath)
    ensures !LoadFails(done + {locale}, index, disk, basePath)
    ensures LoadedBundles(done + {locale}, index, disk, basePath) == LoadedBundles(done, index, disk, basePath)
    ensures |MissingLocales(done + {locale}, index, basePath)| == |MissingLocales(done, index, basePath)| + 1
  {
    assert MissingLocales(done + {locale}, index, basePath) == MissingLocales(done, index, basePath) + {locale};
  }

  /** No locale is missing a bundle for the base path exactly when every locale has a file for it. */
  lemma MissingLocalesEmptyIff(allLocales: set<Locale>, index: Index, basePath: BasePath)
    ensures |MissingLocales(allLocales, index, basePath)| == 0 <==> forall l :: l in allLocales ==> HasFile(index, l, basePath)
  {
    if exists l :: l in allLocales && !HasFile(index, l, basePath) {
      var l :| l in allLocales && !HasFile(index, l, basePath);
      assert l in MissingLocales(allLocales, index, basePath);
    }
  }

  /**
   * Loading leaves out exactly the files with a malformed escape: when it
   * succeeds, a locale has a loaded bundle exactly when it has a file that
   * does not hold one.
   */
  lemma LoadedBundlesDomain(allLocales: set<Locale>, index: Index, disk: Disk, basePath: BasePath, l: Locale)
    requires !LoadFails(allLocales, index, disk, basePath)
    ensures l in LoadedBundles(allLocales, index, disk, basePath)
            <==> l in allLocales && HasFile(index, l, basePath) && !disk(index[l][basePath]).parsed.MalformedEscape?
  {
  }
}
