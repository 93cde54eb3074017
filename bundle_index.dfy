/**
 * The first step of the validation mojo: the included files of every
 * existing validation directory are indexed by locale and by bundle base
 * path (the relative directory plus the resource name).
 */
module BundleIndex {
  import opened Wrappers
  import opened JavaStrings
  import opened LocaleSuffix

  /** A locale as its tag: the fragments peeled off a file name joined with `-`; "" is the root locale. */
  type Locale = string

  const Root: Locale := ""

  /** The relative directory and resource name shared by all files of one resource bundle. */
  type BasePath = string

  /** A file as `new File(directory, includedFile)` designates it. */
  datatype FileRef = FileRef(directory: string, includedFile: string)

  /**
   * A validation directory: its path, whether it exists, and the relative
   * paths the directory scanner includes under it (after the include and
   * exclude patterns are applied).
   */
  datatype Directory = Directory(path: string, present: bool, includedFiles: seq<string>)

  /** The files of every bundle, by locale and then by base path. */
  type Index = map<Locale, map<BasePath, FileRef>>

  /** The configured validation directories, or the default directory when none is configured. */
  function EffectiveDirectories(configured: seq<Directory>, defaultDirectory: Directory): (r: seq<Directory>)
    ensures |r| > 0
    ensures |configured| > 0 ==> r == configured
  {
    if |configured| == 0 then [defaultDirectory] else configured
  }

  /**
   * The locale and base path of an included `.properties` file, or None
   * when the locale loop fails on it.
   */
  function BundleKey(includedFile: string): Option<(Locale, BasePath)>
    requires EndsWith(includedFile, PropertiesExtension)
  {
    var parts := SplitPropertiesPath(includedFile);
    match PeelLocale(parts.fileBaseName, '-')
    case None => None
    case Some((resourceName, locale)) => Some((locale, parts.relativePath + resourceName))
  }

  /** The index with `file` recorded for `locale` and `basePath`, replacing any earlier file. */
  function Upsert(index: Index, locale: Locale, basePath: BasePath, file: FileRef): (r: Index)
    ensures r.Keys == index.Keys + {locale}
    ensures r[locale].Keys == (if locale in index then index[locale].Keys else {}) + {basePath}
    ensures r[locale][basePath] == file
    ensures forall l :: l in index && l != locale ==> r[l] == index[l]
    ensures locale in index ==> forall b :: b in index[locale] && b != basePath ==> r[locale][b] == index[locale][b]
  {
    var filesByBasePath := if locale in index then index[locale] else map[];
    index[locale := filesByBasePath[basePath := file]]
  }

  /** Indexing the included files of one directory, in order; None when a file name makes the locale loop fail. */
  function IndexFiles(index: Index, directory: string, files: seq<string>): Option<Index>
    decreases |files|
  {
    if |files| == 0 then Some(index)
    else if !EndsWith(files[0], PropertiesExtension) then IndexFiles(index, directory, files[1..])
    else
      match BundleKey(files[0])
      case None => None
      case Some((locale, basePath)) =>
        IndexFiles(Upsert(index, locale, basePath, FileRef(directory, files[0])), directory, files[1..])
  }

  /** Indexing the directories in order; directories that do not exist are passed over. */
  function IndexDirectories(index: Index, directories: seq<Directory>): Option<Index>
    decreases |directories|
  {
    if |directories| == 0 then Some(index)
    else if !directories[0].present then IndexDirectories(index, directories[1..])
    else
      match IndexFiles(index, directories[0].path, directories[0].includedFiles)
      case None => None
      case Some(next) => IndexDirectories(next, directories[1..])
  }

  /**
   * `scanForPropertiesFiles`: for every existing directory and every
   * included file ending in `.properties`, the locale loop and an upsert
   * into the index; the loop's `substring` failure ends the scan (None).
   */
  method ScanForPropertiesFiles(configured: seq<Directory>, defaultDirectory: Directory) returns (r: Option<Index>)
    ensures r == IndexDirectories(map[], EffectiveDirectories(configured, defaultDirectory))
  {
    var directories := EffectiveDirectories(configured, defaultDirectory);
    var filesByBasePathByLocale: Index := map[];
    for d := 0 to |directories|
      invariant IndexDirectories(map[], directories) == IndexDirectories(filesByBasePathByLocale, directories[d..])
    {
      var directory := directories[d];
      assert directories[d..][1..] == directories[d + 1..];
      if directory.present {
        var next := IndexDirectoryFiles(filesByBasePathByLocale, directory);
        if next.None? {
          return None;
        }
        filesByBasePathByLocale := next.value;
      }
    }
    return Some(filesByBasePathByLocale);
  }

  /** The inner loop of the scan, over the included files of one existing directory. */
  method IndexDirectoryFiles(index: Index, directory: Directory) returns (r: Option<Index>)
    ensures r == IndexFiles(index, directory.path, directory.includedFiles)
  {
    var filesByBasePathByLocale := index;
    var files := directory.includedFiles;
    for f := 0 to |files|
      invariant IndexFiles(index, directory.path, files) == IndexFiles(filesByBasePathByLocale, directory.path, files[f..])
    {
      var includedFile := files[f];
      assert files[f..][1..] == files[f + 1..];
      if EndsWith(includedFile, PropertiesExtension) {
        var parts := SplitPropertiesPath(includedFile);
        var peeled := PeelLocaleSuffix(parts.fileBaseName, '-');
        if peeled.None? {
          return None;
        }
        var (resourceName, locale) := peeled.value;
        var basePath := parts.relativePath + resourceName;
        var filesByBasePath := if locale in filesByBasePathByLocale then filesByBasePathByLocale[locale] else map[];
        filesByBasePathByLocale := filesByBasePathByLocale[locale := filesByBasePath[basePath := FileRef(directory.path, includedFile)]];
      }
    }
    return Some(filesByBasePathByLocale);
  }

  /**
   * Every entry of an index was recorded for a `.properties` file whose
   * key is that entry's locale and base path, and no locale has an empty
   * map of files.
   */
  ghost predicate IsSound(index: Index) {
    forall l :: l in index ==> |index[l]| > 0 && forall b :: b in index[l] ==> IsRecordedUnder(index[l][b], l, b)
  }

  /** A `.properties` file whose own name yields locale `l` and base path `b`. */
  predicate IsRecordedUnder(file: FileRef, l: Locale, b: BasePath) {
    EndsWith(file.includedFile, PropertiesExtension) && BundleKey(file.includedFile) == Some((l, b))
  }

  /** Recording a `.properties` file under its own key keeps an index sound. */
  lemma UpsertSound(index: Index, locale: Locale, basePath: BasePath, file: FileRef)
    requires IsSound(index)
    requires IsRecordedUnder(file, locale, basePath)
    ensures IsSound(Upsert(index, locale, basePath, file))
  {
    var r := Upsert(index, locale, basePath, file);
    forall l | l in r
      ensures |r[l]| > 0 && forall b :: b in r[l] ==> IsRecordedUnder(r[l][b], l, b)
    {
      if l == locale {
        UpsertSoundAt(index, locale, basePath, file);
      } else {
        assert l in index;
        assert r[l] == index[l];
      }
    }
  }

  /** The inner map of the locale just recorded is nonempty and sound. */
  lemma UpsertSoundAt(index: Index, locale: Locale, basePath: BasePath, file: FileRef)
    requires IsSound(index)
    requires IsRecordedUnder(file, locale, basePath)
    ensures var m := Upsert(index, locale, basePath, file)[locale];
            |m| > 0 && forall b :: b in m ==> IsRecordedUnder(m[b], locale, b)
  {
    var m := Upsert(index, locale, basePath, file)[locale];
    assert basePath in m;
    assert |m.Keys| > 0;
    forall b | b in m ensures IsRecordedUnder(m[b], locale, b) {
      if b != basePath {
        assert b in index[locale] && m[b] == index[locale][b];
      }
    }
  }

  lemma {:induction false} IndexFilesSound(index: Index, directory: string, files: seq<string>)
    requires IsSound(index) && IndexFiles(index, directory, files).Some?
    ensures IsSound(IndexFiles(index, directory, files).value)
    decreases |files|
  {
    if |files| > 0 {
      if EndsWith(files[0], PropertiesExtension) {
        var (locale, basePath) := BundleKey(files[0]).value;
        var next := Upsert(index, locale, basePath, FileRef(directory, files[0]));
        UpsertSound(index, locale, basePath, FileRef(directory, files[0]));
        IndexFilesSound(next, directory, files[1..]);
      } else {
        IndexFilesSound(index, directory, files[1..]);
      }
    }
  }

  /**
   * Only `.properties` files are indexed, each under the locale and base
   * path derived from its own name, and every locale of the index has at
   * least one file.
   */
  lemma {:induction false} IndexDirectoriesSound(index: Index, directories: seq<Directory>)
    requires IsSound(index) && IndexDirectories(index, directories).Some?
    ensures IsSound(IndexDirectories(index, directories).value)
    decreases |directories|
  {
    if |directories| > 0 {
      if directories[0].present {
        var d := directories[0];
        IndexFilesSound(index, d.path, d.includedFiles);
        IndexDirectoriesSound(IndexFiles(index, d.path, d.includedFiles).value, directories[1..]);
      } else {
        IndexDirectoriesSound(index, directories[1..]);
      }
    }
  }

  /** Indexing never drops an entry: keys recorded before stay recorded. */
  lemma {:induction false} IndexFilesGrows(index: Index, directory: string, files: seq<string>, l: Locale, b: BasePath)
    requires IndexFiles(index, directory, files).Some?
    requires l in index && b in index[l]
    ensures var r := IndexFiles(index, directory, files).value; l in r && b in r[l]
    decreases |files|
  {
    if |files| > 0 {
      if EndsWith(files[0], PropertiesExtension) {
        var (locale, basePath) := BundleKey(files[0]).value;
        var next := Upsert(index, locale, basePath, FileRef(directory, files[0]));
        assert IndexFiles(index, directory, files) == IndexFiles(next, directory, files[1..]);
        IndexFilesGrows(next, directory, files[1..], l, b);
      } else {
        assert IndexFiles(index, directory, files) == IndexFiles(index, directory, files[1..]);
        IndexFilesGrows(index, directory, files[1..], l, b);
      }
    }
  }

  /**
   * Within one directory, the entry for a key is the last included file
   * with that key: it replaces whatever an earlier file or an earlier
   * directory recorded.
   */
  lemma {:induction false} IndexFilesLastWins(index: Index, directory: string, files: seq<string>, k: nat)
    requires IndexFiles(index, directory, files).Some?
    requires k < |files| && EndsWith(files[k], PropertiesExtension)
    requires forall j :: k < j < |files| && EndsWith(files[j], PropertiesExtension) ==> BundleKey(files[j]) != BundleKey(files[k])
    ensures BundleKey(files[k]).Some?
    ensures var (l, b) := BundleKey(files[k]).value;
            var r := IndexFiles(index, directory, files).value;
            l in r && b in r[l] && r[l][b] == FileRef(directory, files[k])
    decreases |files|
  {
    var rest := files[1..];
    if k == 0 {
      IndexFilesFirstWins(index, directory, files);
    } else {
      assert files[k] == rest[k - 1];
      forall j | k - 1 < j < |rest| && EndsWith(rest[j], PropertiesExtension) ensures BundleKey(rest[j]) != BundleKey(rest[k - 1]) {
        assert rest[j] == files[j + 1];
      }
      if EndsWith(files[0], PropertiesExtension) {
        var (locale, basePath) := BundleKey(files[0]).value;
        var next := Upsert(index, locale, basePath, FileRef(directory, files[0]));
        assert IndexFiles(index, directory, files) == IndexFiles(next, directory, rest);
        IndexFilesLastWins(next, directory, rest, k - 1);
      } else {
        assert IndexFiles(index, directory, files) == IndexFiles(index, directory, rest);
        IndexFilesLastWins(index, directory, rest, k - 1);
      }
    }
  }

  /** A first file whose key no later file repeats keeps its entry to the end. */
  lemma IndexFilesFirstWins(index: Index, directory: string, files: seq<string>)
    requires IndexFiles(index, directory, files).Some?
    requires |files| > 0 && EndsWith(files[0], PropertiesExtension)
    requires forall j :: 0 < j < |files| && EndsWith(files[j], PropertiesExtension) ==> BundleKey(files[j]) != BundleKey(files[0])
    ensures BundleKey(files[0]).Some?
    ensures var (l, b) := BundleKey(files[0]).value;
            var r := IndexFiles(index, directory, files).value;
            l in r && b in r[l] && r[l][b] == FileRef(directory, files[0])
  {
    var rest := files[1..];
    var (locale, basePath) := BundleKey(files[0]).value;
    var next := Upsert(index, locale, basePath, FileRef(directory, files[0]));
    forall j | 0 <= j < |rest| && EndsWith(rest[j], PropertiesExtension) ensures BundleKey(rest[j]) != Some((locale, basePath)) {
      assert rest[j] == files[j + 1];
    }
    KeepsEntry(next, directory, rest, locale, basePath);
  }

  /** Files with other keys leave an entry alone. */
  lemma {:induction false} KeepsEntry(index: Index, directory: string, files: seq<string>, l: Locale, b: BasePath)
    requires IndexFiles(index, directory, files).Some?
    requires l in index && b in index[l]
    requires forall j :: 0 <= j < |files| && EndsWith(files[j], PropertiesExtension) ==> BundleKey(files[j]) != Some((l, b))
    ensures var r := IndexFiles(index, directory, files).value; l in r && b in r[l] && r[l][b] == index[l][b]
    decreases |files|
  {
    if |files| > 0 {
      if EndsWith(files[0], PropertiesExtension) {
        var (locale, basePath) := BundleKey(files[0]).value;
        var next := Upsert(index, locale, basePath, FileRef(directory, files[0]));
        assert IndexFiles(index, directory, files) == IndexFiles(next, directory, files[1..]);
        forall j | 0 <= j < |files[1..]| && EndsWith(files[1..][j], PropertiesExtension) ensures BundleKey(files[1..][j]) != Some((l, b)) {
          assert files[1..][j] == files[j + 1];
        }
        KeepsEntry(next, directory, files[1..], l, b);
      } else {
        assert IndexFiles(index, directory, files) == IndexFiles(index, directory, files[1..]);
        forall j | 0 <= j < |files[1..]| && EndsWith(files[1..][j], PropertiesExtension) ensures BundleKey(files[1..][j]) != Some((l, b)) {
          assert files[1..][j] == files[j + 1];
        }
        KeepsEntry(index, directory, files[1..], l, b);
      }
    }
  }

  /**
   * A later directory overrides an earlier one: when the last directory
   * exists and holds a `.properties` file for a key, the index maps that
   * key to the last such file of that directory.
   */
  lemma LastDirectoryWins(directories: seq<Directory>, last: Directory, k: nat)
    requires IndexDirectories(map[], directories + [last]).Some?
    requires last.present && k < |last.includedFiles| && EndsWith(last.includedFiles[k], PropertiesExtension)
    requires forall j :: k < j < |last.includedFiles| && EndsWith(last.includedFiles[j], PropertiesExtension) ==>
               BundleKey(last.includedFiles[j]) != BundleKey(last.includedFiles[k])
    ensures BundleKey(last.includedFiles[k]).Some?
    ensures var (l, b) := BundleKey(last.includedFiles[k]).value;
            var r := IndexDirectories(map[], directories + [last]).value;
            l in r && b in r[l] && r[l][b] == FileRef(last.path, last.includedFiles[k])
  {
    var before := IndexDirectoriesAppend(map[], directories, last);
    IndexFilesLastWins(before, last.path, last.includedFiles, k);
  }

  /** Indexing a list of directories with one more at its end. */
  lemma {:induction false} IndexDirectoriesAppend(index: Index, directories: seq<Directory>, last: Directory) returns (before: Index)
    requires IndexDirectories(index, directories + [last]).Some?
    ensures IndexDirectories(index, directories) == Some(before)
    ensures IndexDirectories(index, directories + [last])
            == (if last.present then IndexFiles(before, last.path, last.includedFiles) else Some(before))
    decreases |directories|
  {
    if |directories| == 0 {
      assert directories + [last] == [last];
      before := index;
      assert [last][1..] == [];
    } else {
      assert (directories + [last])[1..] == directories[1..] + [last];
      assert (directories + [last])[0] == directories[0];
      if directories[0].present {
        var d := directories[0];
        var next := IndexFiles(index, d.path, d.includedFiles).value;
        before := IndexDirectoriesAppend(next, directories[1..], last);
      } else {
        before := IndexDirectoriesAppend(index, directories[1..], last);
      }
    }
  }
}
