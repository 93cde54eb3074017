/**
 * The duplication mojo: every `.properties` file of the source directory
 * whose locale suffix is the configured source locale is copied, once per
 * configured target locale, to the name that target locale gives it under
 * the output directory, unless the source directory already holds a file
 * of that name.
 */
module DuplicateMojo {
  import opened Wrappers
  import opened JavaStrings
  import opened LocaleSuffix

  /** The mojo parameters that decide what is copied where. */
  datatype Settings = Settings(skip: bool, sourceLocale: Option<string>, copyForLocales: seq<string>)

  /** One copy: a file of the source directory and the relative path it is written to in the output directory. */
  datatype Copy = Copy(source: string, target: string)

  /** Why the mojo ended the build. */
  datatype Failure =
      /** the StringIndexOutOfBoundsException of the locale loop on a file name */
    | LocaleSuffixRejected(propertyFileName: string)
      /** the IOException of `FileUtils.copyFile`, rethrown */
    | CopyFailed(copy: Copy)

  /**
   * The output directory, which the copies change in place: for every
   * relative path written so far, the source file it was copied from.
   */
  class OutputDirectory {
    var files: map<string, string>

    constructor (initial: map<string, string>)
      ensures files == initial
    {
      files := initial;
    }

    /** `FileUtils.copyFile` into the output directory: the target now holds the source, or the copy fails and nothing changes. */
    method CopyFile(c: Copy, copyFails: Copy -> bool) returns (ok: bool)
      modifies this
      ensures ok == !copyFails(c)
      ensures files == if ok then old(files)[c.target := c.source] else old(files)
    {
      ok := !copyFails(c);
      if ok {
        files := files[c.target := c.source];
      }
    }
  }

  /**
   * The file is in the source locale: the extracted locale is empty when no
   * source locale is configured, and equals it, character for character,
   * when one is.
   */
  predicate IsSourceLocale(sourceLocale: Option<string>, locale: string) {
    match sourceLocale
    case None => locale == ""
    case Some(l) => l == locale
  }

  /**
   * The resource name of the copy for one target locale: `_` and the
   * target locale as configured are appended, unless the target locale is
   * blank after trimming.
   */
  function TargetResourceName(resourceName: string, targetLocale: string): string {
    if |Trim(targetLocale)| > 0 then resourceName + "_" + targetLocale else resourceName
  }

  /** The relative path of the copy for one target locale: same directory, target resource name, `.properties`. */
  function TargetPath(relativePath: string, resourceName: string, targetLocale: string): string {
    relativePath + TargetResourceName(resourceName, targetLocale) + PropertiesExtension
  }

  /**
   * The copies the loop over the target locales plans, in order: one per
   * target locale whose path the source directory does not hold.
   */
  function CopiesFor(source: string, relativePath: string, resourceName: string, targetLocales: seq<string>,
                     existsInSource: string -> bool): seq<Copy>
  {
    if |targetLocales| == 0 then []
    else
      var front := CopiesFor(source, relativePath, resourceName, targetLocales[..|targetLocales| - 1], existsInSource);
      var target := TargetPath(relativePath, resourceName, targetLocales[|targetLocales| - 1]);
      if existsInSource(target) then front else front + [Copy(source, target)]
  }

  /**
   * What `checkResourceBundleAndDuplicateIfNecessary` plans for one file:
   * None when the locale loop throws, no copy when the file is not in the
   * source locale, and otherwise the copies for the target locales.
   */
  function Duplicates(s: Settings, propertyFileName: string, existsInSource: string -> bool): Option<seq<Copy>>
    requires EndsWith(propertyFileName, PropertiesExtension)
  {
    var parts := SplitPropertiesPath(propertyFileName);
    match PeelLocale(parts.fileBaseName, '_')
    case None => None
    case Some((resourceName, locale)) =>
      if IsSourceLocale(s.sourceLocale, locale) then
        Some(CopiesFor(propertyFileName, parts.relativePath, resourceName, s.copyForLocales, existsInSource))
      else Some([])
  }

  /** The output directory and the failure that ended the run, if any. */
  datatype RunState = RunState(files: map<string, string>, failure: Option<Failure>)

  /** One copy attempted, unless the run has already ended. */
  function Attempt(st: RunState, c: Copy, copyFails: Copy -> bool): RunState {
    if st.failure.Some? then st
    else if copyFails(c) then RunState(st.files, Some(CopyFailed(c)))
    else RunState(st.files[c.target := c.source], None)
  }

  /** The copies attempted in order; the first that fails ends the run. */
  function AttemptAll(st: RunState, copies: seq<Copy>, copyFails: Copy -> bool): RunState {
    if |copies| == 0 then st
    else Attempt(AttemptAll(st, copies[..|copies| - 1], copyFails), copies[|copies| - 1], copyFails)
  }

  /** One file of the loop in `execute`: names without `.properties` are passed over. */
  function Process(s: Settings, st: RunState, propertyFileName: string, existsInSource: string -> bool,
                   copyFails: Copy -> bool): RunState
  {
    if st.failure.Some? || !EndsWith(propertyFileName, PropertiesExtension) then st
    else
      match Duplicates(s, propertyFileName, existsInSource)
      case None => RunState(st.files, Some(LocaleSuffixRejected(propertyFileName)))
      case Some(copies) => AttemptAll(st, copies, copyFails)
  }

  /** The files processed in order; the first failure ends the run. */
  function ProcessAll(s: Settings, st: RunState, propertyFileNames: seq<string>, existsInSource: string -> bool,
                      copyFails: Copy -> bool): RunState
  {
    if |propertyFileNames| == 0 then st
    else
      var before := ProcessAll(s, st, propertyFileNames[..|propertyFileNames| - 1], existsInSource, copyFails);
      Process(s, before, propertyFileNames[|propertyFileNames| - 1], existsInSource, copyFails)
  }

  /** What `execute` ends with: nothing happens when skipped. */
  function ExecuteOutcome(s: Settings, files: map<string, string>, propertyFileNames: seq<string>,
                          existsInSource: string -> bool, copyFails: Copy -> bool): RunState
  {
    if s.skip then RunState(files, None)
    else ProcessAll(s, RunState(files, None), propertyFileNames, existsInSource, copyFails)
  }

  /**
   * `execute`: unless skipped, every scanned name that ends in
   * `.properties` is checked and duplicated as needed, in scan order.
   */
  method Execute(s: Settings, propertyFileNames: seq<string>, existsInSource: string -> bool,
                 copyFails: Copy -> bool, output: OutputDirectory) returns (failure: Option<Failure>)
    modifies output
    ensures RunState(output.files, failure)
            == ExecuteOutcome(s, old(output.files), propertyFileNames, existsInSource, copyFails)
  {
    if s.skip {
      return None;
    }
    ghost var initial := RunState(output.files, None);
    for i := 0 to |propertyFileNames|
      invariant ProcessAll(s, initial, propertyFileNames[..i], existsInSource, copyFails) == RunState(output.files, None)
    {
      ghost var before := RunState(output.files, None);
      var propertyFileName := propertyFileNames[i];
      failure := None;
      if EndsWith(propertyFileName, PropertiesExtension) {
        failure := CheckResourceBundleAndDuplicateIfNecessary(s, propertyFileName, existsInSource, copyFails, output);
      }
      ProcessStep(s, initial, propertyFileNames, i, before, RunState(output.files, failure), existsInSource, copyFails);
      if failure.Some? {
        return;
      }
    }
    assert propertyFileNames[..|propertyFileNames|] == propertyFileNames;
    failure := None;
  }

  /** One more file processed, and the whole run when that file ends it. */
  lemma ProcessStep(s: Settings, initial: RunState, propertyFileNames: seq<string>, i: nat, before: RunState, after: RunState,
                    existsInSource: string -> bool, copyFails: Copy -> bool)
    requires i < |propertyFileNames| && before.failure.None?
    requires ProcessAll(s, initial, propertyFileNames[..i], existsInSource, copyFails) == before
    requires after == Process(s, before, propertyFileNames[i], existsInSource, copyFails)
    ensures ProcessAll(s, initial, propertyFileNames[..i + 1], existsInSource, copyFails) == after
    ensures after.failure.Some? ==> ProcessAll(s, initial, propertyFileNames, existsInSource, copyFails) == after
  {
    ProcessAllNext(s, initial, propertyFileNames, i, existsInSource, copyFails);
    if after.failure.Some? {
      ProcessAllEndedAt(s, initial, propertyFileNames, i + 1, existsInSource, copyFails);
    }
  }

  /** A run that has ended after the first `j` files ends the same after all of them. */
  lemma ProcessAllEndedAt(s: Settings, st: RunState, propertyFileNames: seq<string>, j: nat,
                          existsInSource: string -> bool, copyFails: Copy -> bool)
    requires j <= |propertyFileNames|
    requires ProcessAll(s, st, propertyFileNames[..j], existsInSource, copyFails).failure.Some?
    ensures ProcessAll(s, st, propertyFileNames, existsInSource, copyFails)
            == ProcessAll(s, st, propertyFileNames[..j], existsInSource, copyFails)
  {
    ProcessAllEnded(s, st, propertyFileNames[..j], propertyFileNames[j..], existsInSource, copyFails);
    assert propertyFileNames[..j] + propertyFileNames[j..] == propertyFileNames;
  }

  lemma ProcessAllNext(s: Settings, initial: RunState, propertyFileNames: seq<string>, i: nat,
                       existsInSource: string -> bool, copyFails: Copy -> bool)
    requires i < |propertyFileNames|
    ensures ProcessAll(s, initial, propertyFileNames[..i + 1], existsInSource, copyFails)
            == Process(s, ProcessAll(s, initial, propertyFileNames[..i], existsInSource, copyFails), propertyFileNames[i],
                       existsInSource, copyFails)
  {
    assert propertyFileNames[..i + 1][..i] == propertyFileNames[..i];
  }

  /**
   * A name the run passes over: it does not end in `.properties`, or its
   * locale suffix is peeled and is not the source locale.
   */
  predicate IsPassedOver(s: Settings, propertyFileName: string) {
    !EndsWith(propertyFileName, PropertiesExtension)
    || (var peeled := PeelLocale(SplitPropertiesPath(propertyFileName).fileBaseName, '_');
        peeled.Some? && !IsSourceLocale(s.sourceLocale, peeled.value.1))
  }

  /**
   * Files in other locales than the source locale are left alone: a run
   * over names that are all passed over writes nothing and never fails.
   */
  lemma {:induction false} ProcessAllPassesOver(s: Settings, st: RunState, propertyFileNames: seq<string>,
                                                existsInSource: string -> bool, copyFails: Copy -> bool)
    requires forall k :: 0 <= k < |propertyFileNames| ==> IsPassedOver(s, propertyFileNames[k])
    ensures ProcessAll(s, st, propertyFileNames, existsInSource, copyFails) == st
  {
    if |propertyFileNames| > 0 {
      var n := |propertyFileNames|;
      var front := propertyFileNames[..n - 1];
      assert forall k :: 0 <= k < |front| ==> front[k] == propertyFileNames[k];
      ProcessAllPassesOver(s, st, front, existsInSource, copyFails);
      assert IsPassedOver(s, propertyFileNames[n - 1]);
    }
  }

  /** Once the run has ended, the remaining files change nothing. */
  lemma {:induction false} ProcessAllEnded(s: Settings, st: RunState, done: seq<string>, rest: seq<string>,
                                           existsInSource: string -> bool, copyFails: Copy -> bool)
    requires ProcessAll(s, st, done, existsInSource, copyFails).failure.Some?
    ensures ProcessAll(s, st, done + rest, existsInSource, copyFails) == ProcessAll(s, st, done, existsInSource, copyFails)
    decreases |rest|
  {
    if |rest| > 0 {
      var front := rest[..|rest| - 1];
      assert (done + rest)[..|done + rest| - 1] == done + front;
      ProcessAllEnded(s, st, done, front, existsInSource, copyFails);
    } else {
      assert done + rest == done;
    }
  }

  /**
   * `checkResourceBundleAndDuplicateIfNecessary`: the split of the path,
   * the locale loop, the source-locale match, and the loop over the target
   * locales that copies the file wherever the source directory lacks the
   * target.
   */
  method CheckResourceBundleAndDuplicateIfNecessary(s: Settings, propertyFileName: string, existsInSource: string -> bool,
                                                   copyFails: Copy -> bool, output: OutputDirectory)
    returns (failure: Option<Failure>)
    requires EndsWith(propertyFileName, PropertiesExtension)
    modifies output
    ensures RunState(output.files, failure)
            == Process(s, RunState(old(output.files), None), propertyFileName, existsInSource, copyFails)
  {
    ProcessCases(s, RunState(output.files, None), propertyFileName, existsInSource, copyFails);
    var parts := SplitPropertiesPath(propertyFileName);
    var peeled := PeelLocaleSuffix(parts.fileBaseName, '_');
    if peeled.None? {
      return Some(LocaleSuffixRejected(propertyFileName));
    }
    var (resourceName, locale) := peeled.value;
    if !IsSourceLocale(s.sourceLocale, locale) {
      return None;
    }
    ghost var initial := RunState(output.files, None);
    var targetLocales := s.copyForLocales;
    for i := 0 to |targetLocales|
      invariant AttemptAll(initial, CopiesFor(propertyFileName, parts.relativePath, resourceName, targetLocales[..i], existsInSource), copyFails)
                == RunState(output.files, None)
    {
      ghost var before := RunState(output.files, None);
      var targetPropertyFileName := TargetPath(parts.relativePath, resourceName, targetLocales[i]);
      var ok := true;
      if !existsInSource(targetPropertyFileName) {
        ok := output.CopyFile(Copy(propertyFileName, targetPropertyFileName), copyFails);
      }
      failure := if ok then None else Some(CopyFailed(Copy(propertyFileName, targetPropertyFileName)));
      CopyStep(initial, propertyFileName, parts.relativePath, resourceName, targetLocales, i, before,
               RunState(output.files, failure), existsInSource, copyFails);
      if !ok {
        return;
      }
    }
    assert targetLocales[..|targetLocales|] == targetLocales;
    failure := None;
  }

  /** The three ways one `.properties` file is processed in a run that has not ended. */
  lemma ProcessCases(s: Settings, st: RunState, propertyFileName: string, existsInSource: string -> bool,
                     copyFails: Copy -> bool)
    requires EndsWith(propertyFileName, PropertiesExtension) && st.failure.None?
    ensures var parts := SplitPropertiesPath(propertyFileName);
            var peeled := PeelLocale(parts.fileBaseName, '_');
            Process(s, st, propertyFileName, existsInSource, copyFails)
            == if peeled.None? then RunState(st.files, Some(LocaleSuffixRejected(propertyFileName)))
               else if !IsSourceLocale(s.sourceLocale, peeled.value.1) then st
               else AttemptAll(st, CopiesFor(propertyFileName, parts.relativePath, peeled.value.0, s.copyForLocales,
                                             existsInSource), copyFails)
  {
  }

  /** One more target locale handled, and all of them when its copy fails. */
  lemma CopyStep(initial: RunState, source: string, relativePath: string, resourceName: string, targetLocales: seq<string>,
                 i: nat, before: RunState, after: RunState, existsInSource: string -> bool, copyFails: Copy -> bool)
    requires i < |targetLocales| && before.failure.None?
    requires AttemptAll(initial, CopiesFor(source, relativePath, resourceName, targetLocales[..i], existsInSource), copyFails) == before
    requires var target := TargetPath(relativePath, resourceName, targetLocales[i]);
             after == if existsInSource(target) then before else Attempt(before, Copy(source, target), copyFails)
    ensures AttemptAll(initial, CopiesFor(source, relativePath, resourceName, targetLocales[..i + 1], existsInSource), copyFails) == after
    ensures after.failure.Some? ==>
              AttemptAll(initial, CopiesFor(source, relativePath, resourceName, targetLocales, existsInSource), copyFails) == after
  {
    var planned := CopiesFor(source, relativePath, resourceName, targetLocales[..i], existsInSource);
    var target := TargetPath(relativePath, resourceName, targetLocales[i]);
    assert CopiesFor(source, relativePath, resourceName, targetLocales[..i + 1], existsInSource)
           == if existsInSource(target) then planned else planned + [Copy(source, target)] by {
      PrefixOfPrefix(targetLocales, i);
    }
    if !existsInSource(target) {
      AttemptSnoc(initial, planned, Copy(source, target), copyFails);
    }
    if after.failure.Some? {
      CopiesEndedAt(initial, source, relativePath, resourceName, targetLocales, i + 1, existsInSource, copyFails);
    }
  }

  /** Attempting one more copy continues from where the earlier copies left the run. */
  lemma AttemptSnoc(st: RunState, copies: seq<Copy>, c: Copy, copyFails: Copy -> bool)
    ensures AttemptAll(st, copies + [c], copyFails) == Attempt(AttemptAll(st, copies, copyFails), c, copyFails)
  {
    assert (copies + [c])[..|copies|] == copies;
  }

  /** Copies that have failed for the first `j` target locales end the same for all of them. */
  lemma CopiesEndedAt(initial: RunState, source: string, relativePath: string, resourceName: string,
                      targetLocales: seq<string>, j: nat, existsInSource: string -> bool, copyFails: Copy -> bool)
    requires j <= |targetLocales|
    requires AttemptAll(initial, CopiesFor(source, relativePath, resourceName, targetLocales[..j], existsInSource), copyFails)
             .failure.Some?
    ensures AttemptAll(initial, CopiesFor(source, relativePath, resourceName, targetLocales, existsInSource), copyFails)
            == AttemptAll(initial, CopiesFor(source, relativePath, resourceName, targetLocales[..j], existsInSource), copyFails)
  {
    var done := CopiesFor(source, relativePath, resourceName, targetLocales[..j], existsInSource);
    AttemptAllEnded(initial, done, CopiesAfter(source, relativePath, resourceName, targetLocales, j, existsInSource), copyFails);
    CopiesForSplit(source, relativePath, resourceName, targetLocales, j, existsInSource);
  }

  /** The copies planned for the target locales from position `i` on. */
  function CopiesAfter(source: string, relativePath: string, resourceName: string, targetLocales: seq<string>, i: nat,
                       existsInSource: string -> bool): seq<Copy>
    requires i <= |targetLocales|
  {
    CopiesFor(source, relativePath, resourceName, targetLocales[i..], existsInSource)
  }

  /** The planned copies split at a position of the target locales. */
  lemma {:induction false} CopiesForAppend(source: string, relativePath: string, resourceName: string,
                                           front: seq<string>, back: seq<string>, existsInSource: string -> bool)
    ensures CopiesFor(source, relativePath, resourceName, front + back, existsInSource)
            == CopiesFor(source, relativePath, resourceName, front, existsInSource)
               + CopiesFor(source, relativePath, resourceName, back, existsInSource)
    decreases |back|
  {
    if |back| == 0 {
      assert front + back == front;
    } else {
      var back' := back[..|back| - 1];
      assert (front + back)[..|front + back| - 1] == front + back';
      CopiesForAppend(source, relativePath, resourceName, front, back', existsInSource);
    }
  }

  lemma CopiesForSplit(source: string, relativePath: string, resourceName: string, targetLocales: seq<string>, i: nat,
                       existsInSource: string -> bool)
    requires i <= |targetLocales|
    ensures CopiesFor(source, relativePath, resourceName, targetLocales, existsInSource)
            == CopiesFor(source, relativePath, resourceName, targetLocales[..i], existsInSource)
               + CopiesAfter(source, relativePath, resourceName, targetLocales, i, existsInSource)
  {
    assert targetLocales[..i] + targetLocales[i..] == targetLocales;
    CopiesForAppend(source, relativePath, resourceName, targetLocales[..i], targetLocales[i..], existsInSource);
  }

  /** Once a copy has failed, the remaining copies change nothing. */
  lemma {:induction false} AttemptAllEnded(st: RunState, done: seq<Copy>, rest: seq<Copy>, copyFails: Copy -> bool)
    requires AttemptAll(st, done, copyFails).failure.Some?
    ensures AttemptAll(st, done + rest, copyFails) == AttemptAll(st, done, copyFails)
    decreases |rest|
  {
    if |rest| > 0 {
      var front := rest[..|rest| - 1];
      assert (done + rest)[..|done + rest| - 1] == done + front;
      AttemptAllEnded(st, done, front, copyFails);
    } else {
      assert done + rest == done;
    }
  }

  // ---------------------------------------------------------------------
  // What the duplication guarantees

  /**
   * A copy is planned exactly for each configured target locale whose path
   * the source directory does not hold, and always from the file itself.
   */
  lemma {:induction false} CopiesForMembers(source: string, relativePath: string, resourceName: string,
                                            targetLocales: seq<string>, existsInSource: string -> bool, c: Copy)
    ensures c in CopiesFor(source, relativePath, resourceName, targetLocales, existsInSource)
            <==> c.source == source && !existsInSource(c.target)
                 && exists i :: 0 <= i < |targetLocales| && c.target == TargetPath(relativePath, resourceName, targetLocales[i])
    decreases |targetLocales|
  {
    if |targetLocales| > 0 {
      var front := targetLocales[..|targetLocales| - 1];
      CopiesForMembers(source, relativePath, resourceName, front, existsInSource, c);
      TargetAmongSnoc(relativePath, resourceName, targetLocales, c.target);
      var target := TargetPath(relativePath, resourceName, targetLocales[|targetLocales| - 1]);
      var planned := CopiesFor(source, relativePath, resourceName, front, existsInSource);
      assert CopiesFor(source, relativePath, resourceName, targetLocales, existsInSource)
             == if existsInSource(target) then planned else planned + [Copy(source, target)];
    }
  }

  /** The target paths of a run of locales are those of all but the last, and that of the last. */
  lemma TargetAmongSnoc(relativePath: string, resourceName: string, targetLocales: seq<string>, t: string)
    requires |targetLocales| > 0
    ensures var front := targetLocales[..|targetLocales| - 1];
            (exists i :: 0 <= i < |targetLocales| && t == TargetPath(relativePath, resourceName, targetLocales[i]))
            <==> (exists i :: 0 <= i < |front| && t == TargetPath(relativePath, resourceName, front[i]))
                 || t == TargetPath(relativePath, resourceName, targetLocales[|targetLocales| - 1])
  {
    ExistsSnoc(targetLocales, targetLocales[..|targetLocales| - 1], x => t == TargetPath(relativePath, resourceName, x));
  }

  /** Some element of a non-empty run satisfies `p` exactly when one before the last does or the last does. */
  lemma ExistsSnoc<T>(xs: seq<T>, front: seq<T>, p: T -> bool)
    requires |xs| > 0 && front == xs[..|xs| - 1]
    ensures (exists i :: 0 <= i < |xs| && p(xs[i]))
            <==> (exists i :: 0 <= i < |front| && p(front[i])) || p(xs[|xs| - 1])
  {
    if exists i :: 0 <= i < |xs| && p(xs[i]) {
      var i :| 0 <= i < |xs| && p(xs[i]);
      if i < |front| {
        assert front[i] == xs[i];
      }
    }
    if exists i :: 0 <= i < |front| && p(front[i]) {
      var i :| 0 <= i < |front| && p(front[i]);
      assert xs[i] == front[i];
    }
  }


  /**
   * What one file leads to: copies only when its locale is the source
   * locale, each from the file itself, to the path of a configured target
   * locale that the source directory lacks, and one for every such target
   * locale.
   */
  lemma DuplicatesMeaning(s: Settings, propertyFileName: string, existsInSource: string -> bool, c: Copy)
    requires EndsWith(propertyFileName, PropertiesExtension)
    requires Duplicates(s, propertyFileName, existsInSource).Some?
    ensures var parts := SplitPropertiesPath(propertyFileName);
            var (resourceName, locale) := PeelLocale(parts.fileBaseName, '_').value;
            c in Duplicates(s, propertyFileName, existsInSource).value
            <==> IsSourceLocale(s.sourceLocale, locale) && c.source == propertyFileName && !existsInSource(c.target)
                 && exists i :: 0 <= i < |s.copyForLocales|
                                && c.target == TargetPath(parts.relativePath, resourceName, s.copyForLocales[i])
  {
    var parts := SplitPropertiesPath(propertyFileName);
    var (resourceName, locale) := PeelLocale(parts.fileBaseName, '_').value;
    CopiesForMembers(propertyFileName, parts.relativePath, resourceName, s.copyForLocales, existsInSource, c);
  }

  /** Only a name whose locale loop throws ends the run without any copy; the others are planned. */
  lemma DuplicatesFailsIff(s: Settings, propertyFileName: string, existsInSource: string -> bool)
    requires EndsWith(propertyFileName, PropertiesExtension)
    ensures Duplicates(s, propertyFileName, existsInSource).None?
            <==> IsShortFragmentChain(SplitPropertiesPath(propertyFileName).fileBaseName, 3)
  {
    PeelFailsIff(SplitPropertiesPath(propertyFileName).fileBaseName, 3);
  }

  /**
   * A path splits one way only into a directory part (empty or ending in
   * `/`), a file base name without `/`, and `.properties`.
   */
  lemma SplitPropertiesPathUnique(relativePath: string, fileBaseName: string)
    requires relativePath == "" || relativePath[|relativePath| - 1] == '/'
    requires '/' !in fileBaseName
    ensures EndsWith(relativePath + fileBaseName + PropertiesExtension, PropertiesExtension)
    ensures SplitPropertiesPath(relativePath + fileBaseName + PropertiesExtension) == PathParts(relativePath, fileBaseName)
  {
    var path := relativePath + fileBaseName + PropertiesExtension;
    EndsWithAppend(relativePath + fileBaseName, PropertiesExtension);
    var p := SplitPropertiesPath(path);
    var stem := relativePath + fileBaseName;
    AppendCancel(p.relativePath + p.fileBaseName, stem, PropertiesExtension);
    DirectorySplitUnique(stem, p.relativePath, p.fileBaseName, relativePath, fileBaseName);
  }

  /** Two splits of a text into a directory part (empty or ending in `/`) and a rest without `/` are the same split. */
  lemma DirectorySplitUnique(stem: string, dir1: string, rest1: string, dir2: string, rest2: string)
    requires stem == dir1 + rest1 && stem == dir2 + rest2
    requires dir1 == "" || dir1[|dir1| - 1] == '/'
    requires dir2 == "" || dir2[|dir2| - 1] == '/'
    requires '/' !in rest1 && '/' !in rest2
    ensures dir1 == dir2 && rest1 == rest2
  {
    assert dir1 == stem[..|dir1|];
    assert dir2 == stem[..|dir2|];
    assert rest1 == stem[|dir1|..];
    assert rest2 == stem[|dir2|..];
  }

  /** Peeling leaves a resource name that the file base name starts with. */
  lemma PeelKeepsPrefix(fileBaseName: string)
    requires PeelLocale(fileBaseName, '_').Some?
    ensures var resourceName := PeelLocale(fileBaseName, '_').value.0;
            |resourceName| <= |fileBaseName| && resourceName == fileBaseName[..|resourceName|]
  {
    var (rest, fragments) := Peel(fileBaseName, 3).value;
    PeelLocaleOf(fileBaseName, '_', rest, fragments);
    PeelRoundTrip(fileBaseName, 3);
    if fragments != [] {
      PrefixOfJoined(rest, JoinWith(fragments, '_'), fileBaseName);
    }
  }

  lemma PrefixOfJoined(rest: string, joined: string, name: string)
    requires rest + "_" + joined == name
    ensures |rest| <= |name| && rest == name[..|rest|]
  {
    assert (rest + "_" + joined)[..|rest|] == rest;
  }

  /**
   * A copy stays in the directory of its source file: for a directory part
   * and a base name as the split of a `.properties` path gives them, and a
   * target locale without `/`, the target path splits into the same
   * directory and the target resource name.
   */
  lemma TargetStaysInDirectory(relativePath: string, fileBaseName: string, targetLocale: string)
    requires relativePath == "" || relativePath[|relativePath| - 1] == '/'
    requires '/' !in fileBaseName && PeelLocale(fileBaseName, '_').Some?
    requires '/' !in targetLocale
    ensures var resourceName := PeelLocale(fileBaseName, '_').value.0;
            SplitPropertiesPath(TargetPath(relativePath, resourceName, targetLocale))
            == PathParts(relativePath, TargetResourceName(resourceName, targetLocale))
  {
    var resourceName := PeelLocale(fileBaseName, '_').value.0;
    PeelKeepsPrefix(fileBaseName);
    NoSlashInPrefix(fileBaseName, resourceName);
    TargetSplits(relativePath, resourceName, targetLocale);
  }

  /** A target path splits back into its directory and its target resource name. */
  lemma TargetSplits(relativePath: string, resourceName: string, targetLocale: string)
    requires relativePath == "" || relativePath[|relativePath| - 1] == '/'
    requires '/' !in resourceName && '/' !in targetLocale
    ensures EndsWith(TargetPath(relativePath, resourceName, targetLocale), PropertiesExtension)
    ensures SplitPropertiesPath(TargetPath(relativePath, resourceName, targetLocale))
            == PathParts(relativePath, TargetResourceName(resourceName, targetLocale))
  {
    var name := TargetResourceName(resourceName, targetLocale);
    NoSlashInTargetName(resourceName, targetLocale);
    SplitPropertiesPathUnique(relativePath, name);
  }

  lemma NoSlashInPrefix(name: string, prefix: string)
    requires '/' !in name && |prefix| <= |name| && prefix == name[..|prefix|]
    ensures '/' !in prefix
  {
    forall k | 0 <= k < |prefix| ensures prefix[k] != '/' {
      assert prefix[k] == name[k];
    }
  }

  lemma NoSlashInTargetName(resourceName: string, targetLocale: string)
    requires '/' !in resourceName && '/' !in targetLocale
    ensures '/' !in TargetResourceName(resourceName, targetLocale)
  {
    var name := TargetResourceName(resourceName, targetLocale);
    if |Trim(targetLocale)| > 0 {
      forall k | 0 <= k < |name| ensures name[k] != '/' {
        if k < |resourceName| {
          assert name[k] == resourceName[k];
        } else if k > |resourceName| {
          assert name[k] == targetLocale[k - |resourceName| - 1];
        }
      }
    }
  }

  /** At most `budget` fragments. */
  predicate IsFragmentList(fragments: seq<string>, budget: nat) {
    |fragments| <= budget && forall k :: 0 <= k < |fragments| ==> IsFragment(fragments[k])
  }

  /** A resource name followed by `_` and the fragments joined with `_`, or the name alone without fragments. */
  function Joined(resourceName: string, fragments: seq<string>): string {
    if fragments == [] then resourceName else resourceName + "_" + JoinWith(fragments, '_')
  }

  lemma JoinedSnoc(resourceName: string, front: seq<string>, last: string)
    ensures Joined(resourceName, front + [last]) == Joined(resourceName, front) + "_" + last
  {
    if front != [] {
      JoinWithAppend(front, [last], '_');
    } else {
      assert front + [last] == [last];
    }
  }

  /**
   * Peeling a resource name followed by `_` and a chain of fragments gives
   * back that name and that chain, when the chain uses up the budget or
   * the resource name does not end in a fragment itself.
   */
  lemma {:induction false} PeelJoined(resourceName: string, fragments: seq<string>, budget: nat)
    requires IsFragmentList(fragments, budget)
    requires |fragments| == budget || !EndsWithFragment(resourceName)
    ensures Peel(Joined(resourceName, fragments), budget) == Some((resourceName, fragments))
    decreases |fragments|
  {
    if fragments == [] {
      if budget > 0 {
        PeelStop(resourceName, budget);
      }
    } else {
      FragmentListSnoc(fragments, budget);
      PeelJoined(resourceName, fragments[..|fragments| - 1], budget - 1);
      PeelJoinedSnoc(resourceName, fragments, budget);
    }
  }

  /** One inductive step of `PeelJoined`: the last fragment is peeled first. */
  lemma PeelJoinedSnoc(resourceName: string, fragments: seq<string>, budget: nat)
    requires fragments != [] && budget > 0 && IsFragment(fragments[|fragments| - 1])
    requires var front := fragments[..|fragments| - 1];
             Peel(Joined(resourceName, front), budget - 1) == Some((resourceName, front))
    ensures Peel(Joined(resourceName, fragments), budget) == Some((resourceName, fragments))
  {
    var last := fragments[|fragments| - 1];
    var front := fragments[..|fragments| - 1];
    JoinedSnoc(resourceName, front, last);
    PeelOneMore(Joined(resourceName, fragments), Joined(resourceName, front), last, budget, resourceName, front);
    FrontAndLast(fragments);
  }

  /** A fragment list without its last fragment fits one fragment less. */
  lemma FragmentListSnoc(fragments: seq<string>, budget: nat)
    requires IsFragmentList(fragments, budget) && fragments != []
    ensures budget > 0 && IsFragmentList(fragments[..|fragments| - 1], budget - 1)
    ensures IsFragment(fragments[|fragments| - 1])
  {
    var front := fragments[..|fragments| - 1];
    forall k | 0 <= k < |front| ensures IsFragment(front[k]) {
      assert front[k] == fragments[k];
    }
  }

  /**
   * A copy is read back, by the same loop, as the same resource in the
   * target locale, when the target locale is a chain of at most three
   * two-character fragments and the source file's own locale took fewer
   * than three fragments (so the peeling stopped at the resource name).
   */
  lemma CopyReadsBackInTargetLocale(propertyFileName: string, targetLocale: string, fragments: seq<string>)
    requires EndsWith(propertyFileName, PropertiesExtension)
    requires var name := SplitPropertiesPath(propertyFileName).fileBaseName;
             Peel(name, 3).Some? && |Peel(name, 3).value.1| < 3
    requires fragments != [] && IsFragmentList(fragments, 3) && targetLocale == JoinWith(fragments, '_')
    requires |Trim(targetLocale)| > 0
    requires '/' !in targetLocale
    ensures var parts := SplitPropertiesPath(propertyFileName);
            var resourceName := PeelLocale(parts.fileBaseName, '_').value.0;
            var target := TargetPath(parts.relativePath, resourceName, targetLocale);
            EndsWith(target, PropertiesExtension)
            && PeelLocale(SplitPropertiesPath(target).fileBaseName, '_') == Some((resourceName, targetLocale))
  {
    var parts := SplitPropertiesPath(propertyFileName);
    var resourceName := PeelLocale(parts.fileBaseName, '_').value.0;
    PeelStopsAtLastFragment(parts.fileBaseName, 3);
    TargetStaysInDirectory(parts.relativePath, parts.fileBaseName, targetLocale);
    PeelJoined(resourceName, fragments, 3);
  }

  /**
   * With three fragments peeled, the resource name may itself end in a
   * fragment, and the copy is then read back as another resource:
   * `x_aa_bb_cc_dd` in source locale `bb_cc_dd` is copied for `fr` to
   * `x_aa_fr`, which the loop reads as resource `x` in locale `aa_fr`.
   */
  lemma DeepResourceNameReadsBackDifferently()
    ensures PeelLocale("x_aa_bb_cc_dd", '_') == Some(("x_aa", "bb_cc_dd"))
    ensures TargetResourceName("x_aa", "fr") == "x_aa_fr"
    ensures PeelLocale("x_aa_fr", '_') == Some(("x", "aa_fr"))
  {
    PeelThreeFragments();
    assert |Trim("fr")| > 0;
    PeelTwoFragments();
  }

  lemma PeelThreeFragments()
    ensures PeelLocale("x_aa_bb_cc_dd", '_') == Some(("x_aa", "bb_cc_dd"))
  {
    var long := ["bb", "cc", "dd"];
    assert long[..2] == ["bb", "cc"];
    assert long[..2][..1] == ["bb"];
    assert JoinWith(long, '_') == "bb_cc_dd";
    assert Joined("x_aa", long) == "x_aa_bb_cc_dd";
    PeelJoined("x_aa", long, 3);
    PeelLocaleOf("x_aa_bb_cc_dd", '_', "x_aa", long);
  }

  lemma PeelTwoFragments()
    ensures PeelLocale("x_aa_fr", '_') == Some(("x", "aa_fr"))
  {
    assert LastIndexOf("x", '_') == -1;
    var short := ["aa", "fr"];
    assert short[..1] == ["aa"];
    assert JoinWith(short, '_') == "aa_fr";
    assert Joined("x", short) == "x_aa_fr";
    PeelJoined("x", short, 3);
    PeelLocaleOf("x_aa_fr", '_', "x", short);
  }


  /** A joined chain ends in its last fragment, so it is at least that long. */
  lemma JoinWithLength(fragments: seq<string>, sep: char)
    requires fragments != []
    ensures |JoinWith(fragments, sep)| >= |fragments[|fragments| - 1]|
  {
  }

  /**
   * For a file without locale suffix, a blank target locale names the file
   * itself, which the source directory holds, so no copy is made for it.
   */
  lemma BlankTargetNamesTheFileItself(propertyFileName: string, targetLocale: string)
    requires EndsWith(propertyFileName, PropertiesExtension)
    requires var peeled := PeelLocale(SplitPropertiesPath(propertyFileName).fileBaseName, '_');
             peeled.Some? && peeled.value.1 == ""
    requires |Trim(targetLocale)| == 0
    ensures var parts := SplitPropertiesPath(propertyFileName);
            TargetPath(parts.relativePath, PeelLocale(parts.fileBaseName, '_').value.0, targetLocale) == propertyFileName
  {
    var parts := SplitPropertiesPath(propertyFileName);
    var name := parts.fileBaseName;
    PeelRoundTrip(name, 3);
    PeelFragmentShape(name, 3);
    var fragments := Peel(name, 3).value.1;
    if fragments != [] {
      JoinWithLength(fragments, '_');
    }
  }

  /** The names that end in `.properties`, in order. */
  function PropertiesFileNames(names: seq<string>): (r: seq<string>)
    ensures forall k :: 0 <= k < |r| ==> EndsWith(r[k], PropertiesExtension)
  {
    if |names| == 0 then []
    else
      var front := PropertiesFileNames(names[..|names| - 1]);
      if EndsWith(names[|names| - 1], PropertiesExtension) then front + [names[|names| - 1]] else front
  }

  /** The filter in `execute`: names without `.properties` play no part in the run. */
  lemma {:induction false} ProcessAllIgnoresOtherNames(s: Settings, st: RunState, names: seq<string>,
                                                      existsInSource: string -> bool, copyFails: Copy -> bool)
    ensures ProcessAll(s, st, names, existsInSource, copyFails)
            == ProcessAll(s, st, PropertiesFileNames(names), existsInSource, copyFails)
    decreases |names|
  {
    if |names| > 0 {
      var front := names[..|names| - 1];
      var last := names[|names| - 1];
      ProcessAllIgnoresOtherNames(s, st, front, existsInSource, copyFails);
      if EndsWith(last, PropertiesExtension) {
        var filtered := PropertiesFileNames(front) + [last];
        assert filtered[..|filtered| - 1] == PropertiesFileNames(front);
      }
    }
  }

  /**
   * Every file the run has written or rewritten since `before` lies where
   * the source directory holds nothing, is a `.properties` file, and is a
   * copy of one of the given names.
   */
  ghost predicate OnlyCopiesOf(before: map<string, string>, after: map<string, string>, existsInSource: string -> bool,
                               names: seq<string>)
  {
    forall k :: k in after && (k !in before || after[k] != before[k]) ==>
      !existsInSource(k) && EndsWith(k, PropertiesExtension) && after[k] in names
  }

  /** A copy that is allowed keeps the written files allowed. */
  lemma AttemptOnlyCopies(before: map<string, string>, st: RunState, c: Copy, copyFails: Copy -> bool,
                          existsInSource: string -> bool, names: seq<string>)
    requires OnlyCopiesOf(before, st.files, existsInSource, names)
    requires !existsInSource(c.target) && EndsWith(c.target, PropertiesExtension) && c.source in names
    ensures OnlyCopiesOf(before, Attempt(st, c, copyFails).files, existsInSource, names)
  {
  }

  lemma {:induction false} AttemptAllOnlyCopies(before: map<string, string>, st: RunState, copies: seq<Copy>,
                                                copyFails: Copy -> bool, existsInSource: string -> bool, names: seq<string>)
    requires OnlyCopiesOf(before, st.files, existsInSource, names)
    requires forall k :: 0 <= k < |copies| ==>
               !existsInSource(copies[k].target) && EndsWith(copies[k].target, PropertiesExtension) && copies[k].source in names
    ensures OnlyCopiesOf(before, AttemptAll(st, copies, copyFails).files, existsInSource, names)
    decreases |copies|
  {
    if |copies| > 0 {
      var front := copies[..|copies| - 1];
      AttemptAllOnlyCopies(before, st, front, copyFails, existsInSource, names);
      AttemptOnlyCopies(before, AttemptAll(st, front, copyFails), copies[|copies| - 1], copyFails, existsInSource, names);
    }
  }

  /** The copies planned for one file are allowed for any list of names that holds the file. */
  lemma DuplicatesAllowed(s: Settings, propertyFileName: string, existsInSource: string -> bool, names: seq<string>)
    requires EndsWith(propertyFileName, PropertiesExtension) && propertyFileName in names
    requires Duplicates(s, propertyFileName, existsInSource).Some?
    ensures var copies := Duplicates(s, propertyFileName, existsInSource).value;
            forall k :: 0 <= k < |copies| ==>
              !existsInSource(copies[k].target) && EndsWith(copies[k].target, PropertiesExtension) && copies[k].source in names
  {
    var copies := Duplicates(s, propertyFileName, existsInSource).value;
    forall k | 0 <= k < |copies|
      ensures !existsInSource(copies[k].target) && EndsWith(copies[k].target, PropertiesExtension) && copies[k].source in names
    {
      DuplicatesMeaning(s, propertyFileName, existsInSource, copies[k]);
      var parts := SplitPropertiesPath(propertyFileName);
      var i :| 0 <= i < |s.copyForLocales| && copies[k].target
               == TargetPath(parts.relativePath, PeelLocale(parts.fileBaseName, '_').value.0, s.copyForLocales[i]);
      EndsWithAppend(parts.relativePath + TargetResourceName(PeelLocale(parts.fileBaseName, '_').value.0, s.copyForLocales[i]),
                     PropertiesExtension);
    }
  }

  lemma OnlyCopiesOfWider(before: map<string, string>, after: map<string, string>, existsInSource: string -> bool,
                          names: seq<string>, wider: seq<string>)
    requires OnlyCopiesOf(before, after, existsInSource, names)
    requires forall k :: 0 <= k < |names| ==> names[k] in wider
    ensures OnlyCopiesOf(before, after, existsInSource, wider)
  {
  }

  /**
   * The run never writes over a path the source directory holds: every
   * file it writes is a `.properties` file missing from the source
   * directory, and a copy of one of the scanned names.
   */
  lemma {:induction false} ProcessAllOnlyCopies(s: Settings, st: RunState, names: seq<string>,
                                               existsInSource: string -> bool, copyFails: Copy -> bool)
    ensures OnlyCopiesOf(st.files, ProcessAll(s, st, names, existsInSource, copyFails).files, existsInSource, names)
    decreases |names|
  {
    if |names| > 0 {
      var front := names[..|names| - 1];
      var last := names[|names| - 1];
      var before := ProcessAll(s, st, front, existsInSource, copyFails);
      ProcessAllOnlyCopies(s, st, front, existsInSource, copyFails);
      OnlyCopiesOfWider(st.files, before.files, existsInSource, front, names);
      if before.failure.None? && EndsWith(last, PropertiesExtension) && Duplicates(s, last, existsInSource).Some? {
        DuplicatesAllowed(s, last, existsInSource, names);
        AttemptAllOnlyCopies(st.files, before, Duplicates(s, last, existsInSource).value, copyFails, existsInSource, names);
      }
    }
  }
}
