# i18n resources plugin: a Dafny model of its core

The i18n resources Maven plugin does two jobs for Java resource bundles
(`.properties` files named `<resource>[_<locale fragment>...].properties`):

- **`validateI18nResources`** (`ValidateI18nResourcesMojo`) scans the
  configured validation directories and indexes every `.properties` file by
  locale and by base path (relative directory plus resource name). It then
  checks:
  - that root and every required locale have a bundle for every base path;
  - that every logical line is free of non-ASCII characters and of
    malformed `\uXXXX` escapes;
  - for every base path, how many locales lack a bundle;
  - which message keys are missing from or superfluous in each non-root
    bundle compared with the root bundle.

  The report and fail switches decide which of these findings end the build.
- **`duplicateI18nResources`** (`DuplicateI18nResourcesMojo`) copies every
  `.properties` file whose locale suffix is the configured source locale,
  once per configured target locale, to the name that locale gives it under
  the output directory. It skips a target when the source directory already
  holds a file of that name.

Two shared pieces are modelled as well:

- `PropertiesLineReader` rebuilds the logical lines of a properties file
  from its physical lines. It skips comments and blank lines and joins
  lines continued with a trailing backslash.
- `ResourcesPluginUtilities.extractBaseResourceNameAndLocaleFromFileName`
  splits a file base name into resource name and locale suffix.

The mojos do not call the utility: both carry their own locale loop. That
loop peels off up to three two-character fragments and joins them with `-`
(validation) or `_` (duplication).

## Modules

| file | module | models |
|---|---|---|
| `wrappers.dfy` | `Wrappers` | `Option` and `Result`, for nulls and exceptions |
| `sums.dfy` | `Sums` | sums of map values: counters incremented while iterating hash maps |
| `java_strings.dfy` | `JavaStrings` | `lastIndexOf`, `split` with trailing empty strings dropped, `trim`, and `StringBuilder` as the class `TextBuilder` |
| `line_reader.dfy` | `LineReader` | the class `PropertiesLineReader` over a sequence of physical lines and a cursor |
| `name_parser.dfy` | `NameParser` | `extractBaseResourceNameAndLocaleFromFileName` |
| `locale_suffix.dfy` | `LocaleSuffix` | the path split and the peel loop shared by both mojos |
| `encoding_scan.dfy` | `EncodingScan` | the per-logical-line encoding scan |
| `bundle_index.dfy` | `BundleIndex` | `scanForPropertiesFiles` and its locale → base path → file index |
| `bundle_checks.dfy` | `BundleChecks` | `validateRequiredLocales`, `validateResourceBundleEncoding` and `loadBundlesForBasePath` |
| `key_consistency.dfy` | `KeyConsistency` | `validateResourceBundleConsistency` |
| `validate_mojo.dfy` | `ValidateMojo` | both `validateResourceBundles` overloads and `execute` |
| `duplicate_mojo.dfy` | `DuplicateMojo` | `checkResourceBundleAndDuplicateIfNecessary` and `execute` |

Some behaviour comes in through parameters rather than being computed:

- **Files.** The file system is a function from a file to either
  `Unreadable` or its physical lines plus the outcome of parsing it as a
  `PropertyResourceBundle`. That outcome is a key set, a malformed
  `\uxxxx` failure or another `IllegalArgumentException`.
- **Scanning.** A validation directory gives whether it exists and the
  relative paths the directory scanner includes.
- **Duplication.** The mojo receives the names to process, a predicate for
  "exists under the source directory", a predicate for "this copy fails",
  and the output directory. The output directory is a class whose map of
  written files the copies update in place.
- **Locales and exceptions.** A locale is its tag string, with `""` for
  the root locale. An exception that ends the build is a value of a
  `Failure` datatype.

Three behaviours of the code as written are stated by lemmas:

- **Short names crash the locale loop.** The loop throws on a name that is
  only a chain of at most three two-character fragments, such as `ab` or
  `ab_en`, because `substring(0, -1)` is reached. The utility instead
  reads `ab_en` as resource `ab` with locale `en`. The model returns
  `LocaleSuffixRejected` (`LocaleSuffix.PeelFailsIff`,
  `LocaleSuffix.PeelFailsOnTwoLetterResourceName`).
- **The loop ignores long variants.** `a_en_gb_sct` is read as a root
  bundle named `a_en_gb_sct` (`LocaleSuffix.PeelStopsAtVariant`).
- **The encoding scan can stop early.** It ends at the first `null` from
  the line reader. That `null` comes either at the end of the file or when
  a record is made of bare backslashes only. So a lone `\` followed by an
  empty line hides the rest of the file from the scan
  (`EncodingScan.BareBackslashHidesRestOfFile`).

## Model

Source paths are relative to the repository root.

| member | source | states |
|---|---|---|
| LineReader.PropertiesLineReader.constructor | i18n-resources-plugin/src/main/java/de/acosix/maven/i18n/PropertiesLineReader.java:34-37 | a new reader is positioned at the first physical line |
| LineReader.PropertiesLineReader.ReadLine | i18n-resources-plugin/src/main/java/de/acosix/maven/i18n/PropertiesLineReader.java:39-124 | returns the next logical line (or null) and the new position as `ReadLogical` defines them; while physical lines remain it consumes at least one, so lines are read strictly in order and never re-read |
| LineReader.StripLeadingWhitespace | i18n-resources-plugin/src/main/java/de/acosix/maven/i18n/PropertiesLineReader.java:55-72 | the character loop yields exactly `StripLeading`: the line without its leading space, tab and form-feed, empty for a whitespace-only line |
| LineReader.StripLeading | i18n-resources-plugin/src/main/java/de/acosix/maven/i18n/PropertiesLineReader.java:55-72 | the stripped line is never longer and never starts with space, tab or form-feed |
| LineReader.Classify | i18n-resources-plugin/src/main/java/de/acosix/maven/i18n/PropertiesLineReader.java:74-105 | a physical line is blank iff it is empty once stripped, and a comment iff no record is in progress and it starts with `#` or `!`; a continued line is its stripped text plus one final backslash; a final line is its stripped text, which does not end in a backslash |
| LineReader.Finish | i18n-resources-plugin/src/main/java/de/acosix/maven/i18n/PropertiesLineReader.java:109-116 | the result is null exactly when nothing was accumulated, and otherwise the accumulated text itself |
| LineReader.Scan | i18n-resources-plugin/src/main/java/de/acosix/maven/i18n/PropertiesLineReader.java:53-107 | the loop consumes at least one physical line when any remain, stays within the input, and never returns an empty line |
| LineReader.ScanAccumulates | i18n-resources-plugin/src/main/java/de/acosix/maven/i18n/PropertiesLineReader.java:95-105 | text gathered before a continuation is a prefix of the record: scanning on from text `t` gives `t` followed by what scanning from empty text gives, and ends at the same line |
| LineReader.ReadLogicalNoLeadingWhitespace | i18n-resources-plugin/src/main/java/de/acosix/maven/i18n/PropertiesLineReader.java:55-72 | a returned logical line never begins with space, tab or form-feed |
| LineReader.ReadLogicalSkipsBlankAndComment | i18n-resources-plugin/src/main/java/de/acosix/maven/i18n/PropertiesLineReader.java:74-93 | before a record starts, a blank or comment line is skipped: reading from it equals reading from the next line |
| LineReader.ReadLogicalContinues | i18n-resources-plugin/src/main/java/de/acosix/maven/i18n/PropertiesLineReader.java:95-100 | a line ending in a backslash contributes its text without that one character, and the following lines are appended with no separator |
| LineReader.ContinuationKeepsCommentLike | i18n-resources-plugin/src/main/java/de/acosix/maven/i18n/PropertiesLineReader.java:83-93 | during a continuation a line starting with `#` or `!` is content and completes the record |
| LineReader.ContinuationEndsAtEmptyLine | i18n-resources-plugin/src/main/java/de/acosix/maven/i18n/PropertiesLineReader.java:74-81 | after a continuation an empty line ends the record with the text gathered so far |
| LineReader.ExhaustedReturnsNull | i18n-resources-plugin/src/main/java/de/acosix/maven/i18n/PropertiesLineReader.java:53 | once the input is exhausted every further call returns null and stays at the end |
| LineReader.ScanNone | i18n-resources-plugin/src/main/java/de/acosix/maven/i18n/PropertiesLineReader.java:109-116 | a null result means every line consumed was blank, a comment or a bare backslash |
| LineReader.SampleFirstRecord | i18n-resources-plugin/src/test/java/de/acosix/maven/i18n/PropertiesLineReaderTests.java:44-45 | the first call on the sample file returns `firstKey=firstValue` |
| LineReader.SampleSecondRecord | i18n-resources-plugin/src/test/java/de/acosix/maven/i18n/PropertiesLineReaderTests.java:47-48 | the second call returns `secondKey=Value to be continued` |
| LineReader.SampleThirdRecord | i18n-resources-plugin/src/test/java/de/acosix/maven/i18n/PropertiesLineReaderTests.java:50-51 | the third call returns `thirdKey=Value with #comment line` |
| LineReader.SampleFourthRecord | i18n-resources-plugin/src/test/java/de/acosix/maven/i18n/PropertiesLineReaderTests.java:53-54 | the fourth call returns `fourthKey=Multiline value over three lines` |
| LineReader.SampleFifthRecord | i18n-resources-plugin/src/test/java/de/acosix/maven/i18n/PropertiesLineReaderTests.java:56-57 | the fifth call returns `fifthKey=Multiline value with empty lines in between` |
| LineReader.SampleEnd | i18n-resources-plugin/src/test/java/de/acosix/maven/i18n/PropertiesLineReaderTests.java:59-60 | the sixth call returns null |
| LineReader.SampleFileLogicalLines | i18n-resources-plugin/src/test/java/de/acosix/maven/i18n/PropertiesLineReaderTests.java:44-60 | reading the sample file to its end yields exactly the five expected logical lines |
| JavaStrings.LastIndexOf | i18n-resources-plugin/src/main/java/de/acosix/maven/i18n/ValidateI18nResourcesMojo.java:249 | the index of the last occurrence, or -1 iff the character does not occur |
| JavaStrings.Split | i18n-resources-plugin/src/main/java/de/acosix/maven/i18n/ResourcesPluginUtilities.java:52 | no fragment holds the separator; the last fragment is non-empty unless the input holds no separator; joined, the fragments are a prefix of the input followed only by separators (trailing empty strings dropped) |
| JavaStrings.SplitJoin | i18n-resources-plugin/src/main/java/de/acosix/maven/i18n/ResourcesPluginUtilities.java:52 | joining the fragments restores an input that does not end in the separator |
| JavaStrings.SplitJoinWith | i18n-resources-plugin/src/main/java/de/acosix/maven/i18n/ResourcesPluginUtilities.java:52 | splitting a join of separator-free fragments whose last one is non-empty gives back those fragments |
| JavaStrings.RawSplitJoinWith | i18n-resources-plugin/src/main/java/de/acosix/maven/i18n/ResourcesPluginUtilities.java:52 | splitting without dropping empties inverts joining for any separator-free fragments |
| JavaStrings.Trim | i18n-resources-plugin/src/main/java/de/acosix/maven/i18n/DuplicateI18nResourcesMojo.java:161 | the trimmed text is empty iff every character is at most a space; otherwise it neither starts nor ends with one |
| JavaStrings.TextBuilder.Append | i18n-resources-plugin/src/main/java/de/acosix/maven/i18n/ResourcesPluginUtilities.java:77 | appending keeps the prior contents as a prefix and adds exactly the given text |
| NameParser.LocaleStart | i18n-resources-plugin/src/main/java/de/acosix/maven/i18n/ResourcesPluginUtilities.java:55-69 | the start is -1 exactly when no position after fragment 0 begins an accepted locale suffix (two two-letter codes and a variant, two two-letter codes, or one two-letter code, reaching the end); otherwise it begins one, and no earlier position does, so three fragments are preferred to two and two to one |
| NameParser.ExtractNameAndLocale | i18n-resources-plugin/src/main/java/de/acosix/maven/i18n/ResourcesPluginUtilities.java:71-96 | without a locale the resource name is the input; with one, name, `_` and locale fit in the input |
| NameParser.ExtractRoundTrip | i18n-resources-plugin/src/main/java/de/acosix/maven/i18n/ResourcesPluginUtilities.java:71-96 | resource + `_` + locale is a prefix of the input followed only by `_`, and equals the input when it does not end in `_` |
| NameParser.ExtractLocaleShape | i18n-resources-plugin/src/main/java/de/acosix/maven/i18n/ResourcesPluginUtilities.java:26-69 | a non-empty locale is 1 to 3 `_`-joined codes of two ASCII letters, except that the last of three is one or more letters |
| NameParser.ExtractFindsTwoLetterSuffix | i18n-resources-plugin/src/main/java/de/acosix/maven/i18n/ResourcesPluginUtilities.java:66-69 | a last fragment that is a two-letter code after at least one other fragment always yields a locale; a single fragment never does |
| NameParser.ExtractFromFragments | i18n-resources-plugin/src/main/java/de/acosix/maven/i18n/ResourcesPluginUtilities.java:71-91 | the resource name is the fragments before the locale start joined with `_`, and the locale is the rest joined with `_` |
| NameParser.ExtractNameThenLocale | i18n-resources-plugin/src/main/java/de/acosix/maven/i18n/ResourcesPluginUtilities.java:55-91 | a name built from resource fragments and locale fragments whose locale start falls between them is taken apart into exactly those two parts |
| NameParser.ExtractBaseResourceNameAndLocaleFromFileName | i18n-resources-plugin/src/main/java/de/acosix/maven/i18n/ResourcesPluginUtilities.java:49-97 | the resource-name builder gets exactly the resource name appended and the locale builder exactly the locale, their prior contents kept as prefixes (name then locale when both are one builder) |
| NameParser.AppendFragments | i18n-resources-plugin/src/main/java/de/acosix/maven/i18n/ResourcesPluginUtilities.java:73-91 | the loop appends the fragments before the locale start, joined with `_`, to the resource-name builder and the remaining ones to the locale builder |
| NameParser.AppendSeparated | i18n-resources-plugin/src/main/java/de/acosix/maven/i18n/ResourcesPluginUtilities.java:81 | appends `_` and then the fragment |
| NameParser.ExtractSampleA | i18n-resources-plugin/src/test/java/de/acosix/maven/i18n/ResourcesPluginUtilitiesTests.java:36-42 | `a` gives (`a`, ``) |
| NameParser.ExtractSampleAEn | i18n-resources-plugin/src/test/java/de/acosix/maven/i18n/ResourcesPluginUtilitiesTests.java:47-53 | `a_en` gives (`a`, `en`) |
| NameParser.ExtractSampleAEnGb | i18n-resources-plugin/src/test/java/de/acosix/maven/i18n/ResourcesPluginUtilitiesTests.java:58-64 | `a_en_gb` gives (`a`, `en_gb`) |
| NameParser.ExtractSampleAEnGbSct | i18n-resources-plugin/src/test/java/de/acosix/maven/i18n/ResourcesPluginUtilitiesTests.java:69-75 | `a_en_gb_sct` gives (`a`, `en_gb_sct`) |
| NameParser.ExtractSampleABcEnGbSct | i18n-resources-plugin/src/test/java/de/acosix/maven/i18n/ResourcesPluginUtilitiesTests.java:80-86 | `a_bc_en_gb_sct` gives (`a_bc`, `en_gb_sct`) |
| NameParser.ExtractSampleABcENGbSCt | i18n-resources-plugin/src/test/java/de/acosix/maven/i18n/ResourcesPluginUtilitiesTests.java:91-97 | `a_bc_eN_Gb_sCt` gives (`a_bc`, `eN_Gb_sCt`): case is kept |
| NameParser.ExtractSampleAb | i18n-resources-plugin/src/test/java/de/acosix/maven/i18n/ResourcesPluginUtilitiesTests.java:102-108 | `ab` gives (`ab`, ``) |
| NameParser.ExtractSampleAbEn | i18n-resources-plugin/src/test/java/de/acosix/maven/i18n/ResourcesPluginUtilitiesTests.java:113-119 | `ab_en` gives (`ab`, `en`) |
| NameParser.ExtractSampleAbEnGb | i18n-resources-plugin/src/test/java/de/acosix/maven/i18n/ResourcesPluginUtilitiesTests.java:124-130 | `ab_en_gb` gives (`ab`, `en_gb`) |
| NameParser.ExtractSampleAbEnGbSct | i18n-resources-plugin/src/test/java/de/acosix/maven/i18n/ResourcesPluginUtilitiesTests.java:135-141 | `ab_en_gb_sct` gives (`ab`, `en_gb_sct`) |
| NameParser.ExtractSampleAbCdEnGbSct | i18n-resources-plugin/src/test/java/de/acosix/maven/i18n/ResourcesPluginUtilitiesTests.java:146-152 | `ab_cd_en_gb_sct` gives (`ab_cd`, `en_gb_sct`) |
| NameParser.ExtractSampleAbCdENGbSCt | i18n-resources-plugin/src/test/java/de/acosix/maven/i18n/ResourcesPluginUtilitiesTests.java:157-163 | `ab_cd_eN_Gb_sCt` gives (`ab_cd`, `eN_Gb_sCt`) |
| LocaleSuffix.SplitPropertiesPath | i18n-resources-plugin/src/main/java/de/acosix/maven/i18n/ValidateI18nResourcesMojo.java:240-245 | directory part + file base name + `.properties` is the path; the directory part is empty or ends in `/`, and the base name holds no `/` |
| LocaleSuffix.SplitTopLevelFile | i18n-resources-plugin/src/main/java/de/acosix/maven/i18n/ValidateI18nResourcesMojo.java:240-245 | a path without `/` (a file at the top of the scanned directory) has an empty directory part and is its own base name plus `.properties` |
| LocaleSuffix.Peel | i18n-resources-plugin/src/main/java/de/acosix/maven/i18n/ValidateI18nResourcesMojo.java:249-258 | at most the budget of fragments is peeled off |
| LocaleSuffix.PeelLocaleSuffix | i18n-resources-plugin/src/main/java/de/acosix/maven/i18n/ValidateI18nResourcesMojo.java:247-258 | the while loop (also at DuplicateI18nResourcesMojo.java:143-154, there joined with `_`) ends with the resource name and locale that `PeelLocale` gives, or fails exactly where `PeelLocale` is None |
| LocaleSuffix.PeelRoundTrip | i18n-resources-plugin/src/main/java/de/acosix/maven/i18n/ValidateI18nResourcesMojo.java:249-259 | the remaining resource name followed by `_` and the peeled fragments joined with `_` is the original name; with nothing peeled it is the name itself |
| LocaleSuffix.PeelFragmentShape | i18n-resources-plugin/src/main/java/de/acosix/maven/i18n/ValidateI18nResourcesMojo.java:251 | every peeled fragment is two characters without `_`; digits are accepted |
| LocaleSuffix.PeelStopsAtLastFragment | i18n-resources-plugin/src/main/java/de/acosix/maven/i18n/ValidateI18nResourcesMojo.java:249 | when fewer fragments than the budget were peeled, the remaining name does not end in `_` plus two characters |
| LocaleSuffix.PeelFailsIff | i18n-resources-plugin/src/main/java/de/acosix/maven/i18n/ValidateI18nResourcesMojo.java:249-252 | the loop throws exactly on names that are a chain of at most the budget of two-character fragments (`ab`, `ab_en`, `ab_en_gb`) |
| LocaleSuffix.PeelFailsOnTwoLetterResourceName | i18n-resources-plugin/src/main/java/de/acosix/maven/i18n/ValidateI18nResourcesMojo.java:252 | `ab_en` and `ab` make the loop throw |
| LocaleSuffix.PeelStopsAtVariant | i18n-resources-plugin/src/main/java/de/acosix/maven/i18n/ValidateI18nResourcesMojo.java:249 | `a_en_gb_sct` is a root bundle named `a_en_gb_sct`: a longer variant is never recognised |
| LocaleSuffix.PeelLanguageAndCountry | i18n-resources-plugin/src/main/java/de/acosix/maven/i18n/ValidateI18nResourcesMojo.java:253-257 | a resource name not itself ending in a fragment, followed by a language and a country fragment, keeps its name, and the two fragments are joined with the joiner: `messages_de_ch` gives `messages` with `de-ch` (validation) or `de_ch` (duplication) |
| EncodingScan.NonAsciiMatches | i18n-resources-plugin/src/main/java/de/acosix/maven/i18n/ValidateI18nResourcesMojo.java:424-440 | every match is a character outside 0x00-0x7F, each such character of the line is matched exactly as often as it occurs, no ASCII character is matched, and there is no match iff the line has none |
| EncodingScan.EscapeMatchStarts | i18n-resources-plugin/src/main/java/de/acosix/maven/i18n/ValidateI18nResourcesMojo.java:442-443 | the positions `find` reports are matches of the escape pattern at or after the search start, any two are at least six apart (matches never overlap), and every match position at or after the start is reported or lies inside a reported match |
| EncodingScan.EscapeMatchStartsUnique | i18n-resources-plugin/src/main/java/de/acosix/maven/i18n/ValidateI18nResourcesMojo.java:442-443 | those three properties single out the reported positions: any sequence of positions that has them is the one the search reports |
| EncodingScan.InvalidEscapes | i18n-resources-plugin/src/main/java/de/acosix/maven/i18n/ValidateI18nResourcesMojo.java:442-458 | one match per reported position, in order: the six characters there, each `\u` and four characters that are not all hex digits |
| EncodingScan.InvalidEscapesEmptyIff | i18n-resources-plugin/src/main/java/de/acosix/maven/i18n/ValidateI18nResourcesMojo.java:403 | the left-to-right scan finds no match iff no position of the line starts an invalid escape |
| EncodingScan.LineIssues | i18n-resources-plugin/src/main/java/de/acosix/maven/i18n/ValidateI18nResourcesMojo.java:424-458 | one issue per non-ASCII character and per invalid escape, each carrying the line's number |
| EncodingScan.LineIssuesEmptyIff | i18n-resources-plugin/src/main/java/de/acosix/maven/i18n/ValidateI18nResourcesMojo.java:424-458 | a logical line has no issue iff it is all ASCII and holds no invalid escape |
| EncodingScan.IssuesOf | i18n-resources-plugin/src/main/java/de/acosix/maven/i18n/ValidateI18nResourcesMojo.java:418-422 | every issue carries a line number between 1 and the number of logical lines |
| EncodingScan.IssuesOfNumbering | i18n-resources-plugin/src/main/java/de/acosix/maven/i18n/ValidateI18nResourcesMojo.java:418-422 | logical lines are numbered from 1 within each file: the issues numbered `j + 1` are exactly those of the logical line at index `j`, in that line's order |
| EncodingScan.IssuesOfEmptyIff | i18n-resources-plugin/src/main/java/de/acosix/maven/i18n/ValidateI18nResourcesMojo.java:420-458 | the logical lines yield no issue iff each of them is clean |
| EncodingScan.ScanFileEncoding | i18n-resources-plugin/src/main/java/de/acosix/maven/i18n/ValidateI18nResourcesMojo.java:414-459 | the read loop reports exactly the issues of the logical lines the reader delivers, in order |
| EncodingScan.ScanLogicalLine | i18n-resources-plugin/src/main/java/de/acosix/maven/i18n/ValidateI18nResourcesMojo.java:424-458 | the two matcher loops report exactly the line's issues: non-ASCII characters first, then invalid escapes |
| EncodingScan.ReportNonAscii | i18n-resources-plugin/src/main/java/de/acosix/maven/i18n/ValidateI18nResourcesMojo.java:425-440 | the first `find` loop reports one non-ASCII issue per match, in match order |
| EncodingScan.ReportInvalidEscapes | i18n-resources-plugin/src/main/java/de/acosix/maven/i18n/ValidateI18nResourcesMojo.java:443-458 | the second `find` loop appends one invalid-escape issue per match, in match order, after the issues already reported |
| EncodingScan.FileIssuesEmptyIff | i18n-resources-plugin/src/main/java/de/acosix/maven/i18n/ValidateI18nResourcesMojo.java:414-459 | a file has no issue iff every logical line read from it is clean |
| EncodingScan.BareBackslashHidesRestOfFile | i18n-resources-plugin/src/main/java/de/acosix/maven/i18n/ValidateI18nResourcesMojo.java:420 | a file starting with a lone backslash and an empty line reports no issue, whatever follows |
| BundleIndex.EffectiveDirectories | i18n-resources-plugin/src/main/java/de/acosix/maven/i18n/ValidateI18nResourcesMojo.java:220-227 | the configured directories when there are any, otherwise the default one |
| BundleIndex.Upsert | i18n-resources-plugin/src/main/java/de/acosix/maven/i18n/ValidateI18nResourcesMojo.java:271-277 | adds the locale if new and records the file for the base path, replacing an earlier one; every other entry is unchanged |
| BundleIndex.ScanForPropertiesFiles | i18n-resources-plugin/src/main/java/de/acosix/maven/i18n/ValidateI18nResourcesMojo.java:199-284 | the scan loop builds the index `IndexDirectories` defines over the effective directories, or fails where the locale loop throws |
| BundleIndex.IndexDirectoryFiles | i18n-resources-plugin/src/main/java/de/acosix/maven/i18n/ValidateI18nResourcesMojo.java:236-279 | the loop over one directory's included files records each `.properties` file under its own locale and base path |
| BundleIndex.UpsertSound | i18n-resources-plugin/src/main/java/de/acosix/maven/i18n/ValidateI18nResourcesMojo.java:259-277 | recording a file under its own key keeps every entry of the index a `.properties` file whose name yields that entry's locale and base path |
| BundleIndex.IndexFilesSound | i18n-resources-plugin/src/main/java/de/acosix/maven/i18n/ValidateI18nResourcesMojo.java:236-279 | after a directory every entry is a `.properties` file whose name yields its locale and base path, and no locale has an empty map |
| BundleIndex.IndexDirectoriesSound | i18n-resources-plugin/src/main/java/de/acosix/maven/i18n/ValidateI18nResourcesMojo.java:229-281 | the same holds after all directories |
| BundleIndex.IndexFilesGrows | i18n-resources-plugin/src/main/java/de/acosix/maven/i18n/ValidateI18nResourcesMojo.java:271-277 | indexing never removes a (locale, base path) entry |
| BundleIndex.IndexFilesLastWins | i18n-resources-plugin/src/main/java/de/acosix/maven/i18n/ValidateI18nResourcesMojo.java:277 | within a directory, the last `.properties` file for a key is the one recorded |
| BundleIndex.KeepsEntry | i18n-resources-plugin/src/main/java/de/acosix/maven/i18n/ValidateI18nResourcesMojo.java:271-277 | an entry no later file maps to is kept as it was |
| BundleIndex.LastDirectoryWins | i18n-resources-plugin/src/main/java/de/acosix/maven/i18n/ValidateI18nResourcesMojo.java:229-277 | a later validation directory overwrites an earlier directory's entry for the same (locale, base path) |
| BundleChecks.RequiredLocales | i18n-resources-plugin/src/main/java/de/acosix/maven/i18n/ValidateI18nResourcesMojo.java:290-298 | root first, then the configured locales in order |
| BundleChecks.ValidateRequiredLocales | i18n-resources-plugin/src/main/java/de/acosix/maven/i18n/ValidateI18nResourcesMojo.java:316-361 | passes iff no locale to validate lacks files altogether or lacks a file for some base path of the whole index |
| BundleChecks.RequiredPassMeansComplete | i18n-resources-plugin/src/main/java/de/acosix/maven/i18n/ValidateI18nResourcesMojo.java:290-299 | after the required-locale check, root and every configured locale have a file for every base path |
| BundleChecks.ValidateResourceBundleEncoding | i18n-resources-plugin/src/main/java/de/acosix/maven/i18n/ValidateI18nResourcesMojo.java:398-467 | succeeds iff every file of every locale can be read, with the sum of their issue counts; otherwise fails naming an unreadable file of the index |
| BundleChecks.ValidateLocaleEncoding | i18n-resources-plugin/src/main/java/de/acosix/maven/i18n/ValidateI18nResourcesMojo.java:407-465 | the same for the files of one locale |
| BundleChecks.IssueCountZeroIff | i18n-resources-plugin/src/main/java/de/acosix/maven/i18n/ValidateI18nResourcesMojo.java:379 | the encoding counter is 0 iff every file of the index is clean |
| BundleChecks.LoadBundlesForBasePath | i18n-resources-plugin/src/main/java/de/acosix/maven/i18n/ValidateI18nResourcesMojo.java:534-587 | fails iff some locale's file for the base path is unreadable or hits another IllegalArgumentException, naming that file with the matching kind; otherwise returns the key sets of the loaded bundles and counts one missing bundle per locale without a file |
| BundleChecks.MissingLocalesEmptyIff | i18n-resources-plugin/src/main/java/de/acosix/maven/i18n/ValidateI18nResourcesMojo.java:570-572 | no missing bundle is counted iff every locale has a file for the base path |
| BundleChecks.LoadedBundlesDomain | i18n-resources-plugin/src/main/java/de/acosix/maven/i18n/ValidateI18nResourcesMojo.java:540-569 | a locale is loaded iff it has a file for the base path that is not silently dropped for a malformed `\uxxxx` |
| KeyConsistency.KeysUnion | i18n-resources-plugin/src/main/java/de/acosix/maven/i18n/ValidateI18nResourcesMojo.java:473-477 | a key is in the union iff some bundle holds it |
| KeyConsistency.LocalesByKey | i18n-resources-plugin/src/main/java/de/acosix/maven/i18n/ValidateI18nResourcesMojo.java:494-503 | locale `l` is listed under key `k` iff `l`'s key set holds `k` |
| KeyConsistency.ValidateResourceBundleConsistency | i18n-resources-plugin/src/main/java/de/acosix/maven/i18n/ValidateI18nResourcesMojo.java:469-532 | fails (the null root bundle) iff no root bundle was loaded; otherwise reports, for every non-root bundle, root keys − its keys as missing and its keys − root keys as superfluous, per key |
| KeyConsistency.RecordLocale | i18n-resources-plugin/src/main/java/de/acosix/maven/i18n/ValidateI18nResourcesMojo.java:494-503 | the loop over one locale's keys adds that locale to each key's list, creating the list when absent |
| KeyConsistency.LocalesByKeyAdd | i18n-resources-plugin/src/main/java/de/acosix/maven/i18n/ValidateI18nResourcesMojo.java:484-519 | adding one locale to the per-key lists equals indexing the enlarged map of key sets |
| KeyConsistency.LocalesByKeyEmptyIff | i18n-resources-plugin/src/main/java/de/acosix/maven/i18n/ValidateI18nResourcesMojo.java:521-531 | no key is listed iff every key set is empty |
| KeyConsistency.NoDifferencesIff | i18n-resources-plugin/src/main/java/de/acosix/maven/i18n/ValidateI18nResourcesMojo.java:491-506 | both set differences are empty for every bundle iff every bundle has the root's key set |
| KeyConsistency.ReportCountZeroIff | i18n-resources-plugin/src/main/java/de/acosix/maven/i18n/ValidateI18nResourcesMojo.java:521-531 | the counter grows by 0 iff every loaded bundle has the root's key set |
| KeyConsistency.ReportEntries | i18n-resources-plugin/src/main/java/de/acosix/maven/i18n/ValidateI18nResourcesMojo.java:484-519 | locale `l` is listed under missing key `k` iff `l` is a non-root bundle lacking a root key `k`, and under superfluous key `k` iff it holds a `k` the root lacks |
| ValidateMojo.ValidateBundleContents | i18n-resources-plugin/src/main/java/de/acosix/maven/i18n/ValidateI18nResourcesMojo.java:363-396 | the second overload: encoding check first when enabled (an unreadable file aborts; issues fail when failing is on), then the base-path loop |
| ValidateMojo.ValidateBasePaths | i18n-resources-plugin/src/main/java/de/acosix/maven/i18n/ValidateI18nResourcesMojo.java:385-395 | the loop aborts iff some base path aborts; otherwise both counters are the sums over all base paths |
| ValidateMojo.ValidateBasePath | i18n-resources-plugin/src/main/java/de/acosix/maven/i18n/ValidateI18nResourcesMojo.java:388-394 | one base path adds its missing bundles and, when consistency is enabled, its inconsistent keys; it aborts on a load failure or a missing root bundle |
| ValidateMojo.BasePathsOutcomeAborted | i18n-resources-plugin/src/main/java/de/acosix/maven/i18n/ValidateI18nResourcesMojo.java:385-395 | one aborting base path aborts the whole validation |
| ValidateMojo.ValidateResourceBundles | i18n-resources-plugin/src/main/java/de/acosix/maven/i18n/ValidateI18nResourcesMojo.java:286-314 | the first overload: required locales, then the bundle validation, then the missing-bundle fail switch before the inconsistent-key one |
| ValidateMojo.CollectBasePaths | i18n-resources-plugin/src/main/java/de/acosix/maven/i18n/ValidateI18nResourcesMojo.java:177-182 | the set of base paths of every locale |
| ValidateMojo.Execute | i18n-resources-plugin/src/main/java/de/acosix/maven/i18n/ValidateI18nResourcesMojo.java:170-197 | skipped when `skip`; nothing validated without base paths; otherwise the validation's outcome |
| ValidateMojo.PassingMeansRequiredLocalesComplete | i18n-resources-plugin/src/main/java/de/acosix/maven/i18n/ValidateI18nResourcesMojo.java:299 | a passing validation has root and every required locale covering every base path |
| ValidateMojo.PassingMeansCleanEncoding | i18n-resources-plugin/src/main/java/de/acosix/maven/i18n/ValidateI18nResourcesMojo.java:374-383 | with failing on encoding issues, a passing validation means every file is readable and clean |
| ValidateMojo.PassingMeansNoMissingBundles | i18n-resources-plugin/src/main/java/de/acosix/maven/i18n/ValidateI18nResourcesMojo.java:306-309 | with failing on missing bundles, a passing validation means every locale has a file for every base path |
| ValidateMojo.PassingMeansConsistentKeys | i18n-resources-plugin/src/main/java/de/acosix/maven/i18n/ValidateI18nResourcesMojo.java:310-313 | with failing on inconsistent keys, a passing validation means every base path has a root bundle and every loaded bundle has its keys |
| ValidateMojo.MissingTotalZeroIff | i18n-resources-plugin/src/main/java/de/acosix/maven/i18n/ValidateI18nResourcesMojo.java:570-572 | the missing-bundle counter is 0 iff every locale has a file for every base path |
| ValidateMojo.InconsistencyTotalZeroIff | i18n-resources-plugin/src/main/java/de/acosix/maven/i18n/ValidateI18nResourcesMojo.java:521-531 | the inconsistent-key counter is 0 iff every base path's bundles all have the root's key set |
| ValidateMojo.MalformedRootFileAborts | i18n-resources-plugin/src/main/java/de/acosix/maven/i18n/ValidateI18nResourcesMojo.java:472 | a root file dropped for a malformed `\uxxxx` aborts the consistency check once the earlier checks pass |
| ValidateMojo.FailureOrder | i18n-resources-plugin/src/main/java/de/acosix/maven/i18n/ValidateI18nResourcesMojo.java:299-383 | a required-locale failure comes before everything, and encoding issues (when failing on them) come before any bundle is loaded |
| DuplicateMojo.OutputDirectory.CopyFile | i18n-resources-plugin/src/main/java/de/acosix/maven/i18n/DuplicateI18nResourcesMojo.java:171-180 | a successful copy records the source file under the target path; a failed one changes nothing |
| DuplicateMojo.Execute | i18n-resources-plugin/src/main/java/de/acosix/maven/i18n/DuplicateI18nResourcesMojo.java:108-132 | the output directory and failure are those `ExecuteOutcome` gives: nothing when skipped, otherwise each `.properties` name processed in order until the first failure |
| DuplicateMojo.CheckResourceBundleAndDuplicateIfNecessary | i18n-resources-plugin/src/main/java/de/acosix/maven/i18n/DuplicateI18nResourcesMojo.java:134-184 | the output directory and failure are those `Process` gives for one file |
| DuplicateMojo.ProcessAllPassesOver | i18n-resources-plugin/src/main/java/de/acosix/maven/i18n/DuplicateI18nResourcesMojo.java:156-158 | a run over names that are all passed over (not `.properties`, or in a locale other than the source locale) leaves the run state as it was: nothing is written to the output directory and no failure is recorded |
| DuplicateMojo.CopiesForMembers | i18n-resources-plugin/src/main/java/de/acosix/maven/i18n/DuplicateI18nResourcesMojo.java:159-182 | a copy is planned iff it is from the file to the target path of some target locale that the source directory does not hold |
| DuplicateMojo.DuplicatesMeaning | i18n-resources-plugin/src/main/java/de/acosix/maven/i18n/DuplicateI18nResourcesMojo.java:156-182 | a file is copied only when the source locale is unset and its locale empty, or equal (case-sensitively) to its locale, and then exactly to the absent target paths |
| DuplicateMojo.DuplicatesFailsIff | i18n-resources-plugin/src/main/java/de/acosix/maven/i18n/DuplicateI18nResourcesMojo.java:143-154 | the file fails iff its base name is a chain of at most three two-character fragments |
| DuplicateMojo.SplitPropertiesPathUnique | i18n-resources-plugin/src/main/java/de/acosix/maven/i18n/DuplicateI18nResourcesMojo.java:136-141 | a directory part (empty or ending in `/`) and a slash-free base name are recovered exactly from their path |
| DuplicateMojo.TargetStaysInDirectory | i18n-resources-plugin/src/main/java/de/acosix/maven/i18n/DuplicateI18nResourcesMojo.java:161-165 | a target path has the source file's directory part and the target resource name as base name |
| DuplicateMojo.CopyReadsBackInTargetLocale | i18n-resources-plugin/src/main/java/de/acosix/maven/i18n/DuplicateI18nResourcesMojo.java:159-165 | when the source has fewer than three locale fragments and the target locale is one to three two-character fragments, the copy's name reads back as the same resource in the target locale |
| DuplicateMojo.DeepResourceNameReadsBackDifferently | i18n-resources-plugin/src/main/java/de/acosix/maven/i18n/DuplicateI18nResourcesMojo.java:143-165 | with three source fragments the copy does not read back: `x_aa_bb_cc_dd` copied for `fr` is `x_aa_fr`, read as resource `x` with locale `aa_fr` |
| DuplicateMojo.BlankTargetNamesTheFileItself | i18n-resources-plugin/src/main/java/de/acosix/maven/i18n/DuplicateI18nResourcesMojo.java:161-165 | a blank target locale for a root file names the file itself, which the source directory holds |
| DuplicateMojo.PropertiesFileNames | i18n-resources-plugin/src/main/java/de/acosix/maven/i18n/DuplicateI18nResourcesMojo.java:117 | only names ending in `.properties` are kept |
| DuplicateMojo.ProcessAllIgnoresOtherNames | i18n-resources-plugin/src/main/java/de/acosix/maven/i18n/DuplicateI18nResourcesMojo.java:115-121 | processing all names equals processing only the `.properties` names |
| DuplicateMojo.ProcessAllEnded | i18n-resources-plugin/src/main/java/de/acosix/maven/i18n/DuplicateI18nResourcesMojo.java:115-121 | after a failure the remaining names change nothing |
| DuplicateMojo.AttemptAllEnded | i18n-resources-plugin/src/main/java/de/acosix/maven/i18n/DuplicateI18nResourcesMojo.java:173-180 | after a failed copy the remaining copies are not attempted |
| DuplicateMojo.ProcessAllOnlyCopies | i18n-resources-plugin/src/main/java/de/acosix/maven/i18n/DuplicateI18nResourcesMojo.java:167-181 | every output entry a run writes is a `.properties` path the source directory does not hold, copied from one of the processed names |

## Left out

- `Locale.forLanguageTag` and `Locale.toString`: a locale is its tag string,
  `""` being root. So tags that the JDK normalises to one locale (`en-GB`
  and `en-gb`) are different keys here, and configured required locales are
  compared as written.
- `DirectoryScanner` include and exclude matching, default excludes and
  `getPropertyFileNamesToProcess`: the included relative paths, and the
  names to duplicate, are inputs.
- File access: `File.exists`, `mkdirs`, `FileUtils.copyFile`, streams and
  readers. Existence, readability and copy failure are parameters.
- ISO-8859-1 and UTF-8 decoding and `BufferedReader` line splitting: a
  file's content is its sequence of physical lines.
- `PropertyResourceBundle` parsing and escape decoding: a file's parse
  outcome is a parameter (key set, malformed `\uxxxx`, other error).
- Log messages, locale labels, `reportMissingLocaleBundles` (it only
  chooses the log level), and the order and wording of inconsistency
  messages.
- Iteration order of `HashMap`, `HashSet` and `TreeSet`: counters are sums
  over sets. Which of several aborting exceptions comes first depends on that
  order, so every abort of the bundle validation is `ValidationAborted`.
- `AtomicInteger`: plain counters; there is no concurrency.
- `MessageFormat.format("{0}_{1}", …)`: plain concatenation, as it is for
  string arguments.
- The `endReached` field of `PropertiesLineReader`: it is constant false,
  so its else-branch (PropertiesLineReader.java:118-121) cannot run.
- The test resource `test-file.properties` is not part of this model: the
  sample lemmas take a 17-line file consistent with the five values the test
  asserts.
- A null `copyForLocales` (a `NullPointerException` in the source): the
  target locales are a sequence.
- `JSHintMojo` and the rest of the jshint plugin: a separate plugin.
- LineReader.PropertiesLineReader.ReadLine: the cursor moves once after the
  loop rather than with every physical line read. The lines consumed and the
  final position are the same.
- BundleChecks.ValidateResourceBundleEncoding: on failure it names some
  unreadable file of the index, not the one the hash order would reach
  first.
- BundleChecks.LoadBundlesForBasePath: on failure the missing-bundle count
  is not stated, because the validation ends there.
- ValidateMojo.ValidateBasePaths: it reports only that some base path
  aborted, not which exception was raised first.
