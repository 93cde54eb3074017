/**
 * The plugin's shared utility for splitting a file base name (the name
 * without `.properties`) into a base resource name and a locale suffix of
 * at most three `_`-separated fragments.
 */
module NameParser {
  import opened JavaStrings

  /** An ASCII letter, as matched by the character class `[a-zA-Z]`. */
  predicate IsAsciiLetter(c: char) {
    ('a' <= c <= 'z') || ('A' <= c <= 'Z')
  }

  /** `^[a-zA-Z]+$`: one or more ASCII letters and nothing else. */
  predicate IsVariantCode(s: string) {
    |s| > 0 && forall k :: 0 <= k < |s| ==> IsAsciiLetter(s[k])
  }

  /** `^[a-zA-Z]{2}$`: exactly two ASCII letters. */
  predicate IsTwoLetterCode(s: string) {
    |s| == 2 && IsAsciiLetter(s[0]) && IsAsciiLetter(s[1])
  }

  /**
   * The fragments from index `s` on form one of the three accepted locale
   * shapes, with at least one fragment left before them: two two-letter
   * codes and a variant, two two-letter codes, or one two-letter code.
   */
  predicate IsLocaleSuffix(fragments: seq<string>, s: int) {
    1 <= s < |fragments|
    && ((|fragments| - s == 3 && IsTwoLetterCode(fragments[s]) && IsTwoLetterCode(fragments[s + 1])
         && IsVariantCode(fragments[s + 2]))
        || (|fragments| - s == 2 && IsTwoLetterCode(fragments[s]) && IsTwoLetterCode(fragments[s + 1]))
        || (|fragments| - s == 1 && IsTwoLetterCode(fragments[s])))
  }

  /**
   * The index of the first locale fragment, or -1 when the name carries no
   * locale: three trailing fragments (two two-letter codes and a variant)
   * are tried first, then two two-letter codes, then one, so the longest
   * accepted suffix wins.
   */
  function LocaleStart(fragments: seq<string>): (start: int)
    ensures start == -1 || 1 <= start < |fragments|
    ensures start != -1 ==> IsLocaleSuffix(fragments, start)
    ensures start != -1 ==> forall s :: 1 <= s < start ==> !IsLocaleSuffix(fragments, s)
    ensures start == -1 <==> forall s :: 1 <= s < |fragments| ==> !IsLocaleSuffix(fragments, s)
    ensures start != -1 ==> |fragments| - start <= 3
    ensures start != -1 ==> IsVariantCode(fragments[|fragments| - 1])
    ensures start != -1 ==> forall k :: start <= k < |fragments| - 1 ==> IsTwoLetterCode(fragments[k])
    ensures start != -1 && |fragments| - start < 3 ==> IsTwoLetterCode(fragments[|fragments| - 1])
    ensures start == -1 ==> |fragments| <= 1 || !IsTwoLetterCode(fragments[|fragments| - 1])
  {
    var count := |fragments|;
    LocaleSuffixPositions(fragments);
    if count > 3 && IsVariantCode(fragments[count - 1]) && IsTwoLetterCode(fragments[count - 2])
       && IsTwoLetterCode(fragments[count - 3]) then
      count - 3
    else if count > 2 && IsTwoLetterCode(fragments[count - 1]) && IsTwoLetterCode(fragments[count - 2]) then
      count - 2
    else if count > 1 && IsTwoLetterCode(fragments[count - 1]) then
      count - 1
    else
      -1
  }

  /** An accepted suffix starts one, two or three fragments before the end, under the tests the search makes there. */
  lemma LocaleSuffixPositions(fragments: seq<string>)
    ensures var count := |fragments|;
            IsLocaleSuffix(fragments, count - 3)
            <==> count > 3 && IsVariantCode(fragments[count - 1]) && IsTwoLetterCode(fragments[count - 2])
                 && IsTwoLetterCode(fragments[count - 3])
    ensures var count := |fragments|;
            IsLocaleSuffix(fragments, count - 2)
            <==> count > 2 && IsTwoLetterCode(fragments[count - 1]) && IsTwoLetterCode(fragments[count - 2])
    ensures var count := |fragments|;
            IsLocaleSuffix(fragments, count - 1) <==> count > 1 && IsTwoLetterCode(fragments[count - 1])
    ensures forall s :: IsLocaleSuffix(fragments, s) ==> |fragments| - 3 <= s
  {
  }

  /** What the two string builders receive: the base resource name and the locale suffix. */
  datatype NameAndLocale = NameAndLocale(resourceName: string, locale: string)

  /**
   * The base resource name and locale suffix of a file base name: the
   * fragments before the locale start joined with `_`, and the locale
   * fragments joined with `_`; without a locale the whole name and "".
   */
  function ExtractNameAndLocale(fileBaseName: string): (r: NameAndLocale)
    ensures r.locale == "" ==> r.resourceName == fileBaseName
    ensures r.locale != "" ==> |r.resourceName| + 1 + |r.locale| <= |fileBaseName|
  {
    var fragments := Split(fileBaseName, '_');
    var start := LocaleStart(fragments);
    if start == -1 then NameAndLocale(fileBaseName, "")
    else
      var name := JoinWith(fragments[..start], '_');
      var locale := JoinWith(fragments[start..], '_');
      JoinWithSplitAt(fragments, start, '_');
      JoinWithLast(fragments[start..], '_');
      NameAndLocale(name, locale)
  }

  /** A join ends with its last fragment. */
  lemma JoinWithLast(fragments: seq<string>, sep: char)
    requires |fragments| > 0
    ensures |fragments[|fragments| - 1]| <= |JoinWith(fragments, sep)|
  {
  }

  /**
   * Round trip: when a locale is found, resource name, `_` and locale
   * rebuild the file base name up to trailing underscores (which
   * `String.split` drops), and exactly when the name does not end in `_`.
   */
  lemma ExtractRoundTrip(fileBaseName: string)
    ensures var r := ExtractNameAndLocale(fileBaseName);
            r.locale != "" ==>
              r.resourceName + "_" + r.locale <= fileBaseName
              && (forall k :: |r.resourceName + "_" + r.locale| <= k < |fileBaseName| ==> fileBaseName[k] == '_')
    ensures var r := ExtractNameAndLocale(fileBaseName);
            r.locale != "" && fileBaseName[|fileBaseName| - 1] != '_' ==>
              r.resourceName + "_" + r.locale == fileBaseName
  {
    var fragments := Split(fileBaseName, '_');
    var start := LocaleStart(fragments);
    if start != -1 {
      JoinWithSplitAt(fragments, start, '_');
      if fileBaseName[|fileBaseName| - 1] != '_' {
        SplitJoin(fileBaseName, '_');
      }
    }
  }

  /**
   * The locale suffix, split again at `_`, is one to three fragments: all
   * but the last are two-letter codes, the last is a two-letter code or
   * (only as third fragment) a run of letters.
   */
  lemma ExtractLocaleShape(fileBaseName: string)
    ensures var r := ExtractNameAndLocale(fileBaseName);
            var lf := Split(r.locale, '_');
            r.locale != "" ==>
              1 <= |lf| <= 3
              && (forall k :: 0 <= k < |lf| - 1 ==> IsTwoLetterCode(lf[k]))
              && IsVariantCode(lf[|lf| - 1])
              && (|lf| < 3 ==> IsTwoLetterCode(lf[|lf| - 1]))
  {
    var fragments := Split(fileBaseName, '_');
    var start := LocaleStart(fragments);
    var locale := ExtractNameAndLocale(fileBaseName).locale;
    if start != -1 {
      assert locale == JoinWith(fragments[start..], '_');
      LocaleShapeOf(locale, fragments, start);
    } else {
      assert locale == "";
    }
  }

  /** The shape of the locale joined from the fragments the locale search picked. */
  lemma LocaleShapeOf(locale: string, fragments: seq<string>, start: int)
    requires start == LocaleStart(fragments) && start != -1
    requires forall k :: 0 <= k < |fragments| ==> '_' !in fragments[k]
    requires locale == JoinWith(fragments[start..], '_')
    ensures var lf := Split(locale, '_');
            1 <= |lf| <= 3
            && (forall k :: 0 <= k < |lf| - 1 ==> IsTwoLetterCode(lf[k]))
            && IsVariantCode(lf[|lf| - 1])
            && (|lf| < 3 ==> IsTwoLetterCode(lf[|lf| - 1]))
  {
    SplitSuffixJoin(fragments, start);
    LocaleFragmentsShape(fragments, start);
  }

  /** Splitting the join of the fragments from `start` on gives those fragments back. */
  lemma SplitSuffixJoin(fragments: seq<string>, start: nat)
    requires start < |fragments| && fragments[|fragments| - 1] != ""
    requires forall k :: 0 <= k < |fragments| ==> '_' !in fragments[k]
    ensures Split(JoinWith(fragments[start..], '_'), '_') == fragments[start..]
  {
    var lf := fragments[start..];
    forall k | 0 <= k < |lf| ensures '_' !in lf[k] {
      assert lf[k] == fragments[start + k];
    }
    SplitJoinWith(lf, '_');
  }

  /** The fragments from the locale start on are those the locale shape allows. */
  lemma LocaleFragmentsShape(fragments: seq<string>, start: int)
    requires start == LocaleStart(fragments) && start != -1
    ensures var lf := fragments[start..];
            1 <= |lf| <= 3
            && (forall k :: 0 <= k < |lf| - 1 ==> IsTwoLetterCode(lf[k]))
            && IsVariantCode(lf[|lf| - 1])
            && (|lf| < 3 ==> IsTwoLetterCode(lf[|lf| - 1]))
  {
    var lf := fragments[start..];
    forall k | 0 <= k < |lf| - 1 ensures IsTwoLetterCode(lf[k]) {
      assert lf[k] == fragments[start + k];
    }
    assert lf[|lf| - 1] == fragments[|fragments| - 1];
  }

  /**
   * The name has a locale whenever it splits into at least two fragments
   * and the last one is a two-letter code; a name that splits into one
   * fragment never has one.
   */
  lemma ExtractFindsTwoLetterSuffix(fileBaseName: string)
    ensures var fragments := Split(fileBaseName, '_');
            |fragments| > 1 && IsTwoLetterCode(fragments[|fragments| - 1]) ==>
              ExtractNameAndLocale(fileBaseName).locale != ""
    ensures |Split(fileBaseName, '_')| <= 1 ==> ExtractNameAndLocale(fileBaseName).locale == ""
  {
  }

  /**
   * The utility operation: appends the base resource name to
   * `resourceNameBuilder` and the locale suffix to `localeBuilder`, fragment
   * by fragment; resource fragments are all appended before the first
   * locale fragment, so one builder passed twice receives name then locale.
   */
  method ExtractBaseResourceNameAndLocaleFromFileName(fileBaseName: string,
                                                       resourceNameBuilder: TextBuilder,
                                                       localeBuilder: TextBuilder)
    modifies resourceNameBuilder, localeBuilder
    ensures var r := ExtractNameAndLocale(fileBaseName);
            resourceNameBuilder != localeBuilder ==>
              resourceNameBuilder.text == old(resourceNameBuilder.text) + r.resourceName
              && localeBuilder.text == old(localeBuilder.text) + r.locale
    ensures var r := ExtractNameAndLocale(fileBaseName);
            resourceNameBuilder == localeBuilder ==>
              resourceNameBuilder.text == old(resourceNameBuilder.text) + r.resourceName + r.locale
  {
    var fragments := Split(fileBaseName, '_');
    var localeStartIdx := LocaleStart(fragments);
    if localeStartIdx != -1 {
      AppendFragments(fragments, localeStartIdx, resourceNameBuilder, localeBuilder);
    } else {
      resourceNameBuilder.Append(fileBaseName);
    }
  }

  /**
   * The fragment loop of the utility: fragments before `localeStartIdx` go
   * to the resource name builder and the others to the locale builder, each
   * after a `_` unless it is the first of its builder.
   */
  method AppendFragments(fragments: seq<string>, localeStartIdx: nat,
                         resourceNameBuilder: TextBuilder, localeBuilder: TextBuilder)
    requires 1 <= localeStartIdx < |fragments|
    modifies resourceNameBuilder, localeBuilder
    ensures resourceNameBuilder != localeBuilder ==>
              resourceNameBuilder.text == old(resourceNameBuilder.text) + JoinWith(fragments[..localeStartIdx], '_')
              && localeBuilder.text == old(localeBuilder.text) + JoinWith(fragments[localeStartIdx..], '_')
    ensures resourceNameBuilder == localeBuilder ==>
              resourceNameBuilder.text == old(resourceNameBuilder.text) + JoinWith(fragments[..localeStartIdx], '_')
                                          + JoinWith(fragments[localeStartIdx..], '_')
  {
    var count := |fragments|;
    ghost var name0 := resourceNameBuilder.text;
    ghost var locale0 := localeBuilder.text;
    ghost var namePart, localePart := "", "";
    for idx := 0 to count
      invariant namePart == ResourcePart(fragments, localeStartIdx, idx)
      invariant localePart == LocalePart(fragments, localeStartIdx, idx)
      invariant resourceNameBuilder != localeBuilder ==>
        resourceNameBuilder.text == name0 + namePart && localeBuilder.text == locale0 + localePart
      invariant resourceNameBuilder == localeBuilder ==>
        resourceNameBuilder.text == name0 + namePart + localePart
    {
      PartsStep(fragments, localeStartIdx, idx);
      if idx == 0 {
        resourceNameBuilder.Append(fragments[idx]);
        namePart := fragments[idx];
      } else if idx < localeStartIdx {
        AppendSeparated(resourceNameBuilder, fragments[idx]);
        AppendAssoc(name0, namePart, fragments[idx]);
        namePart := namePart + "_" + fragments[idx];
      } else if idx == localeStartIdx {
        localeBuilder.Append(fragments[idx]);
        localePart := fragments[idx];
      } else {
        AppendSeparated(localeBuilder, fragments[idx]);
        AppendAssoc(locale0, localePart, fragments[idx]);
        AppendAssoc(name0 + namePart, localePart, fragments[idx]);
        localePart := localePart + "_" + fragments[idx];
      }
    }
    assert fragments[localeStartIdx..count] == fragments[localeStartIdx..];
  }

  /** `builder.append('_').append(fragment)`. */
  method AppendSeparated(builder: TextBuilder, fragment: string)
    modifies builder
    ensures builder.text == old(builder.text) + "_" + fragment
  {
    builder.Append("_");
    builder.Append(fragment);
  }

  /** Appending a separator and a fragment to a builder extends the part it holds. */
  lemma AppendAssoc(start: string, part: string, fragment: string)
    ensures start + part + "_" + fragment == start + (part + "_" + fragment)
  {
  }

  /** The resource name text appended once the first `idx` fragments are processed. */
  function ResourcePart(fragments: seq<string>, start: nat, idx: nat): string
    requires start <= |fragments| && idx <= |fragments|
  {
    JoinWith(fragments[..if idx < start then idx else start], '_')
  }

  /** The locale text appended once the first `idx` fragments are processed. */
  function LocalePart(fragments: seq<string>, start: nat, idx: nat): string
    requires start <= |fragments| && idx <= |fragments|
  {
    if idx <= start then "" else JoinWith(fragments[start..idx], '_')
  }

  /** Processing fragment `idx` appends it, after a `_` unless it opens its part, to exactly one of the two parts. */
  lemma PartsStep(fragments: seq<string>, start: nat, idx: nat)
    requires 1 <= start < |fragments| && idx < |fragments|
    ensures idx == 0 ==> ResourcePart(fragments, start, 1) == fragments[0]
                         && LocalePart(fragments, start, 1) == ""
    ensures 0 < idx < start ==> ResourcePart(fragments, start, idx + 1)
                                  == ResourcePart(fragments, start, idx) + "_" + fragments[idx]
                                && LocalePart(fragments, start, idx + 1) == ""
    ensures idx == start ==> ResourcePart(fragments, start, idx + 1) == ResourcePart(fragments, start, idx)
                             && LocalePart(fragments, start, idx + 1) == fragments[idx]
    ensures idx > start ==> ResourcePart(fragments, start, idx + 1) == ResourcePart(fragments, start, idx)
                            && LocalePart(fragments, start, idx + 1)
                               == LocalePart(fragments, start, idx) + "_" + fragments[idx]
  {
    if 0 < idx < start {
      assert fragments[..idx + 1][..idx] == fragments[..idx];
    }
    if idx > start {
      assert fragments[start..idx + 1][..idx - start] == fragments[start..idx];
    }
  }

  /** Extracting from a name given as its `_`-separated fragments. */
  lemma ExtractFromFragments(fragments: seq<string>)
    requires |fragments| >= 1 && fragments[|fragments| - 1] != ""
    requires forall k :: 0 <= k < |fragments| ==> '_' !in fragments[k]
    ensures var start := LocaleStart(fragments);
            ExtractNameAndLocale(JoinWith(fragments, '_'))
              == if start == -1 then NameAndLocale(JoinWith(fragments, '_'), "")
                 else NameAndLocale(JoinWith(fragments[..start], '_'), JoinWith(fragments[start..], '_'))
  {
    SplitJoinWith(fragments, '_');
  }

  /**
   * A name made of resource-name fragments and then locale fragments, where
   * the locale search stops at the first locale fragment: the name and the
   * locale are the two joins.
   */
  lemma ExtractNameThenLocale(names: seq<string>, locale: seq<string>)
    requires |names| >= 1 && |locale| >= 1 && locale[|locale| - 1] != ""
    requires forall k :: 0 <= k < |names| ==> '_' !in names[k]
    requires forall k :: 0 <= k < |locale| ==> '_' !in locale[k]
    requires LocaleStart(names + locale) == |names|
    ensures ExtractNameAndLocale(JoinWith(names, '_') + "_" + JoinWith(locale, '_'))
            == NameAndLocale(JoinWith(names, '_'), JoinWith(locale, '_'))
  {
    var fragments := names + locale;
    assert fragments[..|names|] == names;
    assert fragments[|names|..] == locale;
    forall k | 0 <= k < |fragments| ensures '_' !in fragments[k] {
      if k >= |names| {
        assert fragments[k] == locale[k - |names|];
      }
    }
    JoinWithSplitAt(fragments, |names|, '_');
    ExtractFromFragments(fragments);
  }

  // The expectations of the utility's unit test, one lemma per file base
  // name; letter case is kept, and a name of two letters alone is never
  // taken for a locale.

  lemma ExtractSampleA()
    ensures ExtractNameAndLocale("a") == NameAndLocale("a", "")
  {
    var fs := ["a"];
    assert LocaleStart(fs) == -1;
    ExtractFromFragments(fs);
  }

  lemma ExtractSampleAEn()
    ensures ExtractNameAndLocale("a_en") == NameAndLocale("a", "en")
  {
    var names, locale := ["a"], ["en"];
    assert LocaleStart(names + locale) == 1 by { assert names + locale == ["a", "en"]; }
    assert JoinWith(names, '_') + "_" + JoinWith(locale, '_') == "a_en";
    assert forall k :: 0 <= k < |names| ==> '_' !in names[k];
    assert forall k :: 0 <= k < |locale| ==> '_' !in locale[k];
    ExtractNameThenLocale(names, locale);
  }

  lemma ExtractSampleAEnGb()
    ensures ExtractNameAndLocale("a_en_gb") == NameAndLocale("a", "en_gb")
  {
    var names, locale := ["a"], ["en", "gb"];
    assert JoinWith(locale, '_') == "en_gb" by { JoinWithShort(["en", "gb"], '_'); }
    assert LocaleStart(names + locale) == 1 by { assert names + locale == ["a", "en", "gb"]; }
    assert JoinWith(names, '_') + "_" + JoinWith(locale, '_') == "a_en_gb";
    assert forall k :: 0 <= k < |names| ==> '_' !in names[k];
    assert forall k :: 0 <= k < |locale| ==> '_' !in locale[k];
    ExtractNameThenLocale(names, locale);
  }

  lemma ExtractSampleAEnGbSct()
    ensures ExtractNameAndLocale("a_en_gb_sct") == NameAndLocale("a", "en_gb_sct")
  {
    var names, locale := ["a"], ["en", "gb", "sct"];
    assert JoinWith(locale, '_') == "en_gb_sct" by { JoinWithShort(["en", "gb", "sct"], '_'); }
    assert LocaleStart(names + locale) == 1 by { assert names + locale == ["a", "en", "gb", "sct"]; }
    assert JoinWith(names, '_') + "_" + JoinWith(locale, '_') == "a_en_gb_sct";
    assert forall k :: 0 <= k < |names| ==> '_' !in names[k];
    assert forall k :: 0 <= k < |locale| ==> '_' !in locale[k];
    ExtractNameThenLocale(names, locale);
  }

  lemma ExtractSampleABcEnGbSct()
    ensures ExtractNameAndLocale("a_bc_en_gb_sct") == NameAndLocale("a_bc", "en_gb_sct")
  {
    var names, locale := ["a", "bc"], ["en", "gb", "sct"];
    assert JoinWith(names, '_') == "a_bc" by { JoinWithShort(["a", "bc"], '_'); }
    assert JoinWith(locale, '_') == "en_gb_sct" by { JoinWithShort(["en", "gb", "sct"], '_'); }
    assert LocaleStart(names + locale) == 2 by { assert names + locale == ["a", "bc", "en", "gb", "sct"]; }
    assert JoinWith(names, '_') + "_" + JoinWith(locale, '_') == "a_bc_en_gb_sct";
    assert forall k :: 0 <= k < |names| ==> '_' !in names[k];
    assert forall k :: 0 <= k < |locale| ==> '_' !in locale[k];
    ExtractNameThenLocale(names, locale);
  }

  lemma ExtractSampleABcENGbSCt()
    ensures ExtractNameAndLocale("a_bc_eN_Gb_sCt") == NameAndLocale("a_bc", "eN_Gb_sCt")
  {
    var names, locale := ["a", "bc"], ["eN", "Gb", "sCt"];
    assert JoinWith(names, '_') == "a_bc" by { JoinWithShort(["a", "bc"], '_'); }
    assert JoinWith(locale, '_') == "eN_Gb_sCt" by { JoinWithShort(["eN", "Gb", "sCt"], '_'); }
    assert LocaleStart(names + locale) == 2 by { assert names + locale == ["a", "bc", "eN", "Gb", "sCt"]; }
    assert JoinWith(names, '_') + "_" + JoinWith(locale, '_') == "a_bc_eN_Gb_sCt";
    assert forall k :: 0 <= k < |names| ==> '_' !in names[k];
    assert forall k :: 0 <= k < |locale| ==> '_' !in locale[k];
    ExtractNameThenLocale(names, locale);
  }

  lemma ExtractSampleAb()
    ensures ExtractNameAndLocale("ab") == NameAndLocale("ab", "")
  {
    var fs := ["ab"];
    assert LocaleStart(fs) == -1;
    ExtractFromFragments(fs);
  }

  lemma ExtractSampleAbEn()
    ensures ExtractNameAndLocale("ab_en") == NameAndLocale("ab", "en")
  {
    var names, locale := ["ab"], ["en"];
    assert LocaleStart(names + locale) == 1 by { assert names + locale == ["ab", "en"]; }
    assert JoinWith(names, '_') + "_" + JoinWith(locale, '_') == "ab_en";
    assert forall k :: 0 <= k < |names| ==> '_' !in names[k];
    assert forall k :: 0 <= k < |locale| ==> '_' !in locale[k];
    ExtractNameThenLocale(names, locale);
  }

  lemma ExtractSampleAbEnGb()
    ensures ExtractNameAndLocale("ab_en_gb") == NameAndLocale("ab", "en_gb")
  {
    var names, locale := ["ab"], ["en", "gb"];
    assert JoinWith(locale, '_') == "en_gb" by { JoinWithShort(["en", "gb"], '_'); }
    assert LocaleStart(names + locale) == 1 by { assert names + locale == ["ab", "en", "gb"]; }
    assert JoinWith(names, '_') + "_" + JoinWith(locale, '_') == "ab_en_gb";
    assert forall k :: 0 <= k < |names| ==> '_' !in names[k];
    assert forall k :: 0 <= k < |locale| ==> '_' !in locale[k];
    ExtractNameThenLocale(names, locale);
  }

  lemma ExtractSampleAbEnGbSct()
    ensures ExtractNameAndLocale("ab_en_gb_sct") == NameAndLocale("ab", "en_gb_sct")
  {
    var names, locale := ["ab"], ["en", "gb", "sct"];
    assert JoinWith(locale, '_') == "en_gb_sct" by { JoinWithShort(["en", "gb", "sct"], '_'); }
    assert LocaleStart(names + locale) == 1 by { assert names + locale == ["ab", "en", "gb", "sct"]; }
    assert JoinWith(names, '_') + "_" + JoinWith(locale, '_') == "ab_en_gb_sct";
    assert forall k :: 0 <= k < |names| ==> '_' !in names[k];
    assert forall k :: 0 <= k < |locale| ==> '_' !in locale[k];
    ExtractNameThenLocale(names, locale);
  }

  lemma ExtractSampleAbCdEnGbSct()
    ensures ExtractNameAndLocale("ab_cd_en_gb_sct") == NameAndLocale("ab_cd", "en_gb_sct")
  {
    var names, locale := ["ab", "cd"], ["en", "gb", "sct"];
    assert JoinWith(names, '_') == "ab_cd" by { JoinWithShort(["ab", "cd"], '_'); }
    assert JoinWith(locale, '_') == "en_gb_sct" by { JoinWithShort(["en", "gb", "sct"], '_'); }
    assert LocaleStart(names + locale) == 2 by { assert names + locale == ["ab", "cd", "en", "gb", "sct"]; }
    assert JoinWith(names, '_') + "_" + JoinWith(locale, '_') == "ab_cd_en_gb_sct";
    assert forall k :: 0 <= k < |names| ==> '_' !in names[k];
    assert forall k :: 0 <= k < |locale| ==> '_' !in locale[k];
    ExtractNameThenLocale(names, locale);
  }

  lemma ExtractSampleAbCdENGbSCt()
    ensures ExtractNameAndLocale("ab_cd_eN_Gb_sCt") == NameAndLocale("ab_cd", "eN_Gb_sCt")
  {
    var names, locale := ["ab", "cd"], ["eN", "Gb", "sCt"];
    assert JoinWith(names, '_') == "ab_cd" by { JoinWithShort(["ab", "cd"], '_'); }
    assert JoinWith(locale, '_') == "eN_Gb_sCt" by { JoinWithShort(["eN", "Gb", "sCt"], '_'); }
    assert LocaleStart(names + locale) == 2 by { assert names + locale == ["ab", "cd", "eN", "Gb", "sCt"]; }
    assert JoinWith(names, '_') + "_" + JoinWith(locale, '_') == "ab_cd_eN_Gb_sCt";
    assert forall k :: 0 <= k < |names| ==> '_' !in names[k];
    assert forall k :: 0 <= k < |locale| ==> '_' !in locale[k];
    ExtractNameThenLocale(names, locale);
  }
}
