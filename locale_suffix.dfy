/**
 * How both mojos turn the relative path of a `.properties` file into a
 * relative directory, a resource name and a locale suffix. Neither calls the
 * shared file-name utility: each strips up to three two-character fragments
 * off the end of the file base name, whatever characters they hold, and
 * joins them with a mojo-specific character (`-` in the validation mojo,
 * `_` in the duplication mojo).
 */
module LocaleSuffix {
  import opened Wrappers
  import opened JavaStrings

  const PropertiesExtension: string := ".properties"

  /** The directory part of a relative path (empty, or ending in `/`) and the file name without `.properties`. */
  datatype PathParts = PathParts(relativePath: string, fileBaseName: string)

  /**
   * Splits a relative path at its last `/`: the directory part keeps the
   * `/`, and the file name loses its `.properties` extension.
   */
  function SplitPropertiesPath(includedFile: string): (p: PathParts)
    requires EndsWith(includedFile, PropertiesExtension)
    ensures p.relativePath + p.fileBaseName + PropertiesExtension == includedFile
    ensures '/' !in p.fileBaseName
    ensures p.relativePath == "" || p.relativePath[|p.relativePath| - 1] == '/'
  {
    var slash := LastIndexOf(includedFile, '/');
    var fileName := if slash != -1 then includedFile[slash + 1..] else includedFile;
    var relativePath := if slash != -1 then includedFile[..slash + 1] else "";
    NoSlashInExtension();
    SplitAtLastSlash(includedFile, slash, PropertiesExtension);
    assert fileName[..|fileName| - |PropertiesExtension|] == includedFile[slash + 1..|includedFile| - |PropertiesExtension|];
    PathParts(relativePath, fileName[..|fileName| - |PropertiesExtension|])
  }

  /** A path without `/` names a file at the top of the directory: its directory part is empty. */
  lemma SplitTopLevelFile(includedFile: string)
    requires EndsWith(includedFile, PropertiesExtension) && '/' !in includedFile
    ensures SplitPropertiesPath(includedFile).relativePath == ""
    ensures SplitPropertiesPath(includedFile).fileBaseName == includedFile[..|includedFile| - |PropertiesExtension|]
  {
    assert LastIndexOf(includedFile, '/') == -1;
  }

  lemma NoSlashInExtension()
    ensures '/' !in PropertiesExtension
  {
  }

  /**
   * The last `/` of a path that ends in an extension without `/` lies
   * before the extension, and splitting there keeps the text.
   */
  lemma SplitAtLastSlash(includedFile: string, slash: int, extension: string)
    requires EndsWith(includedFile, extension) && '/' !in extension && slash == LastIndexOf(includedFile, '/')
    ensures slash < |includedFile| - |extension|
    ensures '/' !in includedFile[slash + 1..|includedFile| - |extension|]
    ensures includedFile[..slash + 1] + includedFile[slash + 1..|includedFile| - |extension|] + extension == includedFile
  {
    var n := |includedFile| - |extension|;
    assert slash < n by { SlashBeforeExtension(includedFile, slash, extension); }
    assert '/' !in includedFile[slash + 1..n] by { NoSlashAfterLast(includedFile, slash, n); }
    assert includedFile[..slash + 1] + includedFile[slash + 1..n] + extension == includedFile by {
      SplitThreeWays(includedFile, slash + 1, n);
    }
  }

  lemma SlashBeforeExtension(includedFile: string, slash: int, extension: string)
    requires EndsWith(includedFile, extension) && '/' !in extension && slash == LastIndexOf(includedFile, '/')
    ensures slash < |includedFile| - |extension|
  {
    if slash >= |includedFile| - |extension| {
      assert false;
    }
  }

  lemma SplitThreeWays(s: string, i: nat, j: nat)
    requires i <= j <= |s|
    ensures s[..i] + s[i..j] + s[j..] == s
  {
  }

  lemma NoSlashAfterLast(s: string, slash: int, n: nat)
    requires slash == LastIndexOf(s, '/') && slash < n <= |s|
    ensures '/' !in s[slash + 1..n]
  {
    forall k | slash + 1 <= k < n ensures s[k] != '/' {
      assert s[k] == s[slash + 1..][k - slash - 1];
    }
  }

  /**
   * The loop condition: the last `_` of the name is third from its end.
   * A two-character name without any `_` meets it too, since the missing
   * `_` reports position -1.
   */
  predicate EndsWithFragment(name: string) {
    LastIndexOf(name, '_') == |name| - 3
  }

  /**
   * Peeling at most `budget` fragments off `name`: the remaining resource
   * name and the peeled fragments in file-name order, or None when the
   * name left over is two characters without `_` (the source's
   * `substring(0, -1)` throws there).
   */
  function Peel(name: string, budget: nat): (r: Option<(string, seq<string>)>)
    ensures r.Some? ==> |r.value.1| <= budget
    decreases budget
  {
    if budget > 0 && EndsWithFragment(name) then
      if |name| < 3 then None
      else
        match Peel(name[..|name| - 3], budget - 1)
        case None => None
        case Some((rest, fragments)) => Some((rest, fragments + [name[|name| - 2..]]))
    else Some((name, []))
  }

  /** The outcome of peeling with the three-fragment budget of both mojos: resource name and joined locale. */
  function PeelLocale(fileBaseName: string, joiner: char): Option<(string, string)>
  {
    match Peel(fileBaseName, 3)
    case None => None
    case Some((rest, fragments)) => Some((rest, JoinWith(fragments, joiner)))
  }

  /** Peeling continued on a remainder: the fragments already peeled follow the ones still to come. */
  function Extend(o: Option<(string, seq<string>)>, later: seq<string>): Option<(string, seq<string>)>
  {
    match o
    case None => None
    case Some((rest, fragments)) => Some((rest, fragments + later))
  }

  /** One loop iteration in terms of `Peel`. */
  lemma PeelStep(name: string, budget: nat, later: seq<string>)
    requires budget > 0 && EndsWithFragment(name) && |name| >= 3
    ensures Extend(Peel(name, budget), later)
            == Extend(Peel(name[..|name| - 3], budget - 1), [name[|name| - 2..]] + later)
  {
    match Peel(name[..|name| - 3], budget - 1)
    case None =>
    case Some((rest, fragments)) =>
      assert fragments + [name[|name| - 2..]] + later == fragments + ([name[|name| - 2..]] + later);
  }

  /**
   * The loop shared by both mojos: while the name ends in `_` and two
   * characters and the locale text is shorter than 8 characters, the tail
   * after the last `_` is cut off and put in front of the locale text
   * (followed by the joiner unless the locale text is still empty). It
   * computes `PeelLocale`; None is the `substring` failure.
   */
  method PeelLocaleSuffix(fileBaseName: string, joiner: char) returns (r: Option<(string, string)>)
    ensures r == PeelLocale(fileBaseName, joiner)
  {
    var locale := "";
    var resourceName := fileBaseName;
    ghost var peeled: seq<string> := [];
    assert Extend(Peel(fileBaseName, 3), []) == Extend(Peel(resourceName, 3 - |peeled|), peeled);
    while LastIndexOf(resourceName, '_') == |resourceName| - 3 && |locale| < 8
      invariant PeelLoopState(fileBaseName, resourceName, peeled, locale, joiner)
      decreases |resourceName|
    {
      var last := LastIndexOf(resourceName, '_');
      var fragment := resourceName[last + 1..];
      if last < 0 {
        PeelLoopFails(fileBaseName, resourceName, peeled, locale, joiner);
        return None;
      }
      assert fragment == resourceName[|resourceName| - 2..];
      PeelLoopStep(fileBaseName, resourceName, peeled, locale, joiner);
      ghost var nextLocale := fragment + (if |locale| != 0 then [joiner] + locale else locale);
      resourceName := resourceName[..last];
      if |locale| != 0 {
        locale := [joiner] + locale;
      }
      locale := fragment + locale;
      assert locale == nextLocale;
      peeled := [fragment] + peeled;
    }
    PeelLoopEnds(fileBaseName, resourceName, peeled, locale, joiner);
    return Some((resourceName, locale));
  }

  /**
   * The state of the loop: the fragments peeled so far, in file-name
   * order, joined into the locale text, and what is left to peel.
   */
  predicate PeelLoopState(fileBaseName: string, resourceName: string, peeled: seq<string>, locale: string, joiner: char) {
    |peeled| <= 3
    && locale == JoinWith(peeled, joiner)
    && |locale| == (if peeled == [] then 0 else 3 * |peeled| - 1)
    && Extend(Peel(fileBaseName, 3), []) == Extend(Peel(resourceName, 3 - |peeled|), peeled)
  }

  /** One iteration keeps the loop state. */
  lemma PeelLoopStep(fileBaseName: string, resourceName: string, peeled: seq<string>, locale: string, joiner: char)
    requires PeelLoopState(fileBaseName, resourceName, peeled, locale, joiner)
    requires LastIndexOf(resourceName, '_') == |resourceName| - 3 && |locale| < 8 && |resourceName| >= 3
    ensures var fragment := resourceName[|resourceName| - 2..];
            PeelLoopState(fileBaseName, resourceName[..|resourceName| - 3], [fragment] + peeled,
                          fragment + (if |locale| != 0 then [joiner] + locale else locale), joiner)
  {
    var fragment := resourceName[|resourceName| - 2..];
    PrependFragment(fragment, peeled, locale, joiner);
    PeelStep(resourceName, 3 - |peeled|, peeled);
  }

  /** Putting one more two-character fragment in front of the locale text. */
  lemma PrependFragment(fragment: string, peeled: seq<string>, locale: string, joiner: char)
    requires |fragment| == 2 && |peeled| < 3
    requires locale == JoinWith(peeled, joiner) && |locale| == (if peeled == [] then 0 else 3 * |peeled| - 1)
    ensures var newPeeled := [fragment] + peeled;
            var newLocale := fragment + (if |locale| != 0 then [joiner] + locale else locale);
            newLocale == JoinWith(newPeeled, joiner)
            && |newLocale| == 3 * |newPeeled| - 1
  {
    var newPeeled := [fragment] + peeled;
    if peeled != [] {
      JoinWithAppend([fragment], peeled, joiner);
    } else {
      assert newPeeled == [fragment];
    }
  }

  /** The loop throws exactly where `Peel` gives None. */
  lemma PeelLoopFails(fileBaseName: string, resourceName: string, peeled: seq<string>, locale: string, joiner: char)
    requires PeelLoopState(fileBaseName, resourceName, peeled, locale, joiner)
    requires LastIndexOf(resourceName, '_') == |resourceName| - 3 && |locale| < 8 && LastIndexOf(resourceName, '_') < 0
    ensures None == PeelLocale(fileBaseName, joiner)
  {
  }

  /** When the loop stops, what it has peeled is what `Peel` peels. */
  lemma PeelLoopEnds(fileBaseName: string, resourceName: string, peeled: seq<string>, locale: string, joiner: char)
    requires PeelLoopState(fileBaseName, resourceName, peeled, locale, joiner)
    requires !(LastIndexOf(resourceName, '_') == |resourceName| - 3 && |locale| < 8)
    ensures Some((resourceName, locale)) == PeelLocale(fileBaseName, joiner)
  {
    assert Peel(resourceName, 3 - |peeled|) == Some((resourceName, []));
    assert [] + peeled == peeled;
    assert Peel(fileBaseName, 3).value.1 + [] == Peel(fileBaseName, 3).value.1;
  }

  /**
   * Round trip: without fragments the remaining name is the whole name;
   * otherwise the remaining name, `_`, and the fragments joined with `_`
   * rebuild it.
   */
  lemma {:induction false} PeelRoundTrip(name: string, budget: nat)
    requires Peel(name, budget).Some?
    ensures Peel(name, budget).value.1 == [] ==> Peel(name, budget).value.0 == name
    ensures Peel(name, budget).value.1 != [] ==>
              Peel(name, budget).value.0 + "_" + JoinWith(Peel(name, budget).value.1, '_') == name
    decreases budget
  {
    if budget > 0 && EndsWithFragment(name) {
      var prefix := name[..|name| - 3];
      var tail := name[|name| - 2..];
      PeelRoundTrip(prefix, budget - 1);
      var (rest, fragments) := Peel(prefix, budget - 1).value;
      assert Peel(name, budget).value == (rest, fragments + [tail]);
      FragmentSplit(name);
      if fragments == [] {
        assert fragments + [tail] == [tail];
      } else {
        JoinWithAppend(fragments, [tail], '_');
        assert JoinWith([tail], '_') == tail;
        RejoinFragment(rest, JoinWith(fragments, '_'), tail, prefix);
      }
    }
  }

  /** A remaining name and joined fragments that rebuild `prefix` rebuild it with one more fragment too. */
  lemma RejoinFragment(rest: string, joined: string, tail: string, prefix: string)
    requires rest + "_" + joined == prefix
    ensures rest + "_" + (joined + ['_'] + tail) == prefix + "_" + tail
  {
  }

  /** A name that ends in a fragment is the name before it, `_`, and the fragment. */
  lemma FragmentSplit(name: string)
    requires EndsWithFragment(name) && |name| >= 3
    ensures name == name[..|name| - 3] + "_" + name[|name| - 2..]
  {
    var i := |name| - 3;
    assert name[i] == '_';
    SplitThreeWays(name, i, i + 1);
    assert name[i..i + 1] == "_";
  }

  /** Every peeled fragment is two characters without `_`. */
  lemma {:induction false} PeelFragmentShape(name: string, budget: nat)
    requires Peel(name, budget).Some?
    ensures forall k :: 0 <= k < |Peel(name, budget).value.1| ==>
              |Peel(name, budget).value.1[k]| == 2 && '_' !in Peel(name, budget).value.1[k]
    decreases budget
  {
    if budget > 0 && EndsWithFragment(name) {
      var tail := name[|name| - 2..];
      PeelFragmentShape(name[..|name| - 3], budget - 1);
      assert '_' !in tail by {
        assert tail == name[LastIndexOf(name, '_') + 1..];
      }
    }
  }

  /**
   * Peeling stops only when the budget is used up or the remaining name
   * does not end in `_` and two more characters.
   */
  lemma {:induction false} PeelStopsAtLastFragment(name: string, budget: nat)
    requires Peel(name, budget).Some?
    ensures var (rest, fragments) := Peel(name, budget).value;
            |fragments| < budget ==> !EndsWithFragment(rest)
    decreases budget
  {
    if budget > 0 && EndsWithFragment(name) {
      PeelStopsAtLastFragment(name[..|name| - 3], budget - 1);
    }
  }

  /**
   * A name made of at most `budget` fragments of two characters without
   * `_`, separated by single `_`: every third character, and no other, is
   * an underscore.
   */
  predicate IsShortFragmentChain(name: string, budget: nat) {
    |name| % 3 == 2 && |name| < 3 * budget
    && forall k :: 0 <= k < |name| ==> (name[k] == '_' <==> k % 3 == 2)
  }

  /**
   * The peel fails exactly on names that are nothing but a chain of
   * two-character fragments short enough for the budget: then nothing is
   * left for the resource name (`ab`, `ab_en`, `ab_en_gb` with the budget
   * of three).
   */
  lemma PeelFailsIff(name: string, budget: nat)
    ensures Peel(name, budget).None? <==> IsShortFragmentChain(name, budget)
  {
    if Peel(name, budget).None? {
      PeelFailureIsChain(name, budget);
    }
    if IsShortFragmentChain(name, budget) {
      PeelFailsOnChain(name, budget);
    }
  }

  lemma {:induction false} PeelFailsOnChain(name: string, budget: nat)
    requires IsShortFragmentChain(name, budget)
    ensures Peel(name, budget).None?
    decreases budget
  {
    if |name| == 2 {
      assert name[0] != '_' && name[1] != '_';
    } else {
      var prefix := name[..|name| - 3];
      ChainResiduesBelow(|name|);
      ChainResidues(|prefix|);
      assert name[|name| - 3] == '_';
      assert name[|name| - 2] != '_' && name[|name| - 1] != '_';
      assert EndsWithFragment(name);
      forall k | 0 <= k < |prefix| ensures prefix[k] == '_' <==> k % 3 == 2 {
        assert prefix[k] == name[k];
      }
      PeelFailsOnChain(prefix, budget - 1);
    }
  }

  lemma {:induction false} PeelFailureIsChain(name: string, budget: nat)
    requires Peel(name, budget).None?
    ensures IsShortFragmentChain(name, budget)
    decreases budget
  {
    assert budget > 0 && EndsWithFragment(name);
    var last := LastIndexOf(name, '_');
    if |name| < 3 {
      assert |name| == 2 && '_' !in name;
      assert name[0] != '_' && name[1] != '_';
    } else {
      var prefix := name[..|name| - 3];
      PeelFailureIsChain(prefix, budget - 1);
      assert name[last + 1..] == [name[|name| - 2], name[|name| - 1]];
      ChainGrows(name, prefix, budget);
    }
  }

  /** A chain followed by `_` and two more characters without `_` is a chain one fragment longer. */
  lemma ChainGrows(name: string, prefix: string, budget: nat)
    requires |name| >= 3 && prefix == name[..|name| - 3] && budget > 0
    requires IsShortFragmentChain(prefix, budget - 1)
    requires name[|name| - 3] == '_' && name[|name| - 2] != '_' && name[|name| - 1] != '_'
    ensures IsShortFragmentChain(name, budget)
  {
    var n := |prefix|;
    ChainResidues(n);
    forall k | 0 <= k < |name|
      ensures name[k] == '_' <==> k % 3 == 2
    {
      if k < n {
        assert name[k] == prefix[k];
      }
    }
  }

  /** A chain longer than one fragment is a shorter chain and one more fragment. */
  lemma ChainResiduesBelow(m: int)
    requires m >= 3 && m % 3 == 2
    ensures (m - 3) % 3 == 2
  {
    var q := m / 3;
    assert m == 3 * q + 2;
    assert m - 3 == 3 * (q - 1) + 2;
  }

  /** The positions of the separator and the two characters that a fragment adds to a chain. */
  lemma ChainResidues(n: int)
    requires n >= 0 && n % 3 == 2
    ensures n % 3 == 2 && (n + 1) % 3 == 0 && (n + 2) % 3 == 1 && (n + 3) % 3 == 2
  {
    var q := n / 3;
    assert n == 3 * q + 2;
    assert n + 1 == 3 * (q + 1);
    assert n + 2 == 3 * (q + 1) + 1;
    assert n + 3 == 3 * (q + 1) + 2;
  }

  /** The loop of both mojos fails on a two-letter resource name with a locale, such as `ab_en`, and on `ab` itself. */
  lemma PeelFailsOnTwoLetterResourceName()
    ensures PeelLocale("ab_en", '-') == None
    ensures PeelLocale("ab", '-') == None
  {
    PeelFailsIff("ab_en", 3);
    PeelFailsIff("ab", 3);
  }

  /**
   * A three-letter variant is not a two-character fragment, so peeling
   * stops at once: `a_en_gb_sct` is a root-locale file of resource
   * `a_en_gb_sct` (the file-name utility reads `a` with `en_gb_sct`).
   */
  lemma PeelStopsAtVariant()
    ensures PeelLocale("a_en_gb_sct", '-') == Some(("a_en_gb_sct", ""))
  {
    var name := "a_en_gb_sct";
    assert LastIndexOf(name, '_') == 7;
  }

  /**
   * A language and a country fragment after a resource name that does not
   * itself end in a fragment are both peeled, and joined with the joiner
   * (`messages_de_ch` gives `messages` with `de-ch`, or `de_ch`).
   */
  lemma PeelLanguageAndCountry(resourceName: string, language: string, country: string, joiner: char)
    requires !EndsWithFragment(resourceName) && IsFragment(language) && IsFragment(country)
    ensures PeelLocale(resourceName + "_" + language + "_" + country, joiner)
            == Some((resourceName, language + [joiner] + country))
  {
    var withLanguage := resourceName + "_" + language;
    PeelStop(resourceName, 1);
    PeelOneMore(withLanguage, resourceName, language, 2, resourceName, []);
    EmptyAppend([language]);
    PeelOneMore(withLanguage + "_" + country, withLanguage, country, 3, resourceName, [language]);
    SingletonsAppend(language, country);
    PeelLocaleOf(withLanguage + "_" + country, joiner, resourceName, [language, country]);
    JoinWithShort([language, country], joiner);
  }

  lemma PeelLocaleOf(name: string, joiner: char, rest: string, fragments: seq<string>)
    requires Peel(name, 3) == Some((rest, fragments))
    ensures PeelLocale(name, joiner) == Some((rest, JoinWith(fragments, joiner)))
  {
  }

  /** Two characters, neither of them `_`. */
  predicate IsFragment(fragment: string) {
    |fragment| == 2 && fragment[0] != '_' && fragment[1] != '_'
  }

  /** A name followed by `_` and a fragment ends in that fragment. */
  lemma FragmentEnds(prefix: string, last: string)
    requires IsFragment(last)
    ensures var name := prefix + "_" + last;
            EndsWithFragment(name) && name[..|name| - 3] == prefix && name[|name| - 2..] == last
  {
    var name := prefix + "_" + last;
    assert name[|name| - 2..] == last;
    assert '_' !in last;
    LastIndexOfAt(name, '_', |name| - 3);
  }

  /** One more fragment after a name that peels to `front` peels to `front` and that fragment. */
  lemma PeelOneMore(name: string, prefix: string, last: string, budget: nat, resourceName: string, front: seq<string>)
    requires budget > 0 && name == prefix + "_" + last && IsFragment(last)
    requires Peel(prefix, budget - 1) == Some((resourceName, front))
    ensures Peel(name, budget) == Some((resourceName, front + [last]))
  {
    FragmentEnds(prefix, last);
    PeelMore(name, budget, resourceName, front);
  }

  lemma PeelStop(name: string, budget: nat)
    requires !EndsWithFragment(name)
    ensures Peel(name, budget) == Some((name, []))
  {
  }

  lemma PeelMore(name: string, budget: nat, rest: string, fragments: seq<string>)
    requires budget > 0 && EndsWithFragment(name) && |name| >= 3
    requires Peel(name[..|name| - 3], budget - 1) == Some((rest, fragments))
    ensures Peel(name, budget) == Some((rest, fragments + [name[|name| - 2..]]))
  {
  }
}
