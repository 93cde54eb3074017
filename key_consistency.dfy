/**
 * The message-key consistency check of one base path: every non-root
 * bundle is compared with the root bundle, and every key that some bundle
 * lacks, or that some bundle has beyond the root's, is reported once with
 * the locales concerned.
 */
module KeyConsistency {
  import opened Wrappers
  import opened BundleIndex
  import opened BundleChecks

  /** The key set of every loaded bundle, by locale. */
  type Bundles = map<Locale, set<MessageKey>>

  /** The keys appearing in any of the key sets. */
  function KeysUnion(keysByLocale: map<Locale, set<MessageKey>>): (r: set<MessageKey>)
    ensures forall k :: k in r <==> exists l :: l in keysByLocale && k in keysByLocale[l]
  {
    set l, k | l in keysByLocale && k in keysByLocale[l] :: k
  }

  /** The inverse relation: for every key, the locales whose key set holds it. */
  function LocalesByKey(keysByLocale: map<Locale, set<MessageKey>>): (r: map<MessageKey, set<Locale>>)
    ensures forall k, l :: k in r && l in r[k] <==> l in keysByLocale && k in keysByLocale[l]
  {
    map k | k in KeysUnion(keysByLocale) :: set l | l in keysByLocale && k in keysByLocale[l]
  }

  /** The root's keys each non-root bundle lacks. */
  function MissingKeysByLocale(bundles: Bundles, referenceKeys: set<MessageKey>): map<Locale, set<MessageKey>> {
    map l | l in bundles && l != Root :: referenceKeys - bundles[l]
  }

  /** The keys each non-root bundle has beyond the root's. */
  function SuperfluousKeysByLocale(bundles: Bundles, referenceKeys: set<MessageKey>): map<Locale, set<MessageKey>> {
    map l | l in bundles && l != Root :: bundles[l] - referenceKeys
  }

  /** The two maps the check fills and logs, one entry per reported key. */
  datatype KeyReport = KeyReport(localesByMissingKey: map<MessageKey, set<Locale>>, localesBySuperfluousKey: map<MessageKey, set<Locale>>)
  {
    /** What the check adds to the inconsistent-message-key counter: one per entry of either map. */
    function Count(): nat {
      |localesByMissingKey| + |localesBySuperfluousKey|
    }
  }

  /** The report for a base path whose root bundle is loaded. */
  function ReportOf(bundles: Bundles): KeyReport
    requires Root in bundles
  {
    KeyReport(LocalesByKey(MissingKeysByLocale(bundles, bundles[Root])),
              LocalesByKey(SuperfluousKeysByLocale(bundles, bundles[Root])))
  }

  /** `map` with `locale` appended to the locale list of every key in `keys`, creating entries as needed. */
  function AddLocale(localesByKey: map<MessageKey, set<Locale>>, keys: set<MessageKey>, locale: Locale): map<MessageKey, set<Locale>> {
    map k | k in localesByKey.Keys + keys
      :: (if k in localesByKey then localesByKey[k] else {}) + (if k in keys then {locale} else {})
  }

  /**
   * `validateResourceBundleConsistency`: the root bundle's keys are the
   * reference; a base path without a loaded root bundle ends the
   * validation (the NullPointerException), shown here as None.
   */
  method ValidateResourceBundleConsistency(bundles: Bundles) returns (r: Option<KeyReport>)
    ensures r.None? <==> Root !in bundles
    ensures r.Some? ==> r.value == ReportOf(bundles)
  {
    if Root !in bundles {
      return None;
    }
    var referenceKeys := bundles[Root];
    var localesByMissingKeys: map<MessageKey, set<Locale>> := map[];
    var localesBySuperfluousKeys: map<MessageKey, set<Locale>> := map[];
    var remaining := bundles.Keys;
    while remaining != {}
      invariant remaining <= bundles.Keys
      invariant localesByMissingKeys == LocalesByKey(MissingKeysByLocale(bundles - remaining, referenceKeys))
      invariant localesBySuperfluousKeys == LocalesByKey(SuperfluousKeysByLocale(bundles - remaining, referenceKeys))
      decreases |remaining|
    {
      var locale :| locale in remaining;
      VisitStep(bundles, remaining, locale, referenceKeys);
      if locale != Root {
        var missingKeys := referenceKeys - bundles[locale];
        LocalesByKeyAdd(MissingKeysByLocale(bundles - remaining, referenceKeys), locale, missingKeys);
        localesByMissingKeys := RecordLocale(localesByMissingKeys, missingKeys, locale);
        var superfluousKeys := bundles[locale] - referenceKeys;
        LocalesByKeyAdd(SuperfluousKeysByLocale(bundles - remaining, referenceKeys), locale, superfluousKeys);
        localesBySuperfluousKeys := RecordLocale(localesBySuperfluousKeys, superfluousKeys, locale);
      }
      remaining := remaining - {locale};
    }
    assert bundles - remaining == bundles;
    return Some(KeyReport(localesByMissingKeys, localesBySuperfluousKeys));
  }

  /** The loop over the missing (or superfluous) keys of one locale. */
  method RecordLocale(localesByKey: map<MessageKey, set<Locale>>, keys: set<MessageKey>, locale: Locale)
    returns (r: map<MessageKey, set<Locale>>)
    ensures r == AddLocale(localesByKey, keys, locale)
  {
    r := localesByKey;
    var remaining := keys;
    assert keys - remaining == {};
    while remaining != {}
      invariant remaining <= keys
      invariant IsRecordedFor(localesByKey, keys - remaining, locale, r)
      decreases |remaining|
    {
      var key :| key in remaining;
      var locales := if key in r then r[key] else {};
      ghost var before, remainingBefore := r, remaining;
      r := r[key := locales + {locale}];
      remaining := remaining - {key};
      RecordedStep(localesByKey, keys, remainingBefore, locale, before, key, r);
    }
    assert keys - remaining == keys;
    AddLocaleEquals(localesByKey, keys, locale, r);
  }

  /** `r` agrees key by key with `localesByKey` once `locale` is recorded for the keys in `keys`. */
  ghost predicate IsRecordedFor(localesByKey: map<MessageKey, set<Locale>>, keys: set<MessageKey>, locale: Locale, r: map<MessageKey, set<Locale>>) {
    (forall k :: k in r <==> k in localesByKey || k in keys)
    && forall k, l :: k in r ==> (l in r[k] <==> (k in localesByKey && l in localesByKey[k]) || (k in keys && l == locale))
  }

  /** Recording the locale for one more key keeps the map in step with the keys done. */
  lemma RecordedStep(localesByKey: map<MessageKey, set<Locale>>, keys: set<MessageKey>, remaining: set<MessageKey>, locale: Locale,
                     r: map<MessageKey, set<Locale>>, key: MessageKey, next: map<MessageKey, set<Locale>>)
    requires IsRecordedFor(localesByKey, keys - remaining, locale, r) && key in remaining && remaining <= keys
    requires next == r[key := (if key in r then r[key] else {}) + {locale}]
    ensures IsRecordedFor(localesByKey, keys - (remaining - {key}), locale, next)
  {
    var done := keys - remaining;
    assert keys - (remaining - {key}) == done + {key};
    forall k, l | k in next
      ensures l in next[k] <==> (k in localesByKey && l in localesByKey[k]) || (k in done + {key} && l == locale)
    {
      if k != key {
        assert next[k] == r[k];
      }
    }
  }

  /** A map that agrees with `AddLocale` key by key is `AddLocale`. */
  lemma AddLocaleEquals(localesByKey: map<MessageKey, set<Locale>>, keys: set<MessageKey>, locale: Locale, r: map<MessageKey, set<Locale>>)
    requires IsRecordedFor(localesByKey, keys, locale, r)
    ensures r == AddLocale(localesByKey, keys, locale)
  {
    var expected := AddLocale(localesByKey, keys, locale);
    assert r.Keys == expected.Keys;
    forall k | k in r
      ensures r[k] == expected[k]
    {
    }
  }

  /** Visiting one more locale extends the missing and superfluous key sets by that locale's, unless it is the root. */
  lemma VisitStep(bundles: Bundles, remaining: set<Locale>, locale: Locale, referenceKeys: set<MessageKey>)
    requires locale in remaining && remaining <= bundles.Keys
    ensures locale !in bundles - remaining
    ensures MissingKeysByLocale(bundles - (remaining - {locale}), referenceKeys)
            == if locale != Root
               then MissingKeysByLocale(bundles - remaining, referenceKeys)[locale := referenceKeys - bundles[locale]]
               else MissingKeysByLocale(bundles - remaining, referenceKeys)
    ensures SuperfluousKeysByLocale(bundles - (remaining - {locale}), referenceKeys)
            == if locale != Root
               then SuperfluousKeysByLocale(bundles - remaining, referenceKeys)[locale := bundles[locale] - referenceKeys]
               else SuperfluousKeysByLocale(bundles - remaining, referenceKeys)
  {
    var visited := bundles - remaining;
    var next := bundles - (remaining - {locale});
    assert next.Keys == visited.Keys + {locale};
    assert forall l :: l in visited ==> next[l] == visited[l];
  }

  /** Visiting one more locale adds it to the list of each of its keys. */
  lemma LocalesByKeyAdd(keysByLocale: map<Locale, set<MessageKey>>, locale: Locale, keys: set<MessageKey>)
    requires locale !in keysByLocale
    ensures LocalesByKey(keysByLocale[locale := keys]) == AddLocale(LocalesByKey(keysByLocale), keys, locale)
  {
    var after := LocalesByKey(keysByLocale[locale := keys]);
    var expected := AddLocale(LocalesByKey(keysByLocale), keys, locale);
    LocalesByKeyAddKeys(keysByLocale, locale, keys);
    forall k | k in after
      ensures after[k] == expected[k]
    {
      LocalesByKeyAddAt(keysByLocale, locale, keys, k);
    }
  }

  /** The keys of the inverse relation once one more locale is visited. */
  lemma LocalesByKeyAddKeys(keysByLocale: map<Locale, set<MessageKey>>, locale: Locale, keys: set<MessageKey>)
    requires locale !in keysByLocale
    ensures LocalesByKey(keysByLocale[locale := keys]).Keys == AddLocale(LocalesByKey(keysByLocale), keys, locale).Keys
  {
    var extended := keysByLocale[locale := keys];
    forall k | k in KeysUnion(keysByLocale) + keys
      ensures k in KeysUnion(extended)
    {
      if k in keys {
        assert locale in extended && k in extended[locale];
      } else {
        var l :| l in keysByLocale && k in keysByLocale[l];
        assert l in extended && k in extended[l];
      }
    }
  }

  /** The locales of one key once one more locale is visited. */
  lemma LocalesByKeyAddAt(keysByLocale: map<Locale, set<MessageKey>>, locale: Locale, keys: set<MessageKey>, k: MessageKey)
    requires locale !in keysByLocale
    requires k in LocalesByKey(keysByLocale[locale := keys]) && k in AddLocale(LocalesByKey(keysByLocale), keys, locale)
    ensures LocalesByKey(keysByLocale[locale := keys])[k] == AddLocale(LocalesByKey(keysByLocale), keys, locale)[k]
  {
    var before := LocalesByKey(keysByLocale);
    var after := LocalesByKey(keysByLocale[locale := keys]);
    var expected := AddLocale(before, keys, locale);
    var extended := keysByLocale[locale := keys];
    forall l ensures l in after[k] <==> l in expected[k] {
      assert l in after[k] <==> l in extended && k in extended[l];
      assert l in expected[k] <==> (k in before && l in before[k]) || (k in keys && l == locale);
      assert k in before && l in before[k] <==> l in keysByLocale && k in keysByLocale[l];
    }
  }

  /** A locale-by-key map is empty exactly when every key set is empty. */
  lemma LocalesByKeyEmptyIff(keysByLocale: map<Locale, set<MessageKey>>)
    ensures |LocalesByKey(keysByLocale)| == 0 <==> forall l :: l in keysByLocale ==> keysByLocale[l] == {}
  {
    var r := LocalesByKey(keysByLocale);
    if l :| l in keysByLocale && keysByLocale[l] != {} {
      var k :| k in keysByLocale[l];
      assert k in r;
    }
  }

  /** Every loaded bundle holds the same keys as the root bundle. */
  predicate AllMatchRoot(bundles: Bundles)
    requires Root in bundles
  {
    forall l :: l in bundles ==> bundles[l] == bundles[Root]
  }

  /**
   * The check counts nothing for a base path exactly when every loaded
   * bundle holds the same keys as the root bundle.
   */
  lemma ReportCountZeroIff(bundles: Bundles)
    requires Root in bundles
    ensures ReportOf(bundles).Count() == 0 <==> AllMatchRoot(bundles)
  {
    var referenceKeys := bundles[Root];
    var missing := MissingKeysByLocale(bundles, referenceKeys);
    var superfluous := SuperfluousKeysByLocale(bundles, referenceKeys);
    LocalesByKeyEmptyIff(missing);
    LocalesByKeyEmptyIff(superfluous);
    NoDifferencesIff(bundles);
  }

  /** No non-root bundle differs from the root bundle exactly when every bundle holds the root's keys. */
  lemma NoDifferencesIff(bundles: Bundles)
    requires Root in bundles
    ensures var missing := MissingKeysByLocale(bundles, bundles[Root]);
            var superfluous := SuperfluousKeysByLocale(bundles, bundles[Root]);
            ((forall l :: l in missing ==> missing[l] == {}) && (forall l :: l in superfluous ==> superfluous[l] == {}))
            <==> forall l :: l in bundles ==> bundles[l] == bundles[Root]
  {
    var referenceKeys := bundles[Root];
    var missing := MissingKeysByLocale(bundles, referenceKeys);
    var superfluous := SuperfluousKeysByLocale(bundles, referenceKeys);
    assert forall l :: l in missing <==> l in bundles && l != Root;
    assert forall l :: l in superfluous <==> l in bundles && l != Root;
    forall l | l in bundles && l != Root
      ensures bundles[l] == referenceKeys <==> referenceKeys - bundles[l] == {} && bundles[l] - referenceKeys == {}
    {
      assert missing[l] == referenceKeys - bundles[l] && superfluous[l] == bundles[l] - referenceKeys;
      SameKeysIff(bundles[l], referenceKeys);
    }
  }

  /** Two key sets are equal exactly when neither has a key the other lacks. */
  lemma SameKeysIff(keys: set<MessageKey>, referenceKeys: set<MessageKey>)
    ensures keys == referenceKeys <==> referenceKeys - keys == {} && keys - referenceKeys == {}
  {
    if referenceKeys - keys == {} && keys - referenceKeys == {} {
      forall k | k in keys ensures k in referenceKeys { assert k !in keys - referenceKeys; }
      forall k | k in referenceKeys ensures k in keys { assert k !in referenceKeys - keys; }
    }
  }

  /**
   * What a reported entry means: a key is listed as missing for a locale
   * exactly when the root bundle has it and that non-root bundle does not,
   * and listed as superfluous exactly when that non-root bundle has it and
   * the root bundle does not.
   */
  lemma ReportEntries(bundles: Bundles, k: MessageKey, l: Locale)
    requires Root in bundles
    ensures var report := ReportOf(bundles);
            (k in report.localesByMissingKey && l in report.localesByMissingKey[k])
            <==> l in bundles && l != Root && k in bundles[Root] && k !in bundles[l]
    ensures var report := ReportOf(bundles);
            (k in report.localesBySuperfluousKey && l in report.localesBySuperfluousKey[k])
            <==> l in bundles && l != Root && k !in bundles[Root] && k in bundles[l]
  {
    var missing := MissingKeysByLocale(bundles, bundles[Root]);
    var superfluous := SuperfluousKeysByLocale(bundles, bundles[Root]);
    assert l in missing <==> l in bundles && l != Root;
    assert l in superfluous <==> l in bundles && l != Root;
    if l in missing {
      assert missing[l] == bundles[Root] - bundles[l];
      assert superfluous[l] == bundles[l] - bundles[Root];
    }
  }
}
