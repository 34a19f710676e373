/**
 * The table builder behind `processTranslationNodes`: a flat list of
 * translation records becomes the nested resource table that i18next
 * expects, `langcode -> { translation: source -> string }`.
 *
 * The configured locale list, which the source loads from its
 * `next-i18next.config` module, is a parameter here.
 */
module Helpers {
  import opened Wrappers
  import opened Records

  /** The resources of one locale in the single `translation` namespace. */
  datatype LocaleResources = LocaleResources(translation: map<string, string>)

  /** `I18nextTranslations`: one entry per locale. */
  type I18nextTranslations = map<string, LocaleResources>

  /**
   * The failure of `translations[node.langcode].translation`: the record's
   * langcode has no entry, the lookup yields `undefined` and reading its
   * `translation` property throws a TypeError.
   */
  datatype ProcessError = UnknownLocale(langcode: string)

  function Elements(s: seq<string>): set<string>
  {
    set x | x in s
  }

  /** The source strings of the records written under langcode `l`. */
  function SourcesOf(nodes: seq<TranslationRecord>, l: string): set<string>
  {
    set i | 0 <= i < |nodes| && nodes[i].langcode == l :: nodes[i].source
  }

  /** No record after position `i` has the same langcode and source as record `i`. */
  predicate IsLastWrite(nodes: seq<TranslationRecord>, i: int)
    requires 0 <= i < |nodes|
  {
    forall j :: i < j < |nodes| ==>
      nodes[j].langcode != nodes[i].langcode || nodes[j].source != nodes[i].source
  }

  /** The table after the seeding loop has visited `locales`, in order. */
  function Seed(locales: seq<string>): I18nextTranslations
    decreases |locales|
  {
    if |locales| == 0 then map[]
    else Seed(locales[..|locales| - 1])[locales[|locales| - 1] := LocaleResources(map[])]
  }

  /**
   * One step of the record loop: `translations[langcode].translation[source] = translation`.
   * It fails when the langcode has no entry; otherwise it sets one key of one
   * locale and leaves every other locale and every other key as they were.
   */
  function Assign(t: I18nextTranslations, node: TranslationRecord): (r: Result<I18nextTranslations, ProcessError>)
    ensures r.Failure? <==> node.langcode !in t
    ensures r.Failure? ==> r.error == UnknownLocale(node.langcode)
    ensures r.Success? ==> r.value.Keys == t.Keys
    ensures r.Success? ==> forall l :: l in t && l != node.langcode ==> r.value[l] == t[l]
    ensures r.Success? ==>
      var before, after := t[node.langcode].translation, r.value[node.langcode].translation;
      && node.source in after && after[node.source] == node.translation
      && after.Keys == before.Keys + {node.source}
      && forall s :: s in before && s != node.source ==> after[s] == before[s]
  {
    if node.langcode in t then
      var entry := t[node.langcode];
      Success(t[node.langcode := LocaleResources(entry.translation[node.source := node.translation])])
    else
      Failure(UnknownLocale(node.langcode))
  }

  /** The record loop run over `nodes`, in order, from table `t`; it stops at the first failure. */
  function Apply(t: I18nextTranslations, nodes: seq<TranslationRecord>): Result<I18nextTranslations, ProcessError>
    decreases |nodes|
  {
    if |nodes| == 0 then Success(t)
    else
      match Apply(t, nodes[..|nodes| - 1])
      case Failure(e) => Failure(e)
      case Success(t') => Assign(t', nodes[|nodes| - 1])
  }

  /** What `processTranslationNodes` computes: seed every locale, then write every record. */
  function Reshaped(locales: seq<string>, nodes: seq<TranslationRecord>): Result<I18nextTranslations, ProcessError>
  {
    Apply(Seed(locales), nodes)
  }

  /** `processTranslationNodes`, as the two `forEach` loops of the source. */
  method ProcessTranslationNodes(locales: seq<string>, nodes: seq<TranslationRecord>)
    returns (r: Result<I18nextTranslations, ProcessError>)
    ensures r == Reshaped(locales, nodes)
  {
    var translations: I18nextTranslations := map[];
    for i := 0 to |locales|
      invariant translations == Seed(locales[..i])
    {
      assert locales[..i + 1][..i] == locales[..i];
      translations := translations[locales[i] := LocaleResources(map[])];
    }
    assert locales[..|locales|] == locales;
    for i := 0 to |nodes|
      invariant Apply(Seed(locales), nodes[..i]) == Success(translations)
    {
      assert nodes[..i + 1][..i] == nodes[..i];
      var node := nodes[i];
      if node.langcode !in translations {
        ApplySucceedsIff(Seed(locales), nodes[..i]);
        ApplyKeys(Seed(locales), nodes[..i]);
        assert forall j :: 0 <= j < i ==> nodes[..i][j] == nodes[j];
        ApplyFirstFailure(Seed(locales), nodes, i);
        return Failure(UnknownLocale(node.langcode));
      }
      var entry := translations[node.langcode];
      translations := translations[node.langcode := LocaleResources(entry.translation[node.source := node.translation])];
    }
    assert nodes[..|nodes|] == nodes;
    r := Success(translations);
  }

  // ---------------------------------------------------------------------------
  // Seeding

  /** After seeding, the locales are exactly the configured ones and each has an empty map. */
  lemma {:induction false} SeedSpec(locales: seq<string>)
    ensures Seed(locales).Keys == Elements(locales)
    ensures forall l :: l in Seed(locales) ==> Seed(locales)[l].translation == map[]
  {
    if |locales| > 0 {
      var init := locales[..|locales| - 1];
      SeedSpec(init);
      assert locales == init + [locales[|locales| - 1]];
      assert Elements(locales) == Elements(init) + {locales[|locales| - 1]};
    }
  }

  // ---------------------------------------------------------------------------
  // The record loop from an arbitrary table

  lemma SourcesOfSnoc(nodes: seq<TranslationRecord>, l: string)
    requires |nodes| > 0
    ensures var last := nodes[|nodes| - 1];
      SourcesOf(nodes, l) == SourcesOf(nodes[..|nodes| - 1], l) + (if last.langcode == l then {last.source} else {})
  {
  }

  /** The record loop never adds or removes a locale. */
  lemma {:induction false} ApplyKeys(t: I18nextTranslations, nodes: seq<TranslationRecord>)
    requires Apply(t, nodes).Success?
    ensures Apply(t, nodes).value.Keys == t.Keys
  {
    if |nodes| > 0 {
      ApplyKeys(t, nodes[..|nodes| - 1]);
    }
  }

  /** The record loop succeeds exactly when every record's langcode has an entry. */
  lemma {:induction false} ApplySucceedsIff(t: I18nextTranslations, nodes: seq<TranslationRecord>)
    ensures Apply(t, nodes).Success? <==> forall i :: 0 <= i < |nodes| ==> nodes[i].langcode in t
  {
    if |nodes| > 0 {
      var init := nodes[..|nodes| - 1];
      ApplySucceedsIff(t, init);
      if Apply(t, init).Success? {
        ApplyKeys(t, init);
      }
    }
  }

  /** The loop stops at the first record whose langcode has no entry and reports that langcode. */
  lemma {:induction false} ApplyFirstFailure(t: I18nextTranslations, nodes: seq<TranslationRecord>, k: int)
    requires 0 <= k < |nodes| && nodes[k].langcode !in t
    requires forall j :: 0 <= j < k ==> nodes[j].langcode in t
    ensures Apply(t, nodes) == Failure(UnknownLocale(nodes[k].langcode))
  {
    var init := nodes[..|nodes| - 1];
    if k == |nodes| - 1 {
      ApplySucceedsIff(t, init);
      ApplyKeys(t, init);
    } else {
      ApplyFirstFailure(t, init, k);
    }
  }

  /** The keys of a locale afterwards are its keys before plus the sources of its records. */
  lemma {:induction false} ApplySources(t: I18nextTranslations, nodes: seq<TranslationRecord>, l: string)
    requires Apply(t, nodes).Success? && l in t
    ensures l in Apply(t, nodes).value
    ensures Apply(t, nodes).value[l].translation.Keys == t[l].translation.Keys + SourcesOf(nodes, l)
  {
    ApplyKeys(t, nodes);
    if |nodes| > 0 {
      var init := nodes[..|nodes| - 1];
      ApplySources(t, init, l);
      ApplyKeys(t, init);
      SourcesOfSnoc(nodes, l);
    }
  }

  /** A record that no later record overrides determines the value stored under its key. */
  lemma {:induction false} ApplyLastWrite(t: I18nextTranslations, nodes: seq<TranslationRecord>, i: int)
    requires Apply(t, nodes).Success? && 0 <= i < |nodes| && IsLastWrite(nodes, i)
    ensures nodes[i].langcode in Apply(t, nodes).value
    ensures var entry := Apply(t, nodes).value[nodes[i].langcode].translation;
      nodes[i].source in entry && entry[nodes[i].source] == nodes[i].translation
  {
    var init := nodes[..|nodes| - 1];
    var last := nodes[|nodes| - 1];
    ApplyKeys(t, nodes);
    ApplyKeys(t, init);
    if i < |nodes| - 1 {
      assert IsLastWrite(init, i);
      ApplyLastWrite(t, init, i);
    }
  }

  // ---------------------------------------------------------------------------
  // processTranslationNodes

  /** Processing fails exactly when some record's langcode is not a configured locale. */
  lemma ReshapedFailsIff(locales: seq<string>, nodes: seq<TranslationRecord>)
    ensures Reshaped(locales, nodes).Failure? <==> exists i :: 0 <= i < |nodes| && nodes[i].langcode !in locales
  {
    SeedSpec(locales);
    ApplySucceedsIff(Seed(locales), nodes);
  }

  /** The error names the langcode of the first record whose locale is not configured. */
  lemma ReshapedFirstFailure(locales: seq<string>, nodes: seq<TranslationRecord>, k: int)
    requires 0 <= k < |nodes| && nodes[k].langcode !in locales
    requires forall j :: 0 <= j < k ==> nodes[j].langcode in locales
    ensures Reshaped(locales, nodes) == Failure(UnknownLocale(nodes[k].langcode))
  {
    SeedSpec(locales);
    ApplyFirstFailure(Seed(locales), nodes, k);
  }

  /** The table's locales are exactly the configured ones; records add none. */
  lemma ReshapedLocales(locales: seq<string>, nodes: seq<TranslationRecord>)
    requires Reshaped(locales, nodes).Success?
    ensures Reshaped(locales, nodes).value.Keys == Elements(locales)
  {
    SeedSpec(locales);
    ApplyKeys(Seed(locales), nodes);
  }

  /** Each locale's keys are exactly the sources of the records with that langcode. */
  lemma ReshapedSources(locales: seq<string>, nodes: seq<TranslationRecord>, l: string)
    requires Reshaped(locales, nodes).Success? && l in locales
    ensures l in Reshaped(locales, nodes).value
    ensures Reshaped(locales, nodes).value[l].translation.Keys == SourcesOf(nodes, l)
  {
    SeedSpec(locales);
    ApplySources(Seed(locales), nodes, l);
  }

  /** Last write wins: the stored value is the translation of the last record with that langcode and source. */
  lemma ReshapedLastWrite(locales: seq<string>, nodes: seq<TranslationRecord>, i: int)
    requires Reshaped(locales, nodes).Success? && 0 <= i < |nodes| && IsLastWrite(nodes, i)
    ensures nodes[i].langcode in Reshaped(locales, nodes).value
    ensures var entry := Reshaped(locales, nodes).value[nodes[i].langcode].translation;
      nodes[i].source in entry && entry[nodes[i].source] == nodes[i].translation
  {
    ApplyLastWrite(Seed(locales), nodes, i);
  }

  /** A configured locale that no record names keeps an empty map. */
  lemma ReshapedUnusedLocale(locales: seq<string>, nodes: seq<TranslationRecord>, l: string)
    requires Reshaped(locales, nodes).Success? && l in locales
    requires forall i :: 0 <= i < |nodes| ==> nodes[i].langcode != l
    ensures l in Reshaped(locales, nodes).value
    ensures Reshaped(locales, nodes).value[l].translation == map[]
  {
    ReshapedSources(locales, nodes, l);
  }

  /** Locales `["en", "fr"]` and the single record hello/bonjour/fr. */
  lemma ReshapedExample()
    ensures Reshaped(["en", "fr"], [TranslationRecord("hello", "bonjour", "fr")])
         == Success(map["en" := LocaleResources(map[]), "fr" := LocaleResources(map["hello" := "bonjour"])])
  {
    var locales := ["en", "fr"];
    assert locales[..1] == ["en"] && locales[..1][..0] == [];
    var seeded := map["en" := LocaleResources(map[]), "fr" := LocaleResources(map[])];
    assert Seed(locales) == seeded;
    var nodes := [TranslationRecord("hello", "bonjour", "fr")];
    assert nodes[..0] == [];
    assert Apply(seeded, nodes) == Assign(seeded, nodes[0]);
    assert seeded["fr" := LocaleResources(map["hello" := "bonjour"])]
        == map["en" := LocaleResources(map[]), "fr" := LocaleResources(map["hello" := "bonjour"])];
  }
}
