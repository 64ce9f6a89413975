/** The menu-language selector table of language_utils.py:24-30 and the
    options the upload form offers (app.py:33-36). */
module Languages {
  import opened Schema

  /** Selector label to language code. */
  const LanguageMap: map<string, string> := map[
    "Inglês Britânico" := "En",
    "Português Europeu" := "Pt",
    "Francês Europeu" := "Fr",
    "Alemão (Alemanha)" := "De",
    "Espanhol Europeu" := "Es"
  ]

  /** The labels of the form's language select box, in display order. */
  const SelectorOptions: seq<string> :=
    ["Inglês Britânico", "Português Europeu", "Francês Europeu", "Alemão (Alemanha)", "Espanhol Europeu"]

  /** The map's values in its insertion order, as `language_map.values()` yields them. */
  const MapCodes: seq<string> := ["En", "Pt", "Fr", "De", "Es"]

  /** The codes of all five supported languages. */
  ghost const AllCodes: set<string> := set l: Lang | true :: Code(l)

  /** Position of `l` in the select box and in `MapCodes`. */
  function LangIndex(l: Lang): (i: nat)
    ensures i < 5 && MapCodes[i] == Code(l) && Langs[i] == l
  {
    match l
    case En => 0
    case Pt => 1
    case Fr => 2
    case De => 3
    case Es => 4
  }

  ghost predicate Injective<K, V>(m: map<K, V>) {
    forall a, b :: a in m && b in m && a != b ==> m[a] != m[b]
  }

  /** The table is a bijection from five labels onto the five codes, and
      every label the form offers is one of its keys. */
  lemma LanguageMapIsBijection()
    ensures |LanguageMap| == 5
    ensures Injective(LanguageMap)
    ensures LanguageMap.Values == AllCodes
    ensures LanguageMap.Keys == set o | o in SelectorOptions
    ensures forall i :: 0 <= i < |MapCodes| ==> MapCodes[i] in LanguageMap.Values
    ensures LanguageMap.Values == set c | c in MapCodes
  {
    assert Code(En) in AllCodes && Code(Pt) in AllCodes && Code(Fr) in AllCodes;
    assert Code(De) in AllCodes && Code(Es) in AllCodes;
    forall c | c in AllCodes ensures c in LanguageMap.Values {
      var l: Lang :| Code(l) == c;
      assert LanguageMap[SelectorOptions[LangIndex(l)]] == c;
    }
  }
}
