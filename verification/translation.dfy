/** `translate_text` and `fill_translations` (translation.py): every blank
    target-language cell of every translatable field with a non-blank
    default value is filled from a memo cache keyed by (text, target
    language), the translation model being asked only on a cache miss.

    The model is the parameter `llm`; the module-level cache is threaded
    through every call as part of a `Tally`, which also counts the
    `translate_text` requests and the model calls made. */
module Translation {
  import opened Wrappers
  import opened Text
  import opened Schema
  import opened Languages

  /** (text, target language name) to translated text. */
  type Cache = map<(string, string), string>

  /** The translation model: (source language name, target language name,
      text) to its raw reply. */
  type Oracle = (string, string, string) -> string

  /** The cache after a run, with the number of `translate_text` requests
      and of model calls made so far. */
  datatype Tally = Tally(cache: Cache, requests: nat, calls: nat)

  /** The result of one `translate_text` call and whether it asked the model. */
  datatype Memo = Memo(text: string, cache: Cache, called: bool)

  datatype FillError =
    | UnknownLanguage(selection: string)   // `language_map[menu_language]` raised KeyError
    | MissingColumn(column: Column)    // `row[col]` raised KeyError

  /** `code_to_full` (translation.py:38). */
  const CodeToFull: map<string, string> :=
    map["En" := "English", "Pt" := "Portuguese", "Fr" := "French", "De" := "German", "Es" := "Spanish"]

  /** The code list each family's target columns are zipped with (translation.py:43). */
  const TargetCodes: seq<string> := ["En", "Pt", "Fr", "De", "Es"]

  /** A family's five target columns, in code order. */
  function TargetsOf(f: Family): (r: seq<Column>)
    ensures |r| == 5 && forall j :: 0 <= j < 5 ==> r[j] == Translated(f, Langs[j])
  {
    [Translated(f, En), Translated(f, Pt), Translated(f, Fr), Translated(f, De), Translated(f, Es)]
  }

  /** `translation_columns` (translation.py:31-36), in its iteration order. */
  const TranslationColumns: seq<(Column, seq<Column>)> := [
    (Default(CategoryTitle), TargetsOf(CategoryTitle)),
    (Default(SubcategoryTitle), TargetsOf(SubcategoryTitle)),
    (Default(ItemName), TargetsOf(ItemName)),
    (Default(ItemDescription), TargetsOf(ItemDescription))
  ]

  /** The full name of a language, `code_to_full[code]`. */
  function LangName(l: Lang): string {
    CodeToFull[Code(l)]
  }

  /** Every map value, and so every code `fill_translations` looks up, has a full name. */
  lemma CodesHaveNames()
    ensures forall c :: c in LanguageMap.Values ==> c in CodeToFull
    ensures forall j :: 0 <= j < |TargetCodes| ==> TargetCodes[j] in CodeToFull
    ensures CodeToFull.Keys == LanguageMap.Values
    ensures forall j :: 0 <= j < |TargetCodes| ==> TargetCodes[j] == Code(Langs[j])
  {
    LanguageMapIsBijection();
    assert TargetCodes == MapCodes;
    forall j | 0 <= j < |TargetCodes| ensures TargetCodes[j] == Code(Langs[j]) {
      assert j == 0 || j == 1 || j == 2 || j == 3 || j == 4;
    }
  }

  /** `[lang for lang in language_map.values() if lang != src_code]`
      (translation.py:29): for a source code of the map, the other four
      codes. The source computes it but never reads it. */
  function TargetLangs(src: string): (r: seq<string>)
    ensures src in LanguageMap.Values ==> |r| == 4
    ensures forall c :: c in r <==> c in MapCodes && c != src
  {
    LanguageMapIsBijection();
    assert Distinct(MapCodes);
    FilterLength(MapCodes, src);
    Filter(MapCodes, src)
  }

  function Filter(s: seq<string>, x: string): (r: seq<string>)
    ensures forall c :: c in r <==> c in s && c != x
  {
    if |s| == 0 then [] else (if s[0] == x then [] else [s[0]]) + Filter(s[1..], x)
  }

  /** Filtering one value out of a list without repeats removes one element
      if the value is there and none otherwise. */
  lemma {:induction false} FilterLength(s: seq<string>, x: string)
    requires Distinct(s)
    ensures |Filter(s, x)| == if x in s then |s| - 1 else |s|
  {
    if |s| > 0 {
      assert Distinct(s[1..]) by {
        forall i, j | 0 <= i < j < |s[1..]| ensures s[1..][i] != s[1..][j] {
          assert s[1..][i] == s[i + 1] && s[1..][j] == s[j + 1];
        }
      }
      FilterLength(s[1..], x);
      if s[0] == x {
        assert x !in s[1..] by {
          forall j | 0 <= j < |s[1..]| ensures s[1..][j] != x { assert s[1..][j] == s[j + 1]; }
        }
      }
    }
  }

  /** `translate_text(text, src, tgt)` against `cache`. A hit returns the
      cached value and asks nothing; a miss asks the model once and stores
      its stripped reply under (text, tgt), leaving every other entry alone. */
  function TranslateText(cache: Cache, text: string, src: string, tgt: string, llm: Oracle): (m: Memo)
    ensures (text, tgt) in m.cache && m.cache[(text, tgt)] == m.text
    ensures m.called <==> (text, tgt) !in cache
    ensures m.called ==> m.text == Strip(llm(src, tgt, text)) && m.cache == cache[(text, tgt) := m.text]
    ensures !m.called ==> m.cache == cache
  {
    var key := (text, tgt);
    if key in cache then Memo(cache[key], cache, false)
    else
      var t := Strip(llm(src, tgt, text));
      Memo(t, cache[key := t], true)
  }

  /** A repeat of a call is a hit returning the same text. */
  lemma TranslateRepeatHits(cache: Cache, text: string, src: string, tgt: string, llm: Oracle)
    ensures var m := TranslateText(cache, text, src, tgt, llm);
            TranslateText(m.cache, text, src, tgt, llm) == Memo(m.text, m.cache, false)
  {
  }

  /** The key leaves out the source language: once (text, tgt) is cached, a
      call naming any other source language gets the same text, with no call. */
  lemma TranslateIgnoresSource(cache: Cache, text: string, src: string, src2: string, tgt: string, llm: Oracle)
    ensures var m := TranslateText(cache, text, src, tgt, llm);
            TranslateText(m.cache, text, src2, tgt, llm).text == m.text
            && !TranslateText(m.cache, text, src2, tgt, llm).called
  {
  }

  /** Python's `str(cell)`; a NaN prints as "nan". */
  function Str(cell: Cell): string {
    match cell
    case None => "nan"
    case Some(s) => s
  }

  /** Python truthiness of a cell: NaN is truthy, "" is not. */
  predicate Truthy(cell: Cell) {
    cell.None? || cell.value != ""
  }

  /** `row[default_col] and str(row[default_col]).strip()` (translation.py:42). */
  predicate Eligible(cell: Cell) {
    Truthy(cell) && Strip(Str(cell)) != ""
  }

  /** `pd.isna(cell) or not str(cell).strip()` (translation.py:44). */
  predicate Blank(cell: Cell) {
    cell.None? || Strip(cell.value) == ""
  }

  /** A text cell is eligible as a default exactly when it is not blank as a
      target; a NaN cell is both, since `str(nan)` is "nan". */
  lemma EligibleBlank(cell: Cell)
    ensures cell.Some? ==> (Eligible(cell) <==> !Blank(cell))
    ensures cell.None? ==> Eligible(cell) && Blank(cell)
  {
    if cell.Some? {
      StripEmptyIff("");
    } else {
      StripNonSpaceStart(Str(cell));
    }
  }

  /** A string starting with a non-space character does not strip to "". */
  lemma StripNonSpaceStart(s: string)
    requires |s| > 0 && !IsSpace(s[0])
    ensures Strip(s) != ""
  {
    StripEmptyIff(s);
  }

  /** The cache grew from `t` to `t'` without losing or changing an entry;
      every new entry is the stripped reply of the model asked from `srcName`;
      each model call added exactly one entry and was made by a request. */
  ghost predicate Grows(t: Tally, t': Tally, srcName: string, llm: Oracle) {
    && t.cache.Keys <= t'.cache.Keys
    && (forall k :: k in t.cache ==> t'.cache[k] == t.cache[k])
    && (forall k :: k in t'.cache && k !in t.cache ==> t'.cache[k] == Strip(llm(srcName, k.1, k.0)))
    && t.requests <= t'.requests
    && t'.calls - t.calls == |t'.cache| - |t.cache|
    && t'.calls - t.calls <= t'.requests - t.requests
  }

  lemma GrowsTrans(t1: Tally, t2: Tally, t3: Tally, srcName: string, llm: Oracle)
    requires Grows(t1, t2, srcName, llm) && Grows(t2, t3, srcName, llm)
    ensures Grows(t1, t3, srcName, llm)
  {
  }

  /** `fill_translations` writes `snap[c]`'s column `c` in a row read as
      `snap`: a translated column of a code other than the source, whose
      family's default cell is non-blank and which is itself blank. */
  ghost predicate Fills(snap: Row, src: string, c: Column) {
    && c.Translated? && Code(c.lang) != src
    && c in snap && Default(c.family) in snap
    && Eligible(snap[Default(c.family)]) && Blank(snap[c])
  }

  /** The cache key of the request that fills `c`. */
  function KeyOf(snap: Row, c: Column): (string, string)
    requires c.Translated? && Default(c.family) in snap
  {
    (Str(snap[Default(c.family)]), LangName(c.lang))
  }

  /** The columns of a list of (column, code) pairs. */
  function ColsOf(pairs: seq<(Column, string)>): set<Column> {
    if |pairs| == 0 then {} else {pairs[0].0} + ColsOf(pairs[1..])
  }

  /** The default columns of a list of `translation_columns` items. */
  function DefaultsOf(items: seq<(Column, seq<Column>)>): set<Column> {
    if |items| == 0 then {} else {items[0].0} + DefaultsOf(items[1..])
  }

  /** The pairs `zip(target_cols, codes)`. */
  function Zip(cols: seq<Column>, codes: seq<string>): (r: seq<(Column, string)>)
    ensures |r| == if |cols| < |codes| then |cols| else |codes|
    ensures forall j :: 0 <= j < |r| ==> r[j] == (cols[j], codes[j])
  {
    if |cols| == 0 || |codes| == 0 then [] else [(cols[0], codes[0])] + Zip(cols[1..], codes[1..])
  }

  /** Whether the inner loop asks for target column `c`: a translated
      column of a code other than the source, present and blank. */
  ghost predicate Pending(snap: Row, src: string, c: Column) {
    c.Translated? && Code(c.lang) != src && c in snap && Blank(snap[c])
  }

  /** How many of `pairs` the inner loop sends a request for, counting a
      repeated column once per occurrence. */
  ghost function PendingCount(snap: Row, src: string, pairs: seq<(Column, string)>): nat
    decreases |pairs|
  {
    if |pairs| == 0 then 0
    else (if Pending(snap, src, pairs[0].0) then 1 else 0) + PendingCount(snap, src, pairs[1..])
  }

  /** The pending columns among `pairs`. */
  ghost function PendingCols(snap: Row, src: string, pairs: seq<(Column, string)>): set<Column> {
    set c | c in ColsOf(pairs) && Pending(snap, src, c)
  }

  /** `row'` and `t'` are what filling, with the translation of `text`,
      every pending column of `cols` makes of `row` and `t`: those cells
      hold the cached translation, every other cell is untouched, the cache
      only grew and only by keys (text, name of a pending column's
      language), and nothing was requested when nothing was pending. */
  ghost predicate TargetsFilled(snap: Row, row: Row, row': Row, text: string, src: string, cols: set<Column>,
                                t: Tally, t': Tally, llm: Oracle)
    requires src in CodeToFull
  {
    && row'.Keys == row.Keys && Grows(t, t', CodeToFull[src], llm)
    && (forall c :: c in row ==>
          if c in cols && Pending(snap, src, c)
          then (text, LangName(c.lang)) in t'.cache && row'[c] == Some(t'.cache[(text, LangName(c.lang))])
          else row'[c] == row[c])
    && (forall k :: k in t'.cache && k !in t.cache ==>
          k.0 == text && exists c :: c in cols && Pending(snap, src, c) && k.1 == LangName(c.lang))
    && ((forall c :: !(c in cols && Pending(snap, src, c))) ==> t'.requests == t.requests)
  }

  /** A column that is not pending adds nothing to fill. */
  lemma TargetsSkip(snap: Row, row: Row, row': Row, text: string, src: string, col: Column, cols: set<Column>,
                    t: Tally, t': Tally, llm: Oracle)
    requires src in CodeToFull && !Pending(snap, src, col)
    requires TargetsFilled(snap, row, row', text, src, cols, t, t', llm)
    ensures TargetsFilled(snap, row, row', text, src, {col} + cols, t, t', llm)
  {
  }

  /** One `translate_text` request for a pending column fills it. */
  lemma TargetsOne(snap: Row, row: Row, text: string, src: string, col: Column, tally: Tally, llm: Oracle)
    requires src in CodeToFull && Pending(snap, src, col) && row.Keys == snap.Keys
    ensures var m := TranslateText(tally.cache, text, CodeToFull[src], LangName(col.lang), llm);
            var tally' := Tally(m.cache, tally.requests + 1, tally.calls + if m.called then 1 else 0);
            TargetsFilled(snap, row, row[col := Some(m.text)], text, src, {col}, tally, tally', llm)
  {
    TranslateGrows(tally, text, CodeToFull[src], LangName(col.lang), llm);
    assert col in {col};
  }

  /** A `translate_text` request grows the cache as `Grows` allows. */
  lemma TranslateGrows(tally: Tally, text: string, srcName: string, tgt: string, llm: Oracle)
    ensures var m := TranslateText(tally.cache, text, srcName, tgt, llm);
            var tally' := Tally(m.cache, tally.requests + 1, tally.calls + if m.called then 1 else 0);
            && Grows(tally, tally', srcName, llm)
            && forall k :: k in m.cache && k !in tally.cache ==> k == (text, tgt)
  {
    var m := TranslateText(tally.cache, text, srcName, tgt, llm);
    if m.called {
      assert |m.cache| == |tally.cache| + 1;
    }
  }

  /** Filling one column and then those of `cols` fills both. */
  lemma TargetsThen(snap: Row, row: Row, row1: Row, row': Row, text: string, src: string, col: Column, cols: set<Column>,
                    t: Tally, t1: Tally, t': Tally, llm: Oracle)
    requires src in CodeToFull
    requires TargetsFilled(snap, row, row1, text, src, {col}, t, t1, llm)
    requires TargetsFilled(snap, row1, row', text, src, cols, t1, t', llm)
    ensures TargetsFilled(snap, row, row', text, src, {col} + cols, t, t', llm)
  {
    GrowsTrans(t, t1, t', CodeToFull[src], llm);
  }

  /** Every pair the loop reads exists iff the first one's does and every
      one of the rest's does. */
  lemma PairsUncons(snap: Row, src: string, pairs: seq<(Column, string)>)
    requires |pairs| > 0
    ensures (forall j :: 0 <= j < |pairs| && pairs[j].1 != src ==> pairs[j].0 in snap)
            <==> (pairs[0].1 != src ==> pairs[0].0 in snap)
                 && forall j :: 0 <= j < |pairs[1..]| && pairs[1..][j].1 != src ==> pairs[1..][j].0 in snap
  {
    if forall j :: 0 <= j < |pairs[1..]| && pairs[1..][j].1 != src ==> pairs[1..][j].0 in snap {
      forall j | 1 <= j < |pairs| && pairs[j].1 != src ensures pairs[j].0 in snap {
        assert pairs[1..][j - 1] == pairs[j];
      }
    }
  }

  /** The inner loop over one family's (target column, code) pairs
      (translation.py:43-46), with `text` the family's default value. */
  function FillTargets(snap: Row, row: Row, text: string, src: string, pairs: seq<(Column, string)>,
                       tally: Tally, llm: Oracle): (r: Result<(Row, Tally), Column>)
    requires src in CodeToFull && row.Keys == snap.Keys
    requires forall j :: 0 <= j < |pairs| ==> pairs[j].0.Translated? && pairs[j].1 == Code(pairs[j].0.lang)
    ensures r.Ok? <==> forall j :: 0 <= j < |pairs| && pairs[j].1 != src ==> pairs[j].0 in snap
    ensures r.Ok? ==> TargetsFilled(snap, row, r.value.0, text, src, ColsOf(pairs), tally, r.value.1, llm)
    ensures r.Ok? ==> r.value.1.requests == tally.requests + PendingCount(snap, src, pairs)
    decreases |pairs|
  {
    if |pairs| == 0 then Ok((row, tally))
    else
      var col := pairs[0].0;
      var code := pairs[0].1;
      PairsUncons(snap, src, pairs);
      if code == src || (col in snap && !Blank(snap[col])) then
        var r := FillTargets(snap, row, text, src, pairs[1..], tally, llm);
        if r.Ok? then
          TargetsSkip(snap, row, r.value.0, text, src, col, ColsOf(pairs[1..]), tally, r.value.1, llm);
          r
        else r
      else if col !in snap then Err(col)
      else
        var m := TranslateText(tally.cache, text, CodeToFull[src], LangName(col.lang), llm);
        var tally' := Tally(m.cache, tally.requests + 1, tally.calls + if m.called then 1 else 0);
        var r := FillTargets(snap, row[col := Some(m.text)], text, src, pairs[1..], tally', llm);
        if r.Ok? then
          TargetsOne(snap, row, text, src, col, tally, llm);
          TargetsThen(snap, row, row[col := Some(m.text)], r.value.0, text, src, col, ColsOf(pairs[1..]),
                      tally, tally', r.value.1, llm);
          r
        else r
  }

  /** The membership test behind `ColsOf`. */
  lemma {:induction false} ColsOfIndex(pairs: seq<(Column, string)>, c: Column)
    ensures c in ColsOf(pairs) <==> exists j :: 0 <= j < |pairs| && pairs[j].0 == c
    decreases |pairs|
  {
    if |pairs| > 0 {
      ColsOfIndex(pairs[1..], c);
      if c in ColsOf(pairs[1..]) {
        var j :| 0 <= j < |pairs[1..]| && pairs[1..][j].0 == c;
        assert pairs[j + 1].0 == c;
      }
      if exists j :: 0 <= j < |pairs| && pairs[j].0 == c {
        var j :| 0 <= j < |pairs| && pairs[j].0 == c;
        if j > 0 { assert pairs[1..][j - 1].0 == c; }
      }
    }
  }

  /** With no column repeated, the requests of an inner loop are its
      pending columns, one each. */
  lemma {:induction false} PendingCountCard(snap: Row, src: string, pairs: seq<(Column, string)>)
    requires forall i, j :: 0 <= i < j < |pairs| ==> pairs[i].0 != pairs[j].0
    ensures PendingCount(snap, src, pairs) == |PendingCols(snap, src, pairs)|
    decreases |pairs|
  {
    if |pairs| > 0 {
      var rest := pairs[1..];
      DistinctCons(pairs);
      PendingCountCard(snap, src, rest);
      PendingColsCons(snap, src, pairs);
    }
  }

  /** The tail of a repetition-free pair list is repetition-free, and does
      not hold the head's column. */
  lemma DistinctCons(pairs: seq<(Column, string)>)
    requires |pairs| > 0 && forall i, j :: 0 <= i < j < |pairs| ==> pairs[i].0 != pairs[j].0
    ensures forall i, j :: 0 <= i < j < |pairs[1..]| ==> pairs[1..][i].0 != pairs[1..][j].0
    ensures pairs[0].0 !in ColsOf(pairs[1..])
  {
    var rest := pairs[1..];
    forall i, j | 0 <= i < j < |rest| ensures rest[i].0 != rest[j].0 {
      assert rest[i] == pairs[i + 1] && rest[j] == pairs[j + 1];
    }
    forall j | 0 <= j < |rest| ensures rest[j].0 != pairs[0].0 {
      assert rest[j] == pairs[j + 1];
    }
    ColsOfIndex(rest, pairs[0].0);
  }

  /** The pending columns of a pair list: the head's, if pending, and the tail's. */
  lemma PendingColsCons(snap: Row, src: string, pairs: seq<(Column, string)>)
    requires |pairs| > 0 && pairs[0].0 !in ColsOf(pairs[1..])
    ensures |PendingCols(snap, src, pairs)|
            == (if Pending(snap, src, pairs[0].0) then 1 else 0) + |PendingCols(snap, src, pairs[1..])|
  {
    var head: set<Column> := if Pending(snap, src, pairs[0].0) then {pairs[0].0} else {};
    var tail := PendingCols(snap, src, pairs[1..]);
    assert PendingCols(snap, src, pairs) == head + tail;
    assert head * tail == {};
  }

  /** No target column of a family appears twice among its pairs. */
  lemma ZipDistinct(f: Family)
    ensures var pairs := Zip(TargetsOf(f), TargetCodes);
            forall i, j :: 0 <= i < j < |pairs| ==> pairs[i].0 != pairs[j].0
  {
    var pairs := Zip(TargetsOf(f), TargetCodes);
    forall i, j | 0 <= i < j < |pairs| ensures pairs[i].0 != pairs[j].0 {
      assert pairs[i].0 == Translated(f, Langs[i]) && pairs[j].0 == Translated(f, Langs[j]);
    }
  }

  /** The pairs `zip(target_cols, codes)` of family `f` are its five
      translated columns, each with its own code. */
  ghost predicate FamilyPairsOk(f: Family) {
    var pairs := Zip(TargetsOf(f), TargetCodes);
    && (forall j :: 0 <= j < |pairs| ==> pairs[j].0.Translated? && pairs[j].1 == Code(pairs[j].0.lang))
    && (forall c :: c in ColsOf(pairs) <==> c.Translated? && c.family == f)
    && (forall l: Lang :: pairs[LangIndex(l)] == (Translated(f, l), Code(l)))
  }

  lemma FamilyPairs(f: Family)
    ensures FamilyPairsOk(f)
  {
    CodesHaveNames();
    var pairs := Zip(TargetsOf(f), TargetCodes);
    forall c ensures c in ColsOf(pairs) <==> c.Translated? && c.family == f {
      ColsOfIndex(pairs, c);
      if c.Translated? && c.family == f {
        assert pairs[LangIndex(c.lang)].0 == c;
      }
    }
  }

  /** Whether every column the loop reads for family `f` exists: its default
      column, and, when that holds a non-blank value, the target column of
      every code other than the source. */
  ghost predicate FamilyReady(snap: Row, src: string, f: Family) {
    Default(f) in snap && (Eligible(snap[Default(f)]) ==> TargetsPresent(snap, src, f))
  }

  /** Whether family `f` has a target column for every code other than the source. */
  ghost predicate TargetsPresent(snap: Row, src: string, f: Family) {
    forall l: Lang :: Code(l) != src ==> Translated(f, l) in snap
  }

  /** One iteration of the loop over `translation_columns` (translation.py:41-46). */
  function FillFamily(snap: Row, row: Row, src: string, item: (Column, seq<Column>), tally: Tally, llm: Oracle)
    : (r: Result<(Row, Tally), Column>)
    requires src in CodeToFull && row.Keys == snap.Keys
    requires item.0.Default? && item.1 == TargetsOf(item.0.family)
    ensures r.Ok? <==> FamilyReady(snap, src, item.0.family)
    ensures r.Ok? ==> Filled(snap, row, r.value.0, src, {item.0}, tally, r.value.1, llm)
    ensures r.Ok? ==> r.value.1.requests == tally.requests + |Selected(snap, src, {item.0})|
  {
    var f := item.0.family;
    if item.0 !in snap then Err(item.0)
    else if Eligible(snap[item.0]) then
      PairsWellFormed(f);
      var r := FillTargets(snap, row, Str(snap[item.0]), src, Zip(item.1, TargetCodes), tally, llm);
      EligibleFamily(snap, row, src, f, tally, llm);
      FamilyCount(snap, src, f);
      r
    else
      FilledNothing(snap, row, src, {item.0}, tally, llm);
      assert Selected(snap, src, {item.0}) == {};
      Ok((row, tally))
  }

  /** The cells `Fills` selects in row `snap` whose family's default column
      is in `defaults`. */
  ghost function Selected(snap: Row, src: string, defaults: set<Column>): set<Column> {
    set c | c in snap && Fills(snap, src, c) && Default(c.family) in defaults
  }

  /** With family `f`'s default non-blank, its inner loop sends one request
      per cell the fill selects in the family. */
  lemma FamilyCount(snap: Row, src: string, f: Family)
    requires Default(f) in snap && Eligible(snap[Default(f)])
    ensures PendingCount(snap, src, Zip(TargetsOf(f), TargetCodes)) == |Selected(snap, src, {Default(f)})|
  {
    var pairs := Zip(TargetsOf(f), TargetCodes);
    FamilySelection(snap, src, f);
    ZipDistinct(f);
    PendingCountCard(snap, src, pairs);
    assert PendingCols(snap, src, pairs) == Selected(snap, src, {Default(f)});
  }

  /** A family whose default is present and non-blank: its inner loop
      succeeds iff its target columns are present, and then fills it. */
  lemma EligibleFamily(snap: Row, row: Row, src: string, f: Family, tally: Tally, llm: Oracle)
    requires src in CodeToFull && row.Keys == snap.Keys
    requires Default(f) in snap && Eligible(snap[Default(f)]) && PairsOk(f)
    ensures var r := FillTargets(snap, row, Str(snap[Default(f)]), src, Zip(TargetsOf(f), TargetCodes), tally, llm);
            && (r.Ok? <==> TargetsPresent(snap, src, f))
            && (r.Ok? ==> Filled(snap, row, r.value.0, src, {Default(f)}, tally, r.value.1, llm))
  {
    EligibleReady(snap, row, src, f, tally, llm);
    EligibleFilled(snap, row, src, f, tally, llm);
  }

  /** The success half of `EligibleFamily`. */
  lemma EligibleReady(snap: Row, row: Row, src: string, f: Family, tally: Tally, llm: Oracle)
    requires src in CodeToFull && row.Keys == snap.Keys && Default(f) in snap && PairsOk(f)
    ensures var r := FillTargets(snap, row, Str(snap[Default(f)]), src, Zip(TargetsOf(f), TargetCodes), tally, llm);
            r.Ok? <==> TargetsPresent(snap, src, f)
  {
    TargetsPresentIff(snap, src, f);
  }

  /** The filling half of `EligibleFamily`. */
  lemma EligibleFilled(snap: Row, row: Row, src: string, f: Family, tally: Tally, llm: Oracle)
    requires src in CodeToFull && row.Keys == snap.Keys
    requires Default(f) in snap && Eligible(snap[Default(f)]) && PairsOk(f)
    ensures var r := FillTargets(snap, row, Str(snap[Default(f)]), src, Zip(TargetsOf(f), TargetCodes), tally, llm);
            r.Ok? ==> Filled(snap, row, r.value.0, src, {Default(f)}, tally, r.value.1, llm)
  {
    var text := Str(snap[Default(f)]);
    var pairs := Zip(TargetsOf(f), TargetCodes);
    var r := FillTargets(snap, row, text, src, pairs, tally, llm);
    if r.Ok? {
      FamilyFilled(snap, row, r.value.0, src, f, tally, r.value.1, llm);
    }
  }

  /** Filling the pending columns of family `f`'s pairs fills the cells
      `Fills` selects in the family. */
  lemma FamilyFilled(snap: Row, row: Row, row': Row, src: string, f: Family, t: Tally, t': Tally, llm: Oracle)
    requires src in CodeToFull && Default(f) in snap && Eligible(snap[Default(f)])
    requires TargetsFilled(snap, row, row', Str(snap[Default(f)]), src, ColsOf(Zip(TargetsOf(f), TargetCodes)), t, t', llm)
    ensures Filled(snap, row, row', src, {Default(f)}, t, t', llm)
  {
    FamilySelection(snap, src, f);
    TargetsToFilled(snap, row, row', Str(snap[Default(f)]), src, ColsOf(Zip(TargetsOf(f), TargetCodes)),
                    {Default(f)}, t, t', llm);
  }

  /** When no cell is selected, leaving the row and the tally alone fills it. */
  lemma FilledNothing(snap: Row, row: Row, src: string, defaults: set<Column>, tally: Tally, llm: Oracle)
    requires src in CodeToFull
    requires forall c :: !(Fills(snap, src, c) && Default(c.family) in defaults)
    ensures Filled(snap, row, row, src, defaults, tally, tally, llm)
  {
  }

  /** Family `f`'s target columns are present iff every pair its inner
      loop reads is. */
  lemma TargetsPresentIff(snap: Row, src: string, f: Family)
    ensures TargetsPresent(snap, src, f) ==>
              var pairs := Zip(TargetsOf(f), TargetCodes);
              forall j :: 0 <= j < |pairs| && pairs[j].1 != src ==> pairs[j].0 in snap
    ensures !TargetsPresent(snap, src, f) ==>
              var pairs := Zip(TargetsOf(f), TargetCodes);
              !forall j :: 0 <= j < |pairs| && pairs[j].1 != src ==> pairs[j].0 in snap
  {
    CodesHaveNames();
    var pairs := Zip(TargetsOf(f), TargetCodes);
    assert forall j :: 0 <= j < |pairs| ==> pairs[j] == (Translated(f, Langs[j]), Code(Langs[j]));
    if TargetsPresent(snap, src, f) {
      forall j | 0 <= j < |pairs| && pairs[j].1 != src ensures pairs[j].0 in snap {
        assert Code(Langs[j]) != src;
        assert Translated(f, Langs[j]) in snap;
      }
    } else {
      var l: Lang :| Code(l) != src && Translated(f, l) !in snap;
      var j := LangIndex(l);
      assert pairs[j] == (Translated(f, l), Code(l));
      assert pairs[j].1 != src && pairs[j].0 !in snap;
      assert !(forall j :: 0 <= j < |pairs| && pairs[j].1 != src ==> pairs[j].0 in snap);
      assert pairs == Zip(TargetsOf(f), TargetCodes);
      assert var p := Zip(TargetsOf(f), TargetCodes); !forall j :: 0 <= j < |p| && p[j].1 != src ==> p[j].0 in snap;
    }
  }

  /** With family `f`'s default present and non-blank, the pending columns
      of its pairs are the cells `Fills` selects in the family, and the
      inner loop's key for each is `KeyOf`. */
  lemma FamilySelection(snap: Row, src: string, f: Family)
    requires Default(f) in snap && Eligible(snap[Default(f)])
    ensures forall c :: (c in ColsOf(Zip(TargetsOf(f), TargetCodes)) && Pending(snap, src, c))
                        <==> (Fills(snap, src, c) && Default(c.family) in {Default(f)})
    ensures forall c :: Fills(snap, src, c) && Default(c.family) in {Default(f)} ==>
              KeyOf(snap, c) == (Str(snap[Default(f)]), LangName(c.lang))
  {
    FamilyPairs(f);
  }

  /** Each pair of `zip(target_cols, codes)` is a translated column with its own code. */
  ghost predicate PairsOk(f: Family) {
    var pairs := Zip(TargetsOf(f), TargetCodes);
    forall j :: 0 <= j < |pairs| ==> pairs[j].0.Translated? && pairs[j].1 == Code(pairs[j].0.lang)
  }

  lemma PairsWellFormed(f: Family)
    ensures PairsOk(f)
  {
    CodesHaveNames();
  }

  /** An inner loop over the cells `Fills` selects for `defaults`, keyed by
      `KeyOf`, leaves the row `Filled` for `defaults`. */
  lemma TargetsToFilled(snap: Row, row: Row, row': Row, text: string, src: string, cols: set<Column>,
                        defaults: set<Column>, t: Tally, t': Tally, llm: Oracle)
    requires src in CodeToFull
    requires TargetsFilled(snap, row, row', text, src, cols, t, t', llm)
    requires forall c :: (c in cols && Pending(snap, src, c)) <==> (Fills(snap, src, c) && Default(c.family) in defaults)
    requires forall c :: Fills(snap, src, c) && Default(c.family) in defaults ==> KeyOf(snap, c) == (text, LangName(c.lang))
    ensures Filled(snap, row, row', src, defaults, t, t', llm)
  {
    forall k | k in t'.cache && k !in t.cache
      ensures exists c :: Fills(snap, src, c) && Default(c.family) in defaults && k == KeyOf(snap, c)
    {
      var c :| c in cols && Pending(snap, src, c) && k.1 == LangName(c.lang);
      assert Fills(snap, src, c) && Default(c.family) in defaults && k == KeyOf(snap, c);
    }
  }

  /** `row'` and `t'` are what filling, in a row read as `snap`, every
      cell `Fills` selects whose family's default column is in `defaults`
      makes of `row` and `t`: the selected cells hold the cached translation
      of their family's text, every other cell is untouched, the cache only
      grew and only by keys of selected cells, and nothing was requested
      when nothing was selected. */
  ghost predicate Filled(snap: Row, row: Row, row': Row, src: string, defaults: set<Column>,
                         t: Tally, t': Tally, llm: Oracle)
    requires src in CodeToFull
  {
    && row'.Keys == row.Keys && Grows(t, t', CodeToFull[src], llm)
    && (forall c :: c in row ==>
          if Fills(snap, src, c) && Default(c.family) in defaults
          then KeyOf(snap, c) in t'.cache && row'[c] == Some(t'.cache[KeyOf(snap, c)])
          else row'[c] == row[c])
    && (forall k :: k in t'.cache && k !in t.cache ==>
          exists c :: Fills(snap, src, c) && Default(c.family) in defaults && k == KeyOf(snap, c))
    && ((forall c :: !(Fills(snap, src, c) && Default(c.family) in defaults)) ==> t'.requests == t.requests)
  }

  /** Filling one family's cells and then those of `defaults` fills both. */
  lemma FilledThen(snap: Row, row: Row, row1: Row, row': Row, src: string, d: Column, defaults: set<Column>,
                   t: Tally, t1: Tally, t': Tally, llm: Oracle)
    requires src in CodeToFull
    requires Filled(snap, row, row1, src, {d}, t, t1, llm)
    requires Filled(snap, row1, row', src, defaults, t1, t', llm)
    ensures Filled(snap, row, row', src, {d} + defaults, t, t', llm)
  {
    GrowsTrans(t, t1, t', CodeToFull[src], llm);
  }

  /** Every family of `items` is ready iff the first one is and every
      family of the rest is. */
  lemma ReadyUncons(snap: Row, src: string, items: seq<(Column, seq<Column>)>)
    requires |items| > 0 && forall i :: 0 <= i < |items| ==> items[i].0.Default?
    ensures (forall i :: 0 <= i < |items| ==> FamilyReady(snap, src, items[i].0.family))
            <==> FamilyReady(snap, src, items[0].0.family)
                 && forall i :: 0 <= i < |items[1..]| ==> FamilyReady(snap, src, items[1..][i].0.family)
  {
    if forall i :: 0 <= i < |items[1..]| ==> FamilyReady(snap, src, items[1..][i].0.family) {
      forall i | 1 <= i < |items| ensures FamilyReady(snap, src, items[i].0.family) {
        assert items[1..][i - 1] == items[i];
      }
    }
  }

  /** The loop over `translation_columns` for one row (translation.py:41-46),
      reading the row as it was when `iterrows` produced it (`snap`) and
      writing into `row`. */
  function FillRow(snap: Row, row: Row, src: string, items: seq<(Column, seq<Column>)>, tally: Tally, llm: Oracle)
    : (r: Result<(Row, Tally), Column>)
    requires src in CodeToFull && row.Keys == snap.Keys
    requires ItemsOk(items)
    ensures r.Ok? <==> forall i :: 0 <= i < |items| ==> FamilyReady(snap, src, items[i].0.family)
    ensures r.Ok? ==> Filled(snap, row, r.value.0, src, DefaultsOf(items), tally, r.value.1, llm)
    ensures r.Ok? ==> r.value.1.requests == tally.requests + ItemsCount(snap, src, items)
    decreases |items|
  {
    if |items| == 0 then Ok((row, tally))
    else
      ReadyUncons(snap, src, items);
      var r1 := FillFamily(snap, row, src, items[0], tally, llm);
      if r1.Err? then Err(r1.error)
      else
        var r := FillRow(snap, r1.value.0, src, items[1..], r1.value.1, llm);
        if r.Ok? then
          ItemsThen(snap, row, r1.value.0, r.value.0, src, items, tally, r1.value.1, r.value.1, llm);
          r
        else r
  }

  /** Filling the first item's family and then the rest's fills all of
      `items`, with the requests of both. */
  lemma ItemsThen(snap: Row, row: Row, row1: Row, row': Row, src: string, items: seq<(Column, seq<Column>)>,
                  t: Tally, t1: Tally, t': Tally, llm: Oracle)
    requires src in CodeToFull && |items| > 0
    requires Filled(snap, row, row1, src, {items[0].0}, t, t1, llm)
    requires t1.requests == t.requests + |Selected(snap, src, {items[0].0})|
    requires Filled(snap, row1, row', src, DefaultsOf(items[1..]), t1, t', llm)
    requires t'.requests == t1.requests + ItemsCount(snap, src, items[1..])
    ensures Filled(snap, row, row', src, DefaultsOf(items), t, t', llm)
    ensures t'.requests == t.requests + ItemsCount(snap, src, items)
  {
    FilledThen(snap, row, row1, row', src, items[0].0, DefaultsOf(items[1..]), t, t1, t', llm);
  }

  /** The cells selected item by item, each item's family counted on its own. */
  ghost function ItemsCount(snap: Row, src: string, items: seq<(Column, seq<Column>)>): nat
    decreases |items|
  {
    if |items| == 0 then 0 else |Selected(snap, src, {items[0].0})| + ItemsCount(snap, src, items[1..])
  }

  /** The cells `Fills` selects in row `snap`. */
  ghost function RowSelected(snap: Row, src: string): set<Column> {
    set c | c in snap && Fills(snap, src, c)
  }

  /** The loop over `translation_columns` sends one request per cell
      selected in the row. */
  lemma RowCount(snap: Row, src: string)
    ensures ItemsCount(snap, src, TranslationColumns) == |RowSelected(snap, src)|
  {
    var items := TranslationColumns;
    TranslationColumnsShape();
    TranslationColumnsDistinct();
    ItemsCountCard(snap, src, items);
    assert Selected(snap, src, DefaultsOf(items)) == RowSelected(snap, src);
  }

  /** `translation_columns` names no default column twice. */
  lemma TranslationColumnsDistinct()
    ensures forall i, j :: 0 <= i < j < |TranslationColumns| ==> TranslationColumns[i].0 != TranslationColumns[j].0
  {
  }

  /** With no default column repeated, the item-by-item count is the number
      of cells selected for all the items' families together. */
  lemma {:induction false} ItemsCountCard(snap: Row, src: string, items: seq<(Column, seq<Column>)>)
    requires forall i, j :: 0 <= i < j < |items| ==> items[i].0 != items[j].0
    ensures ItemsCount(snap, src, items) == |Selected(snap, src, DefaultsOf(items))|
    decreases |items|
  {
    if |items| > 0 {
      ItemsDistinctCons(items);
      ItemsCountCard(snap, src, items[1..]);
      SelectedCons(snap, src, items[0].0, DefaultsOf(items[1..]));
    }
  }

  /** The tail of a repetition-free item list is repetition-free, and does
      not hold the head's default column. */
  lemma ItemsDistinctCons(items: seq<(Column, seq<Column>)>)
    requires |items| > 0 && forall i, j :: 0 <= i < j < |items| ==> items[i].0 != items[j].0
    ensures forall i, j :: 0 <= i < j < |items[1..]| ==> items[1..][i].0 != items[1..][j].0
    ensures items[0].0 !in DefaultsOf(items[1..])
  {
    var rest := items[1..];
    forall i, j | 0 <= i < j < |rest| ensures rest[i].0 != rest[j].0 {
      assert rest[i] == items[i + 1] && rest[j] == items[j + 1];
    }
    forall j | 0 <= j < |rest| ensures rest[j].0 != items[0].0 {
      assert rest[j] == items[j + 1];
    }
    DefaultsOfIndex(rest, items[0].0);
  }

  /** The membership test behind `DefaultsOf`. */
  lemma {:induction false} DefaultsOfIndex(items: seq<(Column, seq<Column>)>, d: Column)
    ensures d in DefaultsOf(items) <==> exists j :: 0 <= j < |items| && items[j].0 == d
    decreases |items|
  {
    if |items| > 0 {
      DefaultsOfIndex(items[1..], d);
      if d in DefaultsOf(items[1..]) {
        var j :| 0 <= j < |items[1..]| && items[1..][j].0 == d;
        assert items[j + 1].0 == d;
      }
      if exists j :: 0 <= j < |items| && items[j].0 == d {
        var j :| 0 <= j < |items| && items[j].0 == d;
        if j > 0 { assert items[1..][j - 1].0 == d; }
      }
    }
  }

  /** The cells selected for one more family are those selected for it plus
      the others'. */
  lemma SelectedCons(snap: Row, src: string, d: Column, defaults: set<Column>)
    requires d !in defaults
    ensures |Selected(snap, src, {d} + defaults)| == |Selected(snap, src, {d})| + |Selected(snap, src, defaults)|
  {
    var a := Selected(snap, src, {d});
    var b := Selected(snap, src, defaults);
    assert Selected(snap, src, {d} + defaults) == a + b;
    assert a * b == {};
  }

  /** Each item pairs a family's default column with its target columns. */
  ghost predicate ItemsOk(items: seq<(Column, seq<Column>)>) {
    forall i :: 0 <= i < |items| ==> items[i].0.Default? && items[i].1 == TargetsOf(items[i].0.family)
  }

  /** Every column the loop reads in row `snap` exists. */
  ghost predicate RowReady(snap: Row, src: string) {
    forall f: Family :: FamilyReady(snap, src, f)
  }

  /** `row'` is row `snap` with every cell `Fills` selects holding the
      translation `cache` has for it, and every other cell as it was. */
  ghost predicate RowFilled(snap: Row, row': Row, src: string, cache: Cache) {
    && row'.Keys == snap.Keys
    && forall c :: c in snap ==>
         if Fills(snap, src, c)
         then KeyOf(snap, c) in cache && row'[c] == Some(cache[KeyOf(snap, c)])
         else row'[c] == snap[c]
  }

  /** `translation_columns` names each family once, with its own targets. */
  lemma TranslationColumnsShape()
    ensures ItemsOk(TranslationColumns)
    ensures forall c: Column :: c.Translated? ==> Default(c.family) in DefaultsOf(TranslationColumns)
  {
    var items := TranslationColumns;
    assert DefaultsOf(items[3..]) == {Default(ItemDescription)} by { assert items[3..][1..] == []; }
    assert DefaultsOf(items[2..]) == {Default(ItemName)} + DefaultsOf(items[3..]) by { assert items[2..][1..] == items[3..]; }
    assert DefaultsOf(items[1..]) == {Default(SubcategoryTitle)} + DefaultsOf(items[2..]) by { assert items[1..][1..] == items[2..]; }
    assert DefaultsOf(items) == {Default(CategoryTitle)} + DefaultsOf(items[1..]);
    forall c: Column | c.Translated? ensures Default(c.family) in DefaultsOf(items) {
      match c.family
      case CategoryTitle => case SubcategoryTitle => case ItemName => case ItemDescription =>
    }
  }

  /** A row is ready iff every family of `translation_columns` is. */
  lemma RowReadyIff(snap: Row, src: string)
    ensures RowReady(snap, src) <==>
              forall i :: 0 <= i < |TranslationColumns| ==> FamilyReady(snap, src, TranslationColumns[i].0.family)
  {
    var items := TranslationColumns;
    if forall i :: 0 <= i < |items| ==> FamilyReady(snap, src, items[i].0.family) {
      forall f: Family ensures FamilyReady(snap, src, f) {
        var i := match f
          case CategoryTitle => 0 case SubcategoryTitle => 1 case ItemName => 2 case ItemDescription => 3;
        assert items[i].0.family == f;
      }
    }
  }

  /** `rows'` and `t'` are what filling every row of `rows` makes of them
      and of `t`: each row is `RowFilled` against the final cache, the cache
      only grew and only by keys of cells `Fills` selects in some row, and
      nothing was requested when no cell was selected. */
  ghost predicate RowsFilled(rows: seq<Row>, rows': seq<Row>, src: string, t: Tally, t': Tally, llm: Oracle)
    requires src in CodeToFull
  {
    && |rows'| == |rows| && Grows(t, t', CodeToFull[src], llm)
    && (forall i :: 0 <= i < |rows| ==> RowFilled(rows[i], rows'[i], src, t'.cache))
    && (forall k :: k in t'.cache && k !in t.cache ==>
          exists i, c :: 0 <= i < |rows| && Fills(rows[i], src, c) && k == KeyOf(rows[i], c))
    && ((forall i, c :: 0 <= i < |rows| ==> !Fills(rows[i], src, c)) ==> t'.requests == t.requests)
  }

  /** Every row is ready iff the first one is and every row of the rest is. */
  lemma RowsReadyUncons(rows: seq<Row>, src: string)
    requires |rows| > 0
    ensures (forall i :: 0 <= i < |rows| ==> RowReady(rows[i], src))
            <==> RowReady(rows[0], src) && forall i :: 0 <= i < |rows[1..]| ==> RowReady(rows[1..][i], src)
  {
    if forall i :: 0 <= i < |rows[1..]| ==> RowReady(rows[1..][i], src) {
      forall i | 1 <= i < |rows| ensures RowReady(rows[i], src) {
        assert rows[1..][i - 1] == rows[i];
      }
    }
  }

  /** The outer loop `for index, row in df.iterrows()` (translation.py:40-46):
      each row is read once, as it stands before any write to it. */
  function FillRows(rows: seq<Row>, src: string, tally: Tally, llm: Oracle)
    : (r: Result<(seq<Row>, Tally), Column>)
    requires src in CodeToFull
    ensures r.Ok? <==> forall i :: 0 <= i < |rows| ==> RowReady(rows[i], src)
    ensures r.Ok? ==> RowsFilled(rows, r.value.0, src, tally, r.value.1, llm)
    ensures r.Ok? ==> r.value.1.requests == tally.requests + RowsCount(rows, src)
    decreases |rows|
  {
    if |rows| == 0 then Ok(([], tally))
    else
      TranslationColumnsShape();
      var r0 := FillRow(rows[0], rows[0], src, TranslationColumns, tally, llm);
      FirstRow(rows[0], src, tally, llm);
      RowCount(rows[0], src);
      RowsReadyUncons(rows, src);
      if r0.Err? then Err(r0.error)
      else
        var r := FillRows(rows[1..], src, r0.value.1, llm);
        if r.Err? then Err(r.error)
        else
          RowsStep(rows, src, r0.value.0, r.value.0, tally, r0.value.1, r.value.1, llm);
          Ok(([r0.value.0] + r.value.0, r.value.1))
  }

  /** The cells selected row by row. */
  ghost function RowsCount(rows: seq<Row>, src: string): nat
    decreases |rows|
  {
    if |rows| == 0 then 0 else |RowSelected(rows[0], src)| + RowsCount(rows[1..], src)
  }

  /** The loop over `translation_columns` for a row read as `snap`
      succeeds iff the row is ready, and then fills it. */
  lemma FirstRow(snap: Row, src: string, tally: Tally, llm: Oracle)
    requires src in CodeToFull && ItemsOk(TranslationColumns)
    ensures var r := FillRow(snap, snap, src, TranslationColumns, tally, llm);
            && (r.Ok? <==> RowReady(snap, src))
            && (r.Ok? ==> Filled(snap, snap, r.value.0, src, DefaultsOf(TranslationColumns), tally, r.value.1, llm))
  {
    RowReadyIff(snap, src);
  }

  /** The step of `FillRows`: row 0, then the rest. */
  lemma RowsStep(rows: seq<Row>, src: string, row0: Row, rest: seq<Row>, t: Tally, t1: Tally, t': Tally, llm: Oracle)
    requires src in CodeToFull && |rows| > 0
    requires Filled(rows[0], rows[0], row0, src, DefaultsOf(TranslationColumns), t, t1, llm)
    requires RowsFilled(rows[1..], rest, src, t1, t', llm)
    ensures RowsFilled(rows, [row0] + rest, src, t, t', llm)
  {
    GrowsTrans(t, t1, t', CodeToFull[src], llm);
    TranslationColumnsShape();
    FirstRowFilled(rows[0], row0, src, DefaultsOf(TranslationColumns), t, t1, t', llm);
    RowsStepCells(rows, row0, rest, src, t'.cache);
    RowsStepKeys(rows, src, DefaultsOf(TranslationColumns), t, t1, t');
    RowsStepRequests(rows, src, DefaultsOf(TranslationColumns), t, t1, t');
  }

  /** Row 0 and the rows after it, each filled against `cache`. */
  lemma RowsStepCells(rows: seq<Row>, row0: Row, rest: seq<Row>, src: string, cache: Cache)
    requires |rows| > 0 && |rest| == |rows| - 1
    requires RowFilled(rows[0], row0, src, cache)
    requires forall i :: 0 <= i < |rows[1..]| ==> RowFilled(rows[1..][i], rest[i], src, cache)
    ensures forall i :: 0 <= i < |rows| ==> RowFilled(rows[i], ([row0] + rest)[i], src, cache)
  {
    var out := [row0] + rest;
    forall i | 0 <= i < |rows| ensures RowFilled(rows[i], out[i], src, cache) {
      if i > 0 {
        assert rows[1..][i - 1] == rows[i] && out[i] == rest[i - 1];
      }
    }
  }

  /** No request is made for rows none of whose cells is selected. */
  lemma RowsStepRequests(rows: seq<Row>, src: string, defaults: set<Column>, t: Tally, t1: Tally, t': Tally)
    requires |rows| > 0
    requires (forall c :: !(Fills(rows[0], src, c) && Default(c.family) in defaults)) ==> t1.requests == t.requests
    requires (forall i, c :: 0 <= i < |rows[1..]| ==> !Fills(rows[1..][i], src, c)) ==> t'.requests == t1.requests
    ensures (forall i, c :: 0 <= i < |rows| ==> !Fills(rows[i], src, c)) ==> t'.requests == t.requests
  {
    if forall i, c :: 0 <= i < |rows| ==> !Fills(rows[i], src, c) {
      forall i, c | 0 <= i < |rows[1..]| ensures !Fills(rows[1..][i], src, c) {
        assert rows[1..][i] == rows[i + 1];
      }
      assert forall c :: !Fills(rows[0], src, c);
    }
  }

  /** Row 0 filled against the cache after it stays filled as the cache grows. */
  lemma FirstRowFilled(snap: Row, row': Row, src: string, defaults: set<Column>, t: Tally, t1: Tally, t': Tally, llm: Oracle)
    requires src in CodeToFull
    requires Filled(snap, snap, row', src, defaults, t, t1, llm)
    requires forall c: Column :: c.Translated? ==> Default(c.family) in defaults
    requires Grows(t1, t', CodeToFull[src], llm)
    ensures RowFilled(snap, row', src, t'.cache)
  {
  }

  /** A key new since `t` is new since `t1`, or came in between from row 0. */
  lemma RowsStepKeys(rows: seq<Row>, src: string, defaults: set<Column>, t: Tally, t1: Tally, t': Tally)
    requires |rows| > 0
    requires forall k :: k in t1.cache && k !in t.cache ==>
               exists c :: Fills(rows[0], src, c) && Default(c.family) in defaults && k == KeyOf(rows[0], c)
    requires forall k :: k in t'.cache && k !in t1.cache ==>
               exists i, c :: 0 <= i < |rows[1..]| && Fills(rows[1..][i], src, c) && k == KeyOf(rows[1..][i], c)
    ensures forall k :: k in t'.cache && k !in t.cache ==>
              exists i, c :: 0 <= i < |rows| && Fills(rows[i], src, c) && k == KeyOf(rows[i], c)
  {
    forall k | k in t'.cache && k !in t.cache
      ensures exists i, c :: 0 <= i < |rows| && Fills(rows[i], src, c) && k == KeyOf(rows[i], c)
    {
      if k in t1.cache {
        FirstRowKey(rows, src, defaults, k);
      } else {
        LaterRowKey(rows, src, k);
      }
    }
  }

  /** A key selected in the first row is selected in the rows. */
  lemma FirstRowKey(rows: seq<Row>, src: string, defaults: set<Column>, k: (string, string))
    requires |rows| > 0
    requires exists c :: Fills(rows[0], src, c) && Default(c.family) in defaults && k == KeyOf(rows[0], c)
    ensures exists i, c :: 0 <= i < |rows| && Fills(rows[i], src, c) && k == KeyOf(rows[i], c)
  {
    var c :| Fills(rows[0], src, c) && Default(c.family) in defaults && k == KeyOf(rows[0], c);
    assert 0 <= 0 < |rows| && Fills(rows[0], src, c) && k == KeyOf(rows[0], c);
  }

  /** A key selected in a later row is selected in the rows. */
  lemma LaterRowKey(rows: seq<Row>, src: string, k: (string, string))
    requires |rows| > 0
    requires exists i, c :: 0 <= i < |rows[1..]| && Fills(rows[1..][i], src, c) && k == KeyOf(rows[1..][i], c)
    ensures exists i, c :: 0 <= i < |rows| && Fills(rows[i], src, c) && k == KeyOf(rows[i], c)
  {
    var i, c :| 0 <= i < |rows[1..]| && Fills(rows[1..][i], src, c) && k == KeyOf(rows[1..][i], c);
    assert rows[1..][i] == rows[i + 1];
  }

  /** Every column the loop reads in every row exists. */
  ghost predicate TableReady(t: Table, src: string) {
    forall i :: 0 <= i < |t.rows| ==> RowReady(t.rows[i], src)
  }

  /** `t'` is `t` with its rows filled as `RowsFilled` says. */
  ghost predicate TableFilled(t: Table, t': Table, src: string, tally: Tally, tally': Tally, llm: Oracle)
    requires src in CodeToFull
  {
    t'.columns == t.columns && RowsFilled(t.rows, t'.rows, src, tally, tally', llm)
  }

  /** `fill_translations(df, menu_language)` (translation.py:27-46): an
      unknown label fails before anything is read; otherwise every row is
      filled in order, and the first missing column read fails the run. */
  function FillTranslations(t: Table, menuLanguage: string, tally: Tally, llm: Oracle)
    : (r: Result<(Table, Tally), FillError>)
    ensures (r.Err? && r.error.UnknownLanguage?) <==> menuLanguage !in LanguageMap
    ensures menuLanguage in LanguageMap ==> (r.Ok? <==> TableReady(t, LanguageMap[menuLanguage]))
    ensures r.Ok? ==> && menuLanguage in LanguageMap && LanguageMap[menuLanguage] in CodeToFull
                      && TableFilled(t, r.value.0, LanguageMap[menuLanguage], tally, r.value.1, llm)
                      && r.value.1.requests == tally.requests + RowsCount(t.rows, LanguageMap[menuLanguage])
  {
    if menuLanguage !in LanguageMap then Err(UnknownLanguage(menuLanguage))
    else
      var src := LanguageMap[menuLanguage];
      CodesHaveNames();
      var r := FillRows(t.rows, src, tally, llm);
      if r.Err? then Err(MissingColumn(r.error))
      else Ok((t.(rows := r.value.0), r.value.1))
  }

  /** A filled row read again: it is still ready, and every cell a second
      pass would select was selected the first time, under the same key. */
  lemma RefillRow(snap: Row, row': Row, src: string, cache: Cache)
    requires RowReady(snap, src) && RowFilled(snap, row', src, cache)
    ensures RowReady(row', src)
    ensures forall c :: Fills(row', src, c) ==>
              KeyOf(row', c) in cache && row'[c] == Some(cache[KeyOf(row', c)])
  {
    forall f: Family ensures FamilyReady(row', src, f) {
      assert FamilyReady(snap, src, f);
      DefaultKept(snap, row', src, cache, f);
      assert TargetsPresent(snap, src, f) ==> TargetsPresent(row', src, f);
    }
    forall c | Fills(row', src, c)
      ensures Fills(snap, src, c) && KeyOf(row', c) == KeyOf(snap, c)
    {
      assert FamilyReady(snap, src, c.family);
      DefaultKept(snap, row', src, cache, c.family);
    }
  }

  /** A fill leaves each default column as it was. */
  lemma DefaultKept(snap: Row, row': Row, src: string, cache: Cache, f: Family)
    requires RowFilled(snap, row', src, cache) && Default(f) in snap
    ensures Default(f) in row' && row'[Default(f)] == snap[Default(f)]
  {
    assert !Fills(snap, src, Default(f));
  }

  /** Filled rows are still ready, and each cell a second pass would
      select already holds the cached translation for its key. */
  lemma RefilledRows(rows: seq<Row>, rows': seq<Row>, src: string, t: Tally, t': Tally, llm: Oracle)
    requires src in CodeToFull
    requires forall i :: 0 <= i < |rows| ==> RowReady(rows[i], src)
    requires RowsFilled(rows, rows', src, t, t', llm)
    ensures forall i :: 0 <= i < |rows'| ==> RowReady(rows'[i], src)
    ensures forall i, c :: 0 <= i < |rows'| && Fills(rows'[i], src, c) ==>
              KeyOf(rows'[i], c) in t'.cache && rows'[i][c] == Some(t'.cache[KeyOf(rows'[i], c)])
  {
    forall i | 0 <= i < |rows|
      ensures RowReady(rows'[i], src)
      ensures forall c :: Fills(rows'[i], src, c) ==>
                KeyOf(rows'[i], c) in t'.cache && rows'[i][c] == Some(t'.cache[KeyOf(rows'[i], c)])
    {
      RefillRow(rows[i], rows'[i], src, t'.cache);
    }
  }

  /** A second pass over such rows changes nothing and asks the model
      nothing: each cell it selects is a cache hit for the value already
      written there. */
  lemma RowsRefill(rows': seq<Row>, rows'': seq<Row>, src: string, t': Tally, t'': Tally, llm: Oracle)
    requires src in CodeToFull
    requires forall i, c :: 0 <= i < |rows'| && Fills(rows'[i], src, c) ==>
               KeyOf(rows'[i], c) in t'.cache && rows'[i][c] == Some(t'.cache[KeyOf(rows'[i], c)])
    requires RowsFilled(rows', rows'', src, t', t'', llm)
    ensures rows'' == rows' && t''.cache == t'.cache && t''.calls == t'.calls
  {
    NoNewKeys(rows', src, t', t'', llm);
    forall i | 0 <= i < |rows'| ensures rows''[i] == rows'[i] {
      RowStable(rows'[i], rows''[i], src, t'.cache);
    }
  }

  /** A pass whose every selected cell is already cached adds no entry and
      makes no call. */
  lemma NoNewKeys(rows: seq<Row>, src: string, t: Tally, t': Tally, llm: Oracle)
    requires src in CodeToFull
    requires forall i, c :: 0 <= i < |rows| && Fills(rows[i], src, c) ==> KeyOf(rows[i], c) in t.cache
    requires Grows(t, t', CodeToFull[src], llm)
    requires forall k :: k in t'.cache && k !in t.cache ==>
               exists i, c :: 0 <= i < |rows| && Fills(rows[i], src, c) && k == KeyOf(rows[i], c)
    ensures t'.cache == t.cache && t'.calls == t.calls
  {
    assert t'.cache.Keys == t.cache.Keys;
  }

  /** A row each of whose selected cells already holds its cached
      translation is left as it is. */
  lemma RowStable(row: Row, row': Row, src: string, cache: Cache)
    requires RowFilled(row, row', src, cache)
    requires forall c :: Fills(row, src, c) ==> KeyOf(row, c) in cache && row[c] == Some(cache[KeyOf(row, c)])
    ensures row' == row
  {
    assert row'.Keys == row.Keys;
  }

  /** `fill_translations` is idempotent: run again on its own output with
      the cache it left, it succeeds, returns the same table and cache, and
      makes no model call. */
  lemma FillIdempotent(t: Table, t': Table, menuLanguage: string, tally: Tally, tally': Tally, llm: Oracle)
    requires FillTranslations(t, menuLanguage, tally, llm) == Ok((t', tally'))
    ensures var r := FillTranslations(t', menuLanguage, tally', llm);
            r.Ok? && r.value.0 == t' && r.value.1.cache == tally'.cache && r.value.1.calls == tally'.calls
  {
    var src := LanguageMap[menuLanguage];
    RefilledRows(t.rows, t'.rows, src, tally, tally', llm);
    var r := FillTranslations(t', menuLanguage, tally', llm);
    RowsRefill(t'.rows, r.value.0.rows, src, tally', r.value.1, llm);
  }

  /** When no cell of any row is selected, `fill_translations` returns the
      table and the tally exactly as they were. */
  lemma FillNoGaps(t: Table, menuLanguage: string, tally: Tally, llm: Oracle)
    requires menuLanguage in LanguageMap && TableReady(t, LanguageMap[menuLanguage])
    requires forall i, c :: 0 <= i < |t.rows| ==> !Fills(t.rows[i], LanguageMap[menuLanguage], c)
    ensures FillTranslations(t, menuLanguage, tally, llm) == Ok((t, tally))
  {
    var src := LanguageMap[menuLanguage];
    var (t', tally') := FillTranslations(t, menuLanguage, tally, llm).value;
    NoNewKeys(t.rows, src, tally, tally', llm);
    forall i | 0 <= i < |t.rows| ensures t'.rows[i] == t.rows[i] {
      RowStable(t.rows[i], t'.rows[i], src, tally.cache);
    }
    assert t'.rows == t.rows;
  }

  /** `fill_translations` writes only target-language columns of codes
      other than the source: every other cell of every row is kept, and no
      row gains or loses a column. */
  lemma FillProtects(t: Table, t': Table, menuLanguage: string, tally: Tally, tally': Tally, llm: Oracle)
    requires FillTranslations(t, menuLanguage, tally, llm) == Ok((t', tally'))
    ensures t'.columns == t.columns && |t'.rows| == |t.rows|
    ensures forall i :: 0 <= i < |t.rows| ==> t'.rows[i].Keys == t.rows[i].Keys
    ensures forall i, c :: 0 <= i < |t.rows| && c in t.rows[i] && (!c.Translated? || Code(c.lang) == LanguageMap[menuLanguage])
              ==> t'.rows[i][c] == t.rows[i][c]
  {
  }

  /** The cells a pass selects, as (row position, column) pairs. */
  ghost function SelectedCells(rows: seq<Row>, src: string): set<(int, Column)> {
    set i, c | 0 <= i < |rows| && c in rows[i] && Fills(rows[i], src, c) :: (i, c)
  }

  /** `fill_translations` calls `translate_text` exactly once per selected
      cell: the requests it makes are the selected cells, counted over all
      rows, cached or not. */
  lemma FillRequestsPerCell(t: Table, t': Table, menuLanguage: string, tally: Tally, tally': Tally, llm: Oracle)
    requires FillTranslations(t, menuLanguage, tally, llm) == Ok((t', tally'))
    ensures tally'.requests - tally.requests == |SelectedCells(t.rows, LanguageMap[menuLanguage])|
  {
    RowsCountCard(t.rows, LanguageMap[menuLanguage]);
  }

  /** The row-by-row count is the number of selected cells. */
  lemma RowsCountCard(rows: seq<Row>, src: string)
    ensures RowsCount(rows, src) == |SelectedCells(rows, src)|
  {
    var ss := RowSets(rows, src);
    RowsCountSum(rows, src);
    IndexedCard(ss);
    forall p | p in SelectedCells(rows, src) ensures p in Indexed(ss) {
      assert ss[p.0] == RowSelected(rows[p.0], src);
    }
    forall p | p in Indexed(ss) ensures p in SelectedCells(rows, src) {
      assert ss[p.0] == RowSelected(rows[p.0], src);
    }
    assert SelectedCells(rows, src) == Indexed(ss);
  }

  /** The selected cells of each row, in row order. */
  ghost function RowSets(rows: seq<Row>, src: string): (r: seq<set<Column>>)
    ensures |r| == |rows| && forall i :: 0 <= i < |rows| ==> r[i] == RowSelected(rows[i], src)
  {
    seq(|rows|, i requires 0 <= i < |rows| => RowSelected(rows[i], src))
  }

  /** `RowsCount` sums the sizes of `RowSets`. */
  lemma {:induction false} RowsCountSum(rows: seq<Row>, src: string)
    ensures RowsCount(rows, src) == SumCard(RowSets(rows, src))
    decreases |rows|
  {
    if |rows| > 0 {
      RowsCountSum(rows[1..], src);
      assert RowSets(rows, src)[1..] == RowSets(rows[1..], src);
    }
  }

  /** The elements of a list of sets, each paired with its set's position. */
  ghost function Indexed<T>(ss: seq<set<T>>): set<(int, T)> {
    set i, x | 0 <= i < |ss| && x in ss[i] :: (i, x)
  }

  /** The sizes of a list of sets, added up. */
  ghost function SumCard<T>(ss: seq<set<T>>): nat
    decreases |ss|
  {
    if |ss| == 0 then 0 else |ss[0]| + SumCard(ss[1..])
  }

  /** Tagging each element with its set's position loses nothing: there are
      as many tagged elements as the sizes add up to. */
  lemma {:induction false} IndexedCard<T>(ss: seq<set<T>>)
    ensures |Indexed(ss)| == SumCard(ss)
    decreases |ss|
  {
    if |ss| == 0 {
      assert Indexed(ss) == {};
    } else {
      IndexedCard(ss[1..]);
      var head := set x | x in ss[0] :: (0, x);
      var tail := set p | p in Indexed(ss[1..]) :: (p.0 + 1, p.1);
      TagCard(ss[0]);
      ShiftCard(Indexed(ss[1..]));
      IndexedSplit(ss, head, tail);
      assert head * tail == {};
    }
  }

  /** `Indexed` of a non-empty list: the first set at position 0 and the
      rest's, each position moved up by one. */
  lemma IndexedSplit<T>(ss: seq<set<T>>, head: set<(int, T)>, tail: set<(int, T)>)
    requires |ss| > 0
    requires head == set x | x in ss[0] :: (0, x)
    requires tail == set p | p in Indexed(ss[1..]) :: (p.0 + 1, p.1)
    ensures Indexed(ss) == head + tail
    ensures forall p :: p in head ==> p.0 == 0
    ensures forall p :: p in tail ==> p.0 > 0
  {
    forall p | p in Indexed(ss) ensures p in head + tail {
      if p.0 > 0 {
        assert ss[1..][p.0 - 1] == ss[p.0];
        assert (p.0 - 1, p.1) in Indexed(ss[1..]);
      }
    }
    forall p | p in tail ensures p in Indexed(ss) && p.0 > 0 {
      var q :| q in Indexed(ss[1..]) && p == (q.0 + 1, q.1);
      assert ss[1..][q.0] == ss[q.0 + 1];
    }
  }

  /** Pairing every element with position 0 keeps the count. */
  lemma {:induction false} TagCard<T>(s: set<T>)
    ensures |set x | x in s :: (0, x)| == |s|
    decreases |s|
  {
    if s != {} {
      var x :| x in s;
      var s' := s - {x};
      TagCard(s');
      assert (set y | y in s :: (0, y)) == (set y | y in s' :: (0, y)) + {(0, x)};
    }
  }

  /** Moving every position up by one keeps the count. */
  lemma {:induction false} ShiftCard<T>(s: set<(int, T)>)
    ensures |set p | p in s :: (p.0 + 1, p.1)| == |s|
    decreases |s|
  {
    if s != {} {
      var x :| x in s;
      var s' := s - {x};
      ShiftCard(s');
      assert (set p | p in s :: (p.0 + 1, p.1)) == (set p | p in s' :: (p.0 + 1, p.1)) + {(x.0 + 1, x.1)};
    }
  }


  /** The (text, target language) keys of the cells a pass selects. */
  ghost function Requested(rows: seq<Row>, src: string): set<(string, string)> {
    set i, c | 0 <= i < |rows| && c in rows[i] && Fills(rows[i], src, c) :: KeyOf(rows[i], c)
  }

  /** The cache after `fill_translations` holds exactly the entries it had
      and the keys of the selected cells; the model was asked once per
      selected key that was not cached before, and never more, so from an
      empty cache once per distinct (text, target language) pair. */
  lemma FillCallsPerKey(t: Table, t': Table, menuLanguage: string, tally: Tally, tally': Tally, llm: Oracle)
    requires FillTranslations(t, menuLanguage, tally, llm) == Ok((t', tally'))
    ensures tally'.cache.Keys == tally.cache.Keys + Requested(t.rows, LanguageMap[menuLanguage])
    ensures tally'.calls - tally.calls == |Requested(t.rows, LanguageMap[menuLanguage]) - tally.cache.Keys|
    ensures tally.cache == map[] ==> tally'.calls - tally.calls == |Requested(t.rows, LanguageMap[menuLanguage])|
  {
    RowsKeys(t.rows, t'.rows, LanguageMap[menuLanguage], tally, tally', llm);
  }

  /** `FillCallsPerKey` for a pass over rows. */
  lemma RowsKeys(rows: seq<Row>, rows': seq<Row>, src: string, t: Tally, t': Tally, llm: Oracle)
    requires src in CodeToFull && RowsFilled(rows, rows', src, t, t', llm)
    ensures t'.cache.Keys == t.cache.Keys + Requested(rows, src)
    ensures t'.calls - t.calls == |Requested(rows, src) - t.cache.Keys|
    ensures t.cache == map[] ==> t'.calls - t.calls == |Requested(rows, src)|
  {
    var req := Requested(rows, src);
    NewKeysRequested(rows, src, t, t');
    RequestedCached(rows, rows', src, t'.cache);
    CallsCount(t, t', req);
  }

  /** Calls made are the keys added, so the requested keys not cached before. */
  lemma CallsCount(t: Tally, t': Tally, req: set<(string, string)>)
    requires t'.cache.Keys <= t.cache.Keys + req && req <= t'.cache.Keys && t.cache.Keys <= t'.cache.Keys
    requires t'.calls - t.calls == |t'.cache| - |t.cache|
    ensures t'.cache.Keys == t.cache.Keys + req
    ensures t'.calls - t.calls == |req - t.cache.Keys|
    ensures t.cache == map[] ==> t'.calls - t.calls == |req|
  {
    UnionCard(t.cache.Keys, req);
    if t.cache == map[] {
      assert t.cache.Keys == {} && req - t.cache.Keys == req;
    }
    assert |t'.cache| == |t'.cache.Keys| && |t.cache| == |t.cache.Keys|;
  }

  /** Every entry the pass added is the key of a selected cell. */
  lemma NewKeysRequested(rows: seq<Row>, src: string, t: Tally, t': Tally)
    requires forall k :: k in t'.cache && k !in t.cache ==>
               exists i, c :: 0 <= i < |rows| && Fills(rows[i], src, c) && k == KeyOf(rows[i], c)
    ensures t'.cache.Keys <= t.cache.Keys + Requested(rows, src)
  {
    forall k | k in t'.cache.Keys ensures k in t.cache.Keys + Requested(rows, src) {
      if k !in t.cache {
        var i, c :| 0 <= i < |rows| && Fills(rows[i], src, c) && k == KeyOf(rows[i], c);
      }
    }
  }

  /** Every selected key ends up cached. */
  lemma RequestedCached(rows: seq<Row>, rows': seq<Row>, src: string, cache: Cache)
    requires |rows'| == |rows| && forall i :: 0 <= i < |rows| ==> RowFilled(rows[i], rows'[i], src, cache)
    ensures Requested(rows, src) <= cache.Keys
  {
    forall k | k in Requested(rows, src) ensures k in cache {
      var i, c :| 0 <= i < |rows| && c in rows[i] && Fills(rows[i], src, c) && k == KeyOf(rows[i], c);
      assert RowFilled(rows[i], rows'[i], src, cache);
    }
  }

  /** The size of a union, counting the second set's new elements only. */
  lemma UnionCard<T>(a: set<T>, b: set<T>)
    ensures |a + b| == |a| + |b - a|
  {
    assert a + b == a + (b - a);
    assert a * (b - a) == {};
  }

  /** Starting from an empty cache, every filled cell holds the model's
      stripped reply for its family's text, asked from the source language
      to the cell's language. */
  lemma FillFromModel(t: Table, t': Table, menuLanguage: string, tally: Tally, tally': Tally, llm: Oracle)
    requires FillTranslations(t, menuLanguage, tally, llm) == Ok((t', tally')) && tally.cache == map[]
    ensures forall i, c :: 0 <= i < |t.rows| && Fills(t.rows[i], LanguageMap[menuLanguage], c) ==>
              t'.rows[i][c] == Some(Strip(llm(CodeToFull[LanguageMap[menuLanguage]], LangName(c.lang),
                                               Str(t.rows[i][Default(c.family)]))))
  {
    RowsFromModel(t.rows, t'.rows, LanguageMap[menuLanguage], tally, tally', llm);
  }

  /** Over an empty cache, each selected cell holds the model's reply. */
  lemma RowsFromModel(rows: seq<Row>, rows': seq<Row>, src: string, t: Tally, t': Tally, llm: Oracle)
    requires src in CodeToFull && RowsFilled(rows, rows', src, t, t', llm) && t.cache == map[]
    ensures forall i, c :: 0 <= i < |rows| && Fills(rows[i], src, c) ==>
              rows'[i][c] == Some(Strip(llm(CodeToFull[src], LangName(c.lang), Str(rows[i][Default(c.family)]))))
  {
    forall i, c | 0 <= i < |rows| && Fills(rows[i], src, c)
      ensures rows'[i][c] == Some(Strip(llm(CodeToFull[src], LangName(c.lang), Str(rows[i][Default(c.family)]))))
    {
      assert RowFilled(rows[i], rows'[i], src, t'.cache);
    }
  }
}
