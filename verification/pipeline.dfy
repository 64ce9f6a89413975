/** The app's two steps end to end (app.py:62-65): the replies for the
    uploaded images become the 25-column table, and the language chosen in
    the selector fills its translations. */
module Pipeline {
  import opened Wrappers
  import opened Text
  import opened Schema
  import opened Languages
  import opened Transcription
  import opened Translation

  /** The position of family `f`'s default column among the five accepted cells. */
  function FamilyIndex(f: Family): (j: nat)
    ensures j < 4 && DefaultColumns[j] == Default(f) && Families[j] == f
  {
    match f
    case CategoryTitle => 0
    case SubcategoryTitle => 1
    case ItemName => 2
    case ItemDescription => 3
  }

  /** A row as transcription leaves it: all 25 columns, the accepted
      `cells` in the default columns and the price, "" everywhere else. */
  ghost predicate FreshRow(row: Row, cells: seq<string>) {
    && |cells| == |DefaultColumns|
    && (forall c: Column :: c in row)
    && (forall j :: 0 <= j < |DefaultColumns| ==> row[DefaultColumns[j]] == Some(cells[j]))
    && (forall c :: c !in DefaultColumns ==> row[c] == Some(""))
  }

  /** A row after translation from `src` against `cache`: the default
      columns and the price still hold `cells`; each target column of a
      code other than `src` holds the cached translation of its field when
      the field is not blank and "" otherwise; the columns of `src` hold "". */
  ghost predicate TranslatedRow(row: Row, cells: seq<string>, src: string, cache: Cache)
    requires |cells| == |DefaultColumns|
  {
    && (forall c: Column :: c in row)
    && (forall j :: 0 <= j < |DefaultColumns| ==> row[DefaultColumns[j]] == Some(cells[j]))
    && (forall f, l :: TargetOk(row, cells[FamilyIndex(f)], src, cache, f, l))
  }

  /** The target column of family `f` in language `l` holds the cached
      translation of `text` when `l` is not `src` and `text` is not blank,
      and "" otherwise. */
  ghost predicate TargetOk(row: Row, text: string, src: string, cache: Cache, f: Family, l: Lang) {
    && Translated(f, l) in row
    && if Code(l) != src && Strip(text) != ""
       then (text, LangName(l)) in cache && row[Translated(f, l)] == Some(cache[(text, LangName(l))])
       else row[Translated(f, l)] == Some("")
  }

  /** The table `process_image_to_excel` returns has one fresh row per
      accepted line. */
  lemma Transcribed(replies: seq<string>)
    ensures var t := ProcessImageToExcel(replies);
            && |t.rows| == |PageRows(replies)|
            && forall i :: 0 <= i < |t.rows| ==> FreshRow(t.rows[i], PageRows(replies)[i])
  {
    var t := ProcessImageToExcel(replies);
    forall i | 0 <= i < |t.rows| ensures FreshRow(t.rows[i], PageRows(replies)[i]) {
      TranscribedRow(replies, i);
    }
  }

  /** Row `i` of the transcribed table is fresh. */
  lemma TranscribedRow(replies: seq<string>, i: nat)
    requires i < |PageRows(replies)|
    ensures i < |ProcessImageToExcel(replies).rows|
    ensures FreshRow(ProcessImageToExcel(replies).rows[i], PageRows(replies)[i])
  {
    var t := ProcessImageToExcel(replies);
    var row := t.rows[i];
    assert MenuRow(PageRows(replies)[i]);
    RequiredColumnsCover();
    assert row.Keys == ColumnSet(RequiredColumns);
  }

  /** A fresh row has every column the translation step reads. */
  lemma FreshRowReady(row: Row, cells: seq<string>, src: string)
    requires FreshRow(row, cells)
    ensures RowReady(row, src)
  {
  }

  /** Every row of a transcribed table has all 25 columns, so every column
      the translation step reads exists, whatever the source language. */
  lemma TranscribedReady(replies: seq<string>, src: string)
    ensures TableReady(ProcessImageToExcel(replies), src)
  {
    var t := ProcessImageToExcel(replies);
    Transcribed(replies);
    forall i | 0 <= i < |t.rows| ensures RowReady(t.rows[i], src) {
      FreshRowReady(t.rows[i], PageRows(replies)[i], src);
    }
  }

  /** For every selector option, translating a transcribed table succeeds. */
  lemma PipelineSucceeds(replies: seq<string>, option: string, tally: Tally, llm: Oracle)
    requires option in SelectorOptions
    ensures option in LanguageMap && FillTranslations(ProcessImageToExcel(replies), option, tally, llm).Ok?
  {
    LanguageMapIsBijection();
    assert option in LanguageMap;
    TranscribedReady(replies, LanguageMap[option]);
  }

  /** Translating a fresh row gives the translated row. */
  lemma FreshRowTranslated(snap: Row, cells: seq<string>, row': Row, src: string, cache: Cache)
    requires FreshRow(snap, cells) && RowFilled(snap, row', src, cache)
    ensures TranslatedRow(row', cells, src, cache)
  {
    FreshDefaults(snap, cells, row', src, cache);
    forall f, l ensures TargetOk(row', cells[FamilyIndex(f)], src, cache, f, l) {
      FreshTarget(snap, cells, row', src, cache, f, l);
    }
  }

  /** The default columns and the price of a fresh row survive translation. */
  lemma FreshDefaults(snap: Row, cells: seq<string>, row': Row, src: string, cache: Cache)
    requires FreshRow(snap, cells) && RowFilled(snap, row', src, cache)
    ensures forall c: Column :: c in row'
    ensures forall j :: 0 <= j < |DefaultColumns| ==> row'[DefaultColumns[j]] == Some(cells[j])
  {
    forall j | 0 <= j < |DefaultColumns| ensures row'[DefaultColumns[j]] == Some(cells[j]) {
      assert !Fills(snap, src, DefaultColumns[j]);
    }
  }

  /** One target column of a fresh row after translation. */
  lemma FreshTarget(snap: Row, cells: seq<string>, row': Row, src: string, cache: Cache, f: Family, l: Lang)
    requires FreshRow(snap, cells) && RowFilled(snap, row', src, cache)
    ensures TargetOk(row', cells[FamilyIndex(f)], src, cache, f, l)
  {
    var c := Translated(f, l);
    assert c !in DefaultColumns;
    assert c in snap && Default(f) in snap;
    TargetCell(snap, cells[FamilyIndex(f)], row', src, cache, f, l);
  }

  /** One target cell of `FreshRowTranslated`: a blank target whose field
      holds `text` ends up translated exactly when its code is not `src` and
      `text` is not blank. */
  lemma TargetCell(snap: Row, text: string, row': Row, src: string, cache: Cache, f: Family, l: Lang)
    requires Translated(f, l) in snap && snap[Translated(f, l)] == Some("")
    requires Default(f) in snap && snap[Default(f)] == Some(text)
    requires Translated(f, l) in row'
    requires if Fills(snap, src, Translated(f, l))
             then KeyOf(snap, Translated(f, l)) in cache
                  && row'[Translated(f, l)] == Some(cache[KeyOf(snap, Translated(f, l))])
             else row'[Translated(f, l)] == snap[Translated(f, l)]
    ensures TargetOk(row', text, src, cache, f, l)
  {
    var c := Translated(f, l);
    BlankEmpty();
    if Code(l) != src && Strip(text) != "" {
      assert text != "";
      assert Fills(snap, src, c);
      assert KeyOf(snap, c) == (text, LangName(l));
    } else {
      assert !Fills(snap, src, c);
    }
  }

  /** The "" that transcription writes is a blank cell. */
  lemma BlankEmpty()
    ensures Blank(Some(""))
  {
    StripEmptyIff("");
  }

  /** End to end: for every selector option the run succeeds, keeps one row
      per accepted line, and leaves every row translated as `TranslatedRow`
      says against the cache it returns. */
  lemma PipelineCells(replies: seq<string>, option: string, tally: Tally, llm: Oracle)
    requires option in SelectorOptions
    ensures var r := FillTranslations(ProcessImageToExcel(replies), option, tally, llm);
            && option in LanguageMap && r.Ok?
            && |r.value.0.rows| == |PageRows(replies)|
            && forall i :: 0 <= i < |PageRows(replies)| ==>
                 TranslatedRow(r.value.0.rows[i], PageRows(replies)[i], LanguageMap[option], r.value.1.cache)
  {
    var t := ProcessImageToExcel(replies);
    PipelineSucceeds(replies, option, tally, llm);
    Transcribed(replies);
    var (t', tally') := FillTranslations(t, option, tally, llm).value;
    forall i | 0 <= i < |PageRows(replies)|
      ensures TranslatedRow(t'.rows[i], PageRows(replies)[i], LanguageMap[option], tally'.cache)
    {
      FreshRowTranslated(t.rows[i], PageRows(replies)[i], t'.rows[i], LanguageMap[option], tally'.cache);
    }
  }
}
