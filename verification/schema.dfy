/** The fixed 25-column menu schema (transcription.py:6-9 and 56-64) and the
    table a pandas DataFrame is modelled as. */
module Schema {
  import opened Wrappers

  /** The four translatable field families; the price is not one of them. */
  datatype Family = CategoryTitle | SubcategoryTitle | ItemName | ItemDescription

  /** The five supported language codes. */
  datatype Lang = En | Pt | Fr | De | Es

  /** A column of the spreadsheet: a default-language field, the price, or a
      field translated into one language. */
  datatype Column = Default(family: Family) | ItemPrice | Translated(family: Family, lang: Lang)

  const Families: seq<Family> := [CategoryTitle, SubcategoryTitle, ItemName, ItemDescription]
  const Langs: seq<Lang> := [En, Pt, Fr, De, Es]

  /** The two-letter code that suffixes a translated column's name. */
  function Code(l: Lang): string {
    match l
    case En => "En"
    case Pt => "Pt"
    case Fr => "Fr"
    case De => "De"
    case Es => "Es"
  }

  function FamilyName(f: Family): string {
    match f
    case CategoryTitle => "CategoryTitle"
    case SubcategoryTitle => "SubcategoryTitle"
    case ItemName => "ItemName"
    case ItemDescription => "ItemDescription"
  }

  /** The DataFrame column name of `c`, e.g. "ItemNameDefault" or "ItemNameFr". */
  function ColumnName(c: Column): string {
    match c
    case Default(f) => FamilyName(f) + "Default"
    case ItemPrice => "ItemPrice"
    case Translated(f, l) => FamilyName(f) + Code(l)
  }

  /** Length, first-character and suffix facts about column names. */
  lemma NameShape(c: Column)
    ensures c.Translated? ==> (|ColumnName(c)| == |FamilyName(c.family)| + 2
      && ColumnName(c)[|ColumnName(c)| - 2..] == Code(c.lang))
    ensures c.Default? ==> |ColumnName(c)| == |FamilyName(c.family)| + 7
    ensures c.ItemPrice? ==> |ColumnName(c)| == 9
    ensures !c.ItemPrice? ==> ColumnName(c)[0] == FamilyName(c.family)[0]
  {
    if c.Translated? {
      assert ColumnName(c)[|ColumnName(c)| - 2..] == Code(c.lang);
    }
  }

  /** Distinct columns have distinct DataFrame names, so keying rows by
      `Column` loses nothing against pandas' keying by name. */
  lemma ColumnNameInjective(c: Column, d: Column)
    requires ColumnName(c) == ColumnName(d)
    ensures c == d
  {
    NameShape(c);
    NameShape(d);
    if c.Translated? && d.Translated? {
      assert Code(c.lang) == Code(d.lang);
    }
  }

  /** The five columns a transcribed row fills, left to right. */
  const DefaultColumns: seq<Column> :=
    [Default(CategoryTitle), Default(SubcategoryTitle), Default(ItemName), Default(ItemDescription), ItemPrice]

  /** The four translated columns of one language, in family order. */
  function Block(l: Lang): (r: seq<Column>)
    ensures |r| == 4
    ensures forall i :: 0 <= i < 4 ==> r[i] == Translated(Families[i], l)
  {
    [Translated(CategoryTitle, l), Translated(SubcategoryTitle, l), Translated(ItemName, l), Translated(ItemDescription, l)]
  }

  /** The required columns in output order: the defaults, then one block per
      language in the order En, Pt, Fr, De, Es. */
  const RequiredColumns: seq<Column> :=
    DefaultColumns + Block(En) + Block(Pt) + Block(Fr) + Block(De) + Block(Es)

  ghost predicate Distinct<T>(s: seq<T>) {
    forall i, j :: 0 <= i < j < |s| ==> s[i] != s[j]
  }

  lemma DistinctAppend<T>(a: seq<T>, b: seq<T>)
    requires Distinct(a) && Distinct(b)
    requires forall x :: x in a ==> x !in b
    ensures Distinct(a + b)
  {
    forall i, j | 0 <= i < j < |a + b| ensures (a + b)[i] != (a + b)[j] {
      if j < |a| {
      } else if i >= |a| {
        assert (a + b)[i] == b[i - |a|] && (a + b)[j] == b[j - |a|];
      } else {
        assert (a + b)[i] in a && (a + b)[j] in b;
      }
    }
  }

  /** Every one of the 25 required columns is listed once and there are 25 of them. */
  lemma RequiredColumnsDistinct()
    ensures |RequiredColumns| == 25
    ensures Distinct(RequiredColumns)
    ensures forall c: Column :: c in RequiredColumns
  {
    var p1 := DefaultColumns + Block(En);
    var p2 := p1 + Block(Pt);
    var p3 := p2 + Block(Fr);
    var p4 := p3 + Block(De);
    DistinctAppend(DefaultColumns, Block(En));
    DistinctAppend(p1, Block(Pt));
    DistinctAppend(p2, Block(Fr));
    DistinctAppend(p3, Block(De));
    DistinctAppend(p4, Block(Es));
    forall c: Column ensures c in RequiredColumns {
      match c
      case Default(f) =>
        assert c in DefaultColumns by { assert f == CategoryTitle || f == SubcategoryTitle || f == ItemName || f == ItemDescription; }
      case ItemPrice => assert c in DefaultColumns;
      case Translated(f, l) =>
        assert c in Block(l) by { assert f == CategoryTitle || f == SubcategoryTitle || f == ItemName || f == ItemDescription; }
        match l
        case En => assert c in p1;
        case Pt => assert c in p2;
        case Fr => assert c in p3;
        case De => assert c in p4;
        case Es => assert c in p4 + Block(Es);
    }
  }

  /** A cell: `None` is pandas' NaN, `Some(s)` a string value. */
  type Cell = Option<string>

  /** A DataFrame row, by column. */
  type Row = map<Column, Cell>

  /** A DataFrame: its column list and its rows, in index order. */
  datatype Table = Table(columns: seq<Column>, rows: seq<Row>)

  /** The set of columns listed in `cols`. */
  function ColumnSet(cols: seq<Column>): set<Column> {
    set c | c in cols
  }

  /** Every column is in the set of required columns. */
  lemma RequiredColumnsCover()
    ensures forall c: Column :: c in ColumnSet(RequiredColumns)
  {
    RequiredColumnsDistinct();
  }

  /** Every row has exactly the table's columns, as in any DataFrame. */
  ghost predicate WellFormed(t: Table) {
    forall i :: 0 <= i < |t.rows| ==> t.rows[i].Keys == ColumnSet(t.columns)
  }
}
