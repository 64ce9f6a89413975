/** The reply-parsing loop of `process_image_to_excel` (transcription.py:25-54)
    and the table it returns (transcription.py:56-69).

    The vision-model call for each page is not modelled: its reply is the
    input, one string per page, in page order. */
module Transcription {
  import opened Wrappers
  import opened Text
  import opened Schema
  import opened Normalisation

  /** The cell that marks an echoed header line. */
  const HeaderLabel: string := "CategoryTitleDefault"

  /** `len(df.columns)` while the loop runs: the five default columns. */
  const ExpectedWidth: nat := |DefaultColumns|

  /** `row.startswith('|') and not row.startswith('|-')`. */
  predicate IsCandidate(line: string) {
    |line| > 0 && line[0] == '|' && !(|line| > 1 && line[1] == '-')
  }

  /** `[col.strip() for col in line.split('|')[1:-1]]`: the pieces between the
      first and the last `|`-separated piece, each stripped. */
  function Cells(line: string): (r: seq<string>)
    ensures |r| == if Count(line, '|') == 0 then 0 else Count(line, '|') - 1
    ensures forall i :: 0 <= i < |r| ==> r[i] == Strip(Split(line, '|')[i + 1])
  {
    var p := Split(line, '|');
    if |p| < 2 then [] else StripAll(p[1..|p| - 1])
  }

  /** No cell holds a bar or has whitespace at either end. */
  lemma CellsClean(line: string)
    ensures forall i :: 0 <= i < |Cells(line)| ==> '|' !in Cells(line)[i]
    ensures forall i :: 0 <= i < |Cells(line)| ==>
      Cells(line)[i] == [] || (!IsSpace(Cells(line)[i][0]) && !IsSpace(Cells(line)[i][|Cells(line)[i]| - 1]))
  {
    var p := Split(line, '|');
    var r := Cells(line);
    forall i | 0 <= i < |r| ensures '|' !in r[i] {
      assert r[i] == Strip(p[i + 1]);
    }
  }

  /** Each piece stripped. */
  function StripAll(ps: seq<string>): (r: seq<string>)
    ensures |r| == |ps|
    ensures forall i :: 0 <= i < |r| ==> r[i] == Strip(ps[i])
    ensures forall i :: 0 <= i < |r| ==> r[i] == [] || (!IsSpace(r[i][0]) && !IsSpace(r[i][|r[i]| - 1]))
  {
    seq(|ps|, i requires 0 <= i < |ps| => Strip(ps[i]))
  }

  /** A cell of a markdown delimiter line: dashes, with or without an
      alignment colon at either end, such as `---` or `:---:`. */
  predicate IsDelimiterCell(cell: string) {
    '-' in cell &&
    forall k :: 0 <= k < |cell| ==> cell[k] == '-' || (cell[k] == ':' && (k == 0 || k == |cell| - 1))
  }

  /** Cells that together make the delimiter line under a table's header. */
  predicate IsDelimiterRow(cells: seq<string>) {
    |cells| > 0 && forall i :: 0 <= i < |cells| ==> IsDelimiterCell(cells[i])
  }

  /** What a reply line is, independently of the parser's state. */
  datatype LineKind =
    | NotCandidate                     // does not start with '|', or starts with "|-"
    | Delimiter                        // a candidate whose cells are all delimiter cells
    | HeaderEcho                       // a candidate with a "CategoryTitleDefault" cell
    | WrongWidth(width: nat)           // a candidate with other than five cells
    | DataRow(cells: seq<string>)      // a candidate that becomes a menu row

  /** The classification transcription.py:44-53 performs: only a line
      starting with `|-` is taken for the delimiter line, so one written
      with spaces, `| --- | ... |`, passes as a row of dashes. */
  function ClassifyAsWritten(line: string): (k: LineKind)
    ensures !k.Delimiter?
    ensures k.NotCandidate? <==> !IsCandidate(line)
    ensures k.HeaderEcho? <==> IsCandidate(line) && HeaderLabel in Cells(line)
    ensures k.DataRow? <==> IsCandidate(line) && HeaderLabel !in Cells(line) && |Cells(line)| == ExpectedWidth
    ensures k.DataRow? ==> k.cells == Cells(line)
    ensures k.WrongWidth? ==> k.width == |Cells(line)| != ExpectedWidth
  {
    if !IsCandidate(line) then NotCandidate
    else
      var cells := Cells(line);
      if HeaderLabel in cells then HeaderEcho
      else if |cells| == ExpectedWidth then DataRow(cells)
      else WrongWidth(|cells|)
  }

  /** The corrected classification: as written, except that a candidate
      whose cells are all delimiter cells is the delimiter line, however it
      is spaced. A data row is the line's own cells, five of them, none a
      header cell, and not all of them delimiter cells. */
  function Classify(line: string): (k: LineKind)
    ensures k.DataRow? ==> k.cells == Cells(line) && |k.cells| == ExpectedWidth && HeaderLabel !in k.cells
    ensures k.DataRow? ==> !IsDelimiterRow(k.cells)
    ensures k.Delimiter? <==> IsCandidate(line) && IsDelimiterRow(Cells(line))
    ensures !k.Delimiter? ==> k == ClassifyAsWritten(line)
  {
    if IsCandidate(line) && IsDelimiterRow(Cells(line)) then Delimiter else ClassifyAsWritten(line)
  }

  /** As written, a line becomes a row exactly when it is a candidate
      holding exactly six `|` characters and no header cell. */
  lemma DataRowIff(line: string)
    ensures ClassifyAsWritten(line).DataRow? <==>
      (IsCandidate(line) && Count(line, '|') == 6 && HeaderLabel !in Cells(line))
  {
  }

  /** To the corrected test, a line is a row exactly when it is one as
      written and its cells are not all delimiter cells. */
  lemma CorrectedRowIff(line: string)
    ensures Classify(line).DataRow? <==>
      (ClassifyAsWritten(line).DataRow? && !IsDelimiterRow(Cells(line)))
    ensures Classify(line).DataRow? ==> Classify(line) == ClassifyAsWritten(line)
  {
  }

  /** The pieces of a five-cell line whose every cell is written `p`. */
  function Uniform(p: string): (r: seq<string>)
    ensures |r| == 7 && r[0] == [] && r[6] == []
    ensures forall i :: 1 <= i < 6 ==> r[i] == p
  {
    ["", p, p, p, p, p, ""]
  }

  /** As written, a delimiter line with a space around each dash run, such
      as `| --- | --- | --- | --- | --- |`, becomes a menu row of five
      dash cells; the corrected test drops it. */
  lemma SpacedDelimiterAsWritten(q: string)
    requires IsDelimiterCell(q)
    ensures ClassifyAsWritten(Join(Uniform([' '] + q + [' ']), '|')) == DataRow([q, q, q, q, q])
    ensures Classify(Join(Uniform([' '] + q + [' ']), '|')) == Delimiter
  {
    var p := [' '] + q + [' '];
    DelimiterCellEnds(q);
    StripPadded(q);
    UniformSplit(p);
    UniformCandidate(p);
    UniformAsWritten(Join(Uniform(p), '|'), p);
  }

  /** As written, a delimiter line with a colon before each dash run, such
      as `|:---|:---|:---|:---|:---|`, passes the `|-` test and becomes a menu
      row of five cells; the corrected test drops it. */
  lemma AlignedDelimiterAsWritten(q: string)
    requires IsDelimiterCell(q) && q[0] == ':'
    ensures ClassifyAsWritten(Join(Uniform(q), '|')) == DataRow([q, q, q, q, q])
    ensures Classify(Join(Uniform(q), '|')) == Delimiter
  {
    DelimiterCellEnds(q);
    StripClean(q);
    UniformSplit(q);
    UniformCandidate(q);
    UniformAsWritten(Join(Uniform(q), '|'), q);
  }

  /** A delimiter cell is not empty, holds no bar, and has no whitespace at
      either end. */
  lemma DelimiterCellEnds(q: string)
    requires IsDelimiterCell(q)
    ensures |q| > 0 && !IsSpace(q[0]) && !IsSpace(q[|q| - 1]) && '|' !in q
  {
    assert q[0] == '-' || q[0] == ':';
    assert q[|q| - 1] == '-' || q[|q| - 1] == ':';
    forall k | 0 <= k < |q| ensures q[k] != '|' {
      assert q[k] == '-' || q[k] == ':';
    }
  }

  /** Splitting a line of five equal separator-free pieces gives the pieces back. */
  lemma UniformSplit(p: string)
    requires '|' !in p
    ensures Split(Join(Uniform(p), '|'), '|') == Uniform(p)
  {
    SplitJoin(Uniform(p), '|');
  }

  /** A line of five equal pieces starting with a non-dash is a candidate. */
  lemma UniformCandidate(p: string)
    requires |p| > 0 && p[0] != '-'
    ensures IsCandidate(Join(Uniform(p), '|'))
  {
    var u := Uniform(p);
    assert Join(u, '|') == u[0] + ['|'] + Join(u[1..], '|');
    assert Join(u[1..], '|') == p + ['|'] + Join(u[2..], '|');
  }

  /** Any candidate line of five equal cells that strip to a run of dashes
      and colons is kept as a row as written, and is a delimiter row to the
      corrected test. */
  lemma UniformAsWritten(line: string, p: string)
    requires Split(line, '|') == Uniform(p) && IsCandidate(line)
    requires IsDelimiterCell(Strip(p))
    ensures ClassifyAsWritten(line) == DataRow([Strip(p), Strip(p), Strip(p), Strip(p), Strip(p)])
    ensures Classify(line) == Delimiter
  {
    UniformCells(line, p);
    assert HeaderLabel !in Cells(line) by {
      assert HeaderLabel[0] != '-' && HeaderLabel[0] != ':';
    }
  }

  /** The cells of a line of five equal pieces. */
  lemma UniformCells(line: string, p: string)
    requires Split(line, '|') == Uniform(p)
    ensures Cells(line) == [Strip(p), Strip(p), Strip(p), Strip(p), Strip(p)]
  {
    var r := Cells(line);
    assert |r| == 5;
    forall i | 0 <= i < 5 ensures r[i] == Strip(p) {
      assert r[i] == Strip(Uniform(p)[i + 1]);
    }
  }

  /** The loop state: the `headers_added` flag and the rows appended so far. */
  datatype ParseState = ParseState(headersAdded: bool, rows: seq<seq<string>>)

  const Initial: ParseState := ParseState(false, [])

  /** One iteration of the inner loop (transcription.py:44-54). */
  function Step(st: ParseState, line: string): (st': ParseState)
    ensures st'.rows == st.rows + (if ClassifyAsWritten(line).DataRow? then [Cells(line)] else [])
    ensures st'.headersAdded == (st.headersAdded || ClassifyAsWritten(line).HeaderEcho?)
    ensures !IsCandidate(line) ==> st' == st
  {
    if IsCandidate(line) then
      var columns := Cells(line);
      if HeaderLabel in columns then
        if !st.headersAdded then st.(headersAdded := true) else st
      else if |columns| == ExpectedWidth then st.(rows := st.rows + [columns])
      else st
    else st
  }

  /** A row the parser keeps: five cells, none the header label. */
  predicate MenuRow(cells: seq<string>) {
    |cells| == ExpectedWidth && HeaderLabel !in cells
  }

  /** The rows a sequence of lines contributes, read off line by line
      without any parser state. */
  function DataRows(lines: seq<string>): (r: seq<seq<string>>)
    ensures |r| <= |lines|
    ensures forall k :: 0 <= k < |r| ==> MenuRow(r[k])
  {
    if |lines| == 0 then []
    else
      var k := ClassifyAsWritten(lines[0]);
      var head := if k.DataRow? then [k.cells] else [];
      var rest := DataRows(lines[1..]);
      MenuRowsAppend(head, rest);
      head + rest
  }

  /** Rows the parser keeps stay so when two lists of them are joined. */
  lemma MenuRowsAppend(a: seq<seq<string>>, b: seq<seq<string>>)
    requires forall k :: 0 <= k < |a| ==> MenuRow(a[k])
    requires forall k :: 0 <= k < |b| ==> MenuRow(b[k])
    ensures forall k :: 0 <= k < |a + b| ==> MenuRow((a + b)[k])
  {
    forall k | 0 <= k < |a + b| ensures MenuRow((a + b)[k]) {
      if k >= |a| {
        assert (a + b)[k] == b[k - |a|];
      }
    }
  }

  /** The rows that are not made only of delimiter cells, in order. */
  function WithoutDelimiters(rows: seq<seq<string>>): (r: seq<seq<string>>)
    ensures |r| <= |rows|
    ensures forall k :: 0 <= k < |r| ==> r[k] in rows && !IsDelimiterRow(r[k])
    ensures forall x :: x in rows && !IsDelimiterRow(x) ==> x in r
  {
    if |rows| == 0 then []
    else
      var rest := WithoutDelimiters(rows[1..]);
      assert forall x :: x in rows ==> x == rows[0] || x in rows[1..];
      (if IsDelimiterRow(rows[0]) then [] else [rows[0]]) + rest
  }

  /** The rows a reply contributes under the corrected test. */
  function CorrectedRows(lines: seq<string>): (r: seq<seq<string>>)
    ensures |r| <= |lines|
    ensures forall k :: 0 <= k < |r| ==> CleanRow(r[k])
  {
    if |lines| == 0 then []
    else
      var k := Classify(lines[0]);
      var head := if k.DataRow? then [k.cells] else [];
      var rest := CorrectedRows(lines[1..]);
      CleanRowsAppend(head, rest);
      head + rest
  }

  /** A row the corrected parser keeps. */
  predicate CleanRow(cells: seq<string>) {
    MenuRow(cells) && !IsDelimiterRow(cells)
  }

  lemma CleanRowsAppend(a: seq<seq<string>>, b: seq<seq<string>>)
    requires forall k :: 0 <= k < |a| ==> CleanRow(a[k])
    requires forall k :: 0 <= k < |b| ==> CleanRow(b[k])
    ensures forall k :: 0 <= k < |a + b| ==> CleanRow((a + b)[k])
  {
    forall k | 0 <= k < |a + b| ensures CleanRow((a + b)[k]) {
      if k >= |a| {
        assert (a + b)[k] == b[k - |a|];
      }
    }
  }

  /** The corrected parser keeps exactly the rows the code keeps, less
      those made only of delimiter cells. */
  lemma {:induction false} CorrectedRowsFilter(lines: seq<string>)
    ensures CorrectedRows(lines) == WithoutDelimiters(DataRows(lines))
  {
    if |lines| > 0 {
      CorrectedRowsFilter(lines[1..]);
      CorrectedRowIff(lines[0]);
      var d := DataRows(lines);
      var rest := DataRows(lines[1..]);
      if ClassifyAsWritten(lines[0]).DataRow? {
        assert d == [Cells(lines[0])] + rest;
        assert d[0] == Cells(lines[0]) && d[1..] == rest;
      } else {
        assert d == rest;
      }
    }
  }

  /** A candidate with a `CategoryTitleDefault` cell: an echoed header. */
  predicate EchoesHeader(line: string) {
    IsCandidate(line) && HeaderLabel in Cells(line)
  }

  /** Some line of the reply echoes the header. */
  /** The code's own test and `EchoesHeader` agree on every line. */
  lemma EchoesHeaderAgrees(line: string)
    ensures EchoesHeader(line) == ClassifyAsWritten(line).HeaderEcho?
  {
  }

  predicate HasHeaderEcho(lines: seq<string>) {
    |lines| > 0 && (EchoesHeader(lines[0]) || HasHeaderEcho(lines[1..]))
  }

  /** The inner loop over one reply's lines. The flag never changes which
      rows are kept; it only records whether a header echo was seen. */
  function ParseLines(st: ParseState, lines: seq<string>): (st': ParseState)
    ensures st'.rows == st.rows + DataRows(lines)
    ensures st.headersAdded ==> st'.headersAdded
    decreases |lines|
  {
    if |lines| == 0 then st
    else
      StepRows(st, lines);
      ParseLines(Step(st, lines[0]), lines[1..])
  }

  /** The first line's row, if any, comes before the rest's. */
  lemma StepRows(st: ParseState, lines: seq<string>)
    requires |lines| > 0
    ensures Step(st, lines[0]).rows + DataRows(lines[1..]) == st.rows + DataRows(lines)
  {
    var k := ClassifyAsWritten(lines[0]);
    var x := if k.DataRow? then [k.cells] else [];
    var d := DataRows(lines[1..]);
    assert Step(st, lines[0]).rows == st.rows + x;
    assert DataRows(lines) == x + d;
    ConcatAssoc(st.rows, x, d);
  }

  lemma ConcatAssoc<T>(a: seq<T>, b: seq<T>, c: seq<T>)
    ensures (a + b) + c == a + (b + c)
  {
  }

  /** After a reply, `headers_added` is set exactly when it was set before
      or one of the reply's lines echoed the header. */
  lemma {:induction false} ParseLinesFlag(st: ParseState, lines: seq<string>)
    ensures ParseLines(st, lines).headersAdded == (st.headersAdded || HasHeaderEcho(lines))
    decreases |lines|
  {
    if |lines| > 0 {
      ParseLinesFlag(Step(st, lines[0]), lines[1..]);
    }
  }

  /** `response...content.split('\n')`. */
  function Lines(reply: string): (r: seq<string>)
    ensures forall i :: 0 <= i < |r| ==> '\n' !in r[i]
  {
    Split(reply, '\n')
  }

  /** The lines of a reply, joined back with newlines, are the reply. */
  lemma LinesJoin(reply: string)
    ensures Join(Lines(reply), '\n') == reply
  {
    JoinSplit(reply, '\n');
  }

  /** The rows all pages contribute: page order, then line order. */
  function PageRows(replies: seq<string>): (r: seq<seq<string>>)
    ensures forall k :: 0 <= k < |r| ==> MenuRow(r[k])
  {
    if |replies| == 0 then [] else DataRows(Lines(replies[0])) + PageRows(replies[1..])
  }

  /** The outer loop over pages, with the flag shared by all of them. */
  function ParsePages(st: ParseState, replies: seq<string>): (st': ParseState)
    ensures st'.rows == st.rows + PageRows(replies)
    ensures st.headersAdded ==> st'.headersAdded
    decreases |replies|
  {
    if |replies| == 0 then st
    else
      PageRowsCons(st, replies);
      ParsePages(ParseLines(st, Lines(replies[0])), replies[1..])
  }

  /** The first page's rows come before the rest's. */
  lemma PageRowsCons(st: ParseState, replies: seq<string>)
    requires |replies| > 0
    ensures st.rows + DataRows(Lines(replies[0])) + PageRows(replies[1..]) == st.rows + PageRows(replies)
  {
  }

  /** `df.loc[len(df)] = columns`: the cells land left to right in the five
      default columns, unchanged. */
  function RowOf(cells: seq<string>): (r: Row)
    requires |cells| == ExpectedWidth
    ensures r.Keys == ColumnSet(DefaultColumns)
    ensures forall j :: 0 <= j < ExpectedWidth ==> r[DefaultColumns[j]] == Some(cells[j])
  {
    map[Default(CategoryTitle) := Some(cells[0]), Default(SubcategoryTitle) := Some(cells[1]),
        Default(ItemName) := Some(cells[2]), Default(ItemDescription) := Some(cells[3]),
        ItemPrice := Some(cells[4])]
  }

  /** The DataFrame after the page loop, before the required columns are added. */
  function Accumulate(replies: seq<string>): (t: Table)
    ensures WellFormed(t) && t.columns == DefaultColumns
    ensures |t.rows| == |PageRows(replies)|
    ensures forall i, j :: 0 <= i < |t.rows| && 0 <= j < ExpectedWidth ==>
              t.rows[i][DefaultColumns[j]] == Some(PageRows(replies)[i][j])
  {
    var parsed := ParsePages(Initial, replies).rows;
    assert parsed == PageRows(replies);
    Table(DefaultColumns, seq(|parsed|, i requires 0 <= i < |parsed| => RowOf(parsed[i])))
  }

  /** Widening a table of default columns keeps its default cells and
      fills every other column with "". */
  lemma NormaliseDefaults(t: Table)
    requires WellFormed(t) && t.columns == DefaultColumns
    ensures Normalise(t).columns == RequiredColumns
    ensures forall i, c :: 0 <= i < |t.rows| && c in DefaultColumns ==> Normalise(t).rows[i][c] == t.rows[i][c]
    ensures forall i, c :: 0 <= i < |t.rows| ==> c in Normalise(t).rows[i]
    ensures forall i, c :: 0 <= i < |t.rows| && c !in DefaultColumns ==> Normalise(t).rows[i][c] == Some("")
  {
    NormaliseDefaultsOrder(t);
    RequiredColumnsDistinct();
    var r := Normalise(t);
    forall i, c | 0 <= i < |t.rows| && c in DefaultColumns ensures r.rows[i][c] == t.rows[i][c] {
      assert c in t.rows[i];
    }
  }

  /** `process_image_to_excel(images, menu_language)` given the model's reply
      for each image: one row per accepted line, in page then line order,
      with the 25 required columns in the fixed output order; the accepted
      cells fill the default columns and every other cell is "". */
  function ProcessImageToExcel(replies: seq<string>): (t: Table)
    ensures WellFormed(t) && t.columns == RequiredColumns
    ensures |t.rows| == |PageRows(replies)|
    ensures forall i, j :: 0 <= i < |t.rows| && 0 <= j < ExpectedWidth ==>
              t.rows[i][DefaultColumns[j]] == Some(PageRows(replies)[i][j])
    ensures forall i, c :: 0 <= i < |t.rows| && c !in DefaultColumns ==> c in t.rows[i] && t.rows[i][c] == Some("")
  {
    var t0 := Accumulate(replies);
    NormaliseDefaults(t0);
    Normalise(t0)
  }
}
