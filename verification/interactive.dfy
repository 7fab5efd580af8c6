/** interactive_parser.py: column ranges are derived from the left edges that
    recur across the data rows of a sample page, and each row's characters are
    then bucketed into those half-open ranges, one text per column. */
module InteractiveParser {
  import opened Wrappers
  import opened Text
  import opened Positioned

  /** The seven columns of the table, in order. */
  const Columns: seq<string> := ["PNA", "Miejscowość", "Ulica", "Numery", "Gmina", "Powiat", "Województwo"]

  /** The boundary appended after the last suggested one. */
  const EndBoundary: int := 999

  /** The header keywords that parse_pdf_with_columns skips. */
  const ColumnHeaderKeywords: seq<string> := ["Poczta Polska", "PNA Miejscowość", "Strona"]

  // ---------------------------------------------------------------------------
  // Data rows

  /** analyze_page_structure's test (interactive_parser.py:74-86): the first word
      of the cleaned row text is a postal code, so a data row is one whose first
      word is a postal code. */
  function IsDataRow(text: string): (b: bool)
    ensures b <==> Split(text) != [] && IsPostalPattern(Split(text)[0])
  {
    var parts := Split(CleanText(text));
    parts != [] && IsPostalPattern(parts[0])
  }

  /** parse_pdf_with_columns' test (interactive_parser.py:300-310): at least three
      words, a postal code first and no header keyword; every row it accepts is a
      data row. */
  function IsColumnDataRow(text: string): (b: bool)
    ensures b <==>
      |Split(text)| >= 3 && IsPostalPattern(Split(text)[0]) && !ContainsAny(Strip(text), ColumnHeaderKeywords)
    ensures b ==> IsDataRow(text)
  {
    var t := Strip(text);
    SplitStrip(text);
    assert Split("") == [];
    t != "" && |Split(t)| >= 3 && !ContainsAny(t, ColumnHeaderKeywords) && IsPostalPattern(Split(t)[0])
  }

  /** The converse fails: a postal code followed by one word is a data row that
      parse_pdf_with_columns skips. */
  lemma ShortDataRow(text: string)
    requires Split(text) == ["01-234", "Abc"]
    ensures IsDataRow(text) && !IsColumnDataRow(text)
  {
  }

  // ---------------------------------------------------------------------------
  // analyze_column_positions

  /** The number of rows in which position `x` occurs. */
  function RowCount(rows: seq<seq<int>>, x: int): nat {
    if rows == [] then 0
    else RowCount(rows[..|rows| - 1], x) + (if x in rows[|rows| - 1] then 1 else 0)
  }

  /** Whether `x` occurs in at least 30% of the rows. */
  predicate Common(rows: seq<seq<int>>, x: int) {
    10 * RowCount(rows, x) >= 3 * |rows|
  }

  predicate Increasing(xs: seq<int>) {
    forall i, j :: 0 <= i < j < |xs| ==> xs[i] < xs[j]
  }

  /** analyze_column_positions (interactive_parser.py:98-138), each row given as
      the rounded left edges of its characters: None for no rows; otherwise the
      positions that occur in at least 30% of the rows, ascending. */
  method AnalyzeColumnPositions(rows: seq<seq<int>>) returns (r: Option<seq<int>>)
    ensures r.None? <==> rows == []
    ensures r.Some? ==> Increasing(r.value) && forall x :: x in r.value <==> Common(rows, x)
  {
    if rows == [] {
      return None;
    }
    // all_x_positions: each row contributes each of its positions once
    var allX: seq<int> := [];
    var i := 0;
    while i < |rows|
      invariant 0 <= i <= |rows|
      invariant forall x :: multiset(allX)[x] == RowCount(rows[..i], x)
    {
      var keys := RowPositions(rows[i]);
      allX := allX + keys;
      assert rows[..i + 1][..i] == rows[..i];
      i := i + 1;
    }
    assert rows[..|rows|] == rows;
    var counter := multiset(allX);
    var common: seq<int> := [];
    var k := 0;
    while k < |allX|
      invariant 0 <= k <= |allX|
      invariant Increasing(common)
      invariant forall x :: x in common <==> x in allX[..k] && 10 * counter[x] >= 3 * |rows|
    {
      var x := allX[k];
      if 10 * counter[x] >= 3 * |rows| && x !in common {
        common := InsertAscending(common, x);
      }
      assert allX[..k + 1] == allX[..k] + [x];
      k := k + 1;
    }
    assert allX[..|allX|] == allX;
    forall x ensures x in common <==> Common(rows, x) {
      assert x in allX <==> counter[x] > 0;
    }
    r := Some(common);
  }

  /** The keys of one row's `x_groups`: each position of the row once. */
  method RowPositions(row: seq<int>) returns (keys: seq<int>)
    ensures forall x :: multiset(keys)[x] == if x in row then 1 else 0
  {
    keys := [];
    var j := 0;
    while j < |row|
      invariant 0 <= j <= |row|
      invariant forall x :: multiset(keys)[x] == if x in row[..j] then 1 else 0
    {
      var x := row[j];
      if multiset(keys)[x] == 0 {
        keys := keys + [x];
      }
      assert row[..j + 1] == row[..j] + [x];
      j := j + 1;
    }
    assert row[..|row|] == row;
  }

  /** `x` placed into an ascending sequence that lacks it (the final `sort()`). */
  function InsertAscending(xs: seq<int>, x: int): (r: seq<int>)
    requires Increasing(xs) && x !in xs
    ensures Increasing(r) && forall y :: y in r <==> y in xs || y == x
  {
    if xs == [] || x < xs[0] then [x] + xs
    else
      assert x !in xs[1..] && Increasing(xs[1..]);
      var rest := InsertAscending(xs[1..], x);
      assert forall k :: 0 <= k < |rest| ==> xs[0] < rest[k] by {
        forall k | 0 <= k < |rest| ensures xs[0] < rest[k] {
          assert rest[k] in rest;
          if rest[k] != x {
            var m :| 0 <= m < |xs[1..]| && xs[1..][m] == rest[k];
            assert xs[m + 1] == rest[k];
          }
        }
      }
      assert xs == [xs[0]] + xs[1..];
      [xs[0]] + rest
  }

  /** An ascending sequence is determined by its elements, so the contract of
      AnalyzeColumnPositions fixes its result. */
  lemma {:induction false} IncreasingUnique(a: seq<int>, b: seq<int>)
    requires Increasing(a) && Increasing(b)
    requires forall x :: x in a <==> x in b
    ensures a == b
    decreases |a|
  {
    if a != [] || b != [] {
      assert a != [] && b != [] by {
        if a != [] {
          assert a[0] in a;
        }
        if b != [] {
          assert b[0] in b;
        }
      }
      assert a[0] in a && b[0] in b;
      assert a[0] == b[0];
      forall x ensures x in a[1..] <==> x in b[1..] {
        if x in a[1..] {
          var m :| 0 <= m < |a[1..]| && a[1..][m] == x;
          assert a[m + 1] == x && x in a;
          var k :| 0 <= k < |b| && b[k] == x;
          assert k > 0 && b[1..][k - 1] == x;
        }
        if x in b[1..] {
          var m :| 0 <= m < |b[1..]| && b[1..][m] == x;
          assert b[m + 1] == x && x in b;
          var k :| 0 <= k < |a| && a[k] == x;
          assert k > 0 && a[1..][k - 1] == x;
        }
      }
      IncreasingUnique(a[1..], b[1..]);
    }
  }

  // ---------------------------------------------------------------------------
  // Column ranges

  /** A column's half-open range of left edges. */
  datatype ColumnRange = ColumnRange(name: string, start: int, end: int)

  predicate InRange(x: real, col: ColumnRange) {
    col.start as real <= x < col.end as real
  }

  /** The boundaries of interactive_parser.py:182-194: the first six common
      positions and the end boundary when six exist; otherwise 0 for the first
      column, the six typed positions, and the end boundary. */
  function SuggestedBoundaries(commonX: seq<int>, typed: seq<int>): seq<int>
    requires |typed| == |Columns| - 1
  {
    if |commonX| >= 6 then commonX[..6] + [EndBoundary] else [0] + typed + [EndBoundary]
  }

  /** The range of column `i`: from boundary `i` to boundary `i + 1`, with 0 and
      the end boundary for boundaries that do not exist. */
  function RangeFor(b: seq<int>, i: nat): ColumnRange
    requires i < |Columns|
  {
    ColumnRange(
      Columns[i],
      if i < |b| then b[i] else 0,
      if i + 1 < |b| then b[i + 1] else EndBoundary)
  }

  /** The loop of interactive_parser.py:197-205, writing one range per column. */
  method BuildColumnRanges(b: seq<int>) returns (cols: seq<ColumnRange>)
    ensures |cols| == |Columns|
    ensures forall i :: 0 <= i < |Columns| ==> cols[i] == RangeFor(b, i)
  {
    cols := [];
    var i := 0;
    while i < |Columns|
      invariant 0 <= i <= |Columns| && |cols| == i
      invariant forall k :: 0 <= k < i ==> cols[k] == RangeFor(b, k)
    {
      var startX := if i < |b| then b[i] else 0;
      var endX := if i + 1 < |b| then b[i + 1] else EndBoundary;
      cols := cols + [ColumnRange(Columns[i], startX, endX)];
      i := i + 1;
    }
  }

  predicate Ascending(b: seq<int>) {
    forall p, q :: 0 <= p < q < |b| ==> b[p] <= b[q]
  }

  /** With at least seven boundaries each column ends where the next one starts. */
  lemma RangesAdjacent(b: seq<int>, i: nat)
    requires |b| >= |Columns| && i + 1 < |Columns|
    ensures RangeFor(b, i).end == RangeFor(b, i + 1).start
  {
  }

  /** With ascending boundaries no left edge lies in two columns. */
  lemma RangesDisjoint(b: seq<int>, i: nat, j: nat, x: real)
    requires |b| >= |Columns| && Ascending(b) && i < j < |Columns|
    ensures !(InRange(x, RangeFor(b, i)) && InRange(x, RangeFor(b, j)))
  {
    assert b[i + 1] <= b[j];
  }

  /** With eight ascending boundaries every left edge between the first and the
      last lies in some column. */
  lemma RangesCover(b: seq<int>, x: real) returns (i: nat)
    requires |b| >= |Columns| + 1 && Ascending(b) && b[0] as real <= x < b[7] as real
    ensures i < |Columns| && InRange(x, RangeFor(b, i))
  {
    i := 0;
    while i < 6 && b[i + 1] as real <= x
      invariant 0 <= i <= 6 && b[i] as real <= x
    {
      i := i + 1;
    }
  }

  /** Typed positions that ascend within 0 and the end boundary give ascending
      boundaries from 0 to the end boundary, so the seven columns partition
      [0, 999). */
  lemma ManualBoundaries(commonX: seq<int>, typed: seq<int>)
    requires |commonX| < 6 && |typed| == |Columns| - 1
    requires Ascending(typed) && forall k :: 0 <= k < |typed| ==> 0 <= typed[k] <= EndBoundary
    ensures var b := SuggestedBoundaries(commonX, typed);
      |b| == |Columns| + 1 && Ascending(b) && b[0] == 0 && b[7] == EndBoundary
  {
    var b := SuggestedBoundaries(commonX, typed);
    forall p, q | 0 <= p < q < |b| ensures b[p] <= b[q] {
      if 0 < p && q < 7 {
        assert b[p] == typed[p - 1] && b[q] == typed[q - 1];
      } else if 0 < p {
        assert b[p] == typed[p - 1];
      } else if q < 7 {
        assert b[q] == typed[q - 1];
      }
    }
  }

  /** In the automatic branch Województwo gets the empty range [999, 999). */
  lemma AutomaticLastColumn(commonX: seq<int>, typed: seq<int>, x: real)
    requires |commonX| >= 6 && |typed| == |Columns| - 1
    ensures RangeFor(SuggestedBoundaries(commonX, typed), 6) == ColumnRange("Województwo", EndBoundary, EndBoundary)
    ensures !InRange(x, RangeFor(SuggestedBoundaries(commonX, typed), 6))
  {
  }

  // ---------------------------------------------------------------------------
  // parse_row_with_columns

  function ColumnBand(col: ColumnRange): Band {
    Span(col.start as real, col.end as real)
  }

  /** A column's text: the texts of its characters in row order, stripped and with
      whitespace runs collapsed. */
  function ColumnText(row: seq<PChar>, col: ColumnRange): string {
    Collapse(Strip(Texts(Select(row, ColumnBand(col)))))
  }

  /** The result dictionary after the columns `cols`, later names overwriting
      earlier ones as dictionary assignment does. */
  function ColumnTexts(row: seq<PChar>, cols: seq<ColumnRange>): map<string, string> {
    if cols == [] then map[]
    else ColumnTexts(row, cols[..|cols| - 1])[cols[|cols| - 1].name := ColumnText(row, cols[|cols| - 1])]
  }

  /** parse_row_with_columns (interactive_parser.py:231-257): None for no
      characters; otherwise the caller's characters are sorted by left edge in
      place and every column gets the text of the characters in its range. */
  method ParseRowWithColumns(chars: array<PChar>, columns: seq<ColumnRange>) returns (r: Option<map<string, string>>)
    modifies chars
    ensures r.None? <==> chars.Length == 0
    ensures chars[..] == SortByX(old(chars[..]))
    ensures r.Some? ==> r.value == ColumnTexts(chars[..], columns)
  {
    if chars.Length == 0 {
      return None;
    }
    SortCharsByX(chars);
    var result := ColumnsOfRow(chars[..], columns);
    r := Some(result);
  }

  /** The loop of parse_row_with_columns (interactive_parser.py:243-255) over the
      sorted characters: one stripped, collapsed text per column. */
  method ColumnsOfRow(row: seq<PChar>, columns: seq<ColumnRange>) returns (result: map<string, string>)
    ensures result == ColumnTexts(row, columns)
  {
    result := map[];
    var i := 0;
    while i < |columns|
      invariant 0 <= i <= |columns|
      invariant result == ColumnTexts(row, columns[..i])
    {
      var col := columns[i];
      var colChars := Select(row, Span(col.start as real, col.end as real));
      var colText := Strip(Texts(colChars));
      colText := Collapse(colText);
      result := result[col.name := colText];
      assert columns[..i + 1][..i] == columns[..i];
      i := i + 1;
    }
    assert columns[..|columns|] == columns;
  }

  /** The column names of a configuration are distinct (they are the keys of a
      dictionary). */
  predicate DistinctNames(cols: seq<ColumnRange>) {
    forall i, j :: 0 <= i < j < |cols| ==> cols[i].name != cols[j].name
  }

  /** The result has exactly one key per configured column. */
  lemma {:induction false} ColumnTextsKeys(row: seq<PChar>, cols: seq<ColumnRange>)
    ensures forall i :: 0 <= i < |cols| ==> cols[i].name in ColumnTexts(row, cols)
    ensures forall n :: n in ColumnTexts(row, cols) ==> exists i :: 0 <= i < |cols| && cols[i].name == n
    decreases |cols|
  {
    if cols != [] {
      var pre := cols[..|cols| - 1];
      ColumnTextsKeys(row, pre);
      forall n | n in ColumnTexts(row, cols) ensures exists i :: 0 <= i < |cols| && cols[i].name == n {
        if n != cols[|cols| - 1].name {
          var i :| 0 <= i < |pre| && pre[i].name == n;
          assert cols[i].name == n;
        }
      }
      forall i | 0 <= i < |cols| ensures cols[i].name in ColumnTexts(row, cols) {
        if i < |pre| {
          assert pre[i] == cols[i];
        }
      }
    }
  }

  /** With distinct names, each column's key holds that column's text. */
  lemma {:induction false} ColumnTextsValues(row: seq<PChar>, cols: seq<ColumnRange>, i: nat)
    requires DistinctNames(cols) && i < |cols|
    ensures cols[i].name in ColumnTexts(row, cols)
    ensures ColumnTexts(row, cols)[cols[i].name] == ColumnText(row, cols[i])
    decreases |cols|
  {
    var pre := cols[..|cols| - 1];
    if i < |pre| {
      assert DistinctNames(pre) by {
        forall p, q | 0 <= p < q < |pre| ensures pre[p].name != pre[q].name {
          assert pre[p] == cols[p] && pre[q] == cols[q];
        }
      }
      assert pre[i] == cols[i];
      ColumnTextsValues(row, pre, i);
    }
  }

  /** A column's text is the words of its characters' texts (characters with
      `start <= x0 < end`, in row order) joined by single spaces. */
  lemma ColumnTextWords(row: seq<PChar>, col: ColumnRange)
    ensures ColumnText(row, col) == Join(Split(Texts(Select(row, ColumnBand(col)))), " ")
  {
    var t := Texts(Select(row, ColumnBand(col)));
    if t == "" {
      assert Split("") == [];
    } else {
      assert CleanText(t) == Collapse(Strip(t));
    }
  }

  /** The characters of a column after the sort: ascending by left edge, and
      exactly the row's characters whose left edge is in the column's range, as
      often as the row has them. */
  lemma ColumnChars(chars: seq<PChar>, col: ColumnRange, c: PChar)
    ensures SortedByX(Select(SortByX(chars), ColumnBand(col)))
    ensures multiset(Select(SortByX(chars), ColumnBand(col)))[c] ==
      if InRange(c.x0, col) then multiset(chars)[c] else 0
  {
    SortByXSorted(chars);
    SelectSorted(SortByX(chars), ColumnBand(col));
    SelectCount(SortByX(chars), ColumnBand(col), c);
  }

  /** With non-overlapping ranges no character lands in two columns. */
  lemma NoCharInTwoColumns(row: seq<PChar>, a: ColumnRange, b: ColumnRange, c: PChar)
    requires a.end <= b.start || b.end <= a.start
    ensures !(c in Select(row, ColumnBand(a)) && c in Select(row, ColumnBand(b)))
  {
    if c in Select(row, ColumnBand(a)) && c in Select(row, ColumnBand(b)) {
      SelectMember(row, ColumnBand(a), c);
      SelectMember(row, ColumnBand(b), c);
    }
  }

  /** A column with an empty range always gets "". */
  lemma EmptyRangeText(row: seq<PChar>, col: ColumnRange)
    requires col.end <= col.start
    ensures ColumnText(row, col) == ""
  {
    EmptySelect(row, ColumnBand(col));
  }

  lemma {:induction false} EmptySelect(row: seq<PChar>, band: Band)
    requires band.Span? && band.hi <= band.lo
    ensures Select(row, band) == []
    decreases |row|
  {
    if row != [] {
      EmptySelect(row[..|row| - 1], band);
    }
  }

  /** In the automatic branch the Województwo column of every row is "". */
  lemma AutomaticWojewodztwoEmpty(commonX: seq<int>, typed: seq<int>, row: seq<PChar>)
    requires |commonX| >= 6 && |typed| == |Columns| - 1
    ensures ColumnText(row, RangeFor(SuggestedBoundaries(commonX, typed), 6)) == ""
  {
    EmptyRangeText(row, RangeFor(SuggestedBoundaries(commonX, typed), 6));
  }

  /** The configured column names are distinct, so the result has seven keys. */
  lemma ColumnNamesDistinct(b: seq<int>, cols: seq<ColumnRange>)
    requires |cols| == |Columns| && forall i :: 0 <= i < |Columns| ==> cols[i] == RangeFor(b, i)
    ensures DistinctNames(cols)
  {
    forall i, j | 0 <= i < j < |cols| ensures cols[i].name != cols[j].name {
      assert cols[i].name == Columns[i] && cols[j].name == Columns[j];
    }
  }
}
