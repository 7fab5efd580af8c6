/** pdf_extraction_process/process_postal_codes.py: the tables of all pages are
    cleaned and stitched into one frame, rows without a PNA are folded into the
    row above until nothing changes, and the PNA column is checked. */
module ProcessPostalCodes {
  import opened Wrappers
  import opened Text

  // ---------------------------------------------------------------------------
  // Table stitching (extract_tables_from_pdf)

  /** A table as the PDF layer returns it: rows of cell texts. */
  type Table = seq<seq<string>>

  predicate NoBreaks(s: string) {
    forall i :: 0 <= i < |s| ==> s[i] != '\n' && s[i] != '\r'
  }

  /** `.str.replace("\n", "").str.replace("\r", "")`: no line break is left, and
      every other character is kept as often as the text has it. */
  function RemoveBreaks(s: string): (r: string)
    ensures NoBreaks(r)
    ensures forall c :: c != '\n' && c != '\r' ==> multiset(r)[c] == multiset(s)[c]
  {
    if s == [] then []
    else
      assert s == [s[0]] + s[1..];
      (if s[0] == '\n' || s[0] == '\r' then [] else [s[0]]) + RemoveBreaks(s[1..])
  }

  /** The removal works character by character, so it keeps the order of what it
      keeps: removing from a concatenation concatenates the removals. */
  lemma {:induction false} RemoveBreaksConcat(a: string, b: string)
    ensures RemoveBreaks(a + b) == RemoveBreaks(a) + RemoveBreaks(b)
    decreases |a|
  {
    if a != [] {
      assert (a + b)[0] == a[0] && (a + b)[1..] == a[1..] + b;
      RemoveBreaksConcat(a[1..], b);
    } else {
      assert a + b == b;
    }
  }

  /** One character: a line break disappears and anything else stays. */
  lemma RemoveBreaksChar(c: char)
    ensures RemoveBreaks([c]) == if c == '\n' || c == '\r' then [] else [c]
  {
    assert [c][1..] == [];
  }

  /** The cleaning of every cell: line breaks removed, then stripped. */
  function CleanCell(s: string): (r: string)
    ensures NoBreaks(r) && IsStripped(r)
  {
    var t := RemoveBreaks(s);
    StripShape(t);
    StripKeepsNoBreaks(t);
    Strip(t)
  }

  lemma StripKeepsNoBreaks(t: string)
    requires NoBreaks(t)
    ensures NoBreaks(Strip(t))
  {
    TrimStartSpec(t);
    TrimEndSpec(TrimStart(t));
    var u := TrimStart(t);
    forall i | 0 <= i < |Strip(t)| ensures Strip(t)[i] != '\n' && Strip(t)[i] != '\r' {
      assert Strip(t)[i] == u[i] == t[|t| - |u| + i];
    }
  }

  lemma {:induction false} NoBreaksFixed(s: string)
    requires NoBreaks(s)
    ensures RemoveBreaks(s) == s
    decreases |s|
  {
    if s != [] {
      NoBreaksFixed(s[1..]);
      assert s == [s[0]] + s[1..];
    }
  }

  /** Cleaning a clean cell changes nothing. */
  lemma CleanCellIdempotent(s: string)
    ensures CleanCell(CleanCell(s)) == CleanCell(s)
  {
    var c := CleanCell(s);
    NoBreaksFixed(c);
    StrippedFixed(c);
  }

  function CleanRow(r: seq<string>): (c: seq<string>)
    ensures |c| == |r| && forall k :: 0 <= k < |r| ==> c[k] == CleanCell(r[k])
  {
    if r == [] then [] else [CleanCell(r[0])] + CleanRow(r[1..])
  }

  function CleanTable(t: Table): (c: Table)
    ensures |c| == |t| && forall k :: 0 <= k < |t| ==> c[k] == CleanRow(t[k])
  {
    if t == [] then [] else [CleanRow(t[0])] + CleanTable(t[1..])
  }

  /** `df.iloc[k:]`. */
  function DropRows(t: Table, k: nat): Table {
    if |t| <= k then [] else t[k..]
  }

  /** The rows the loop of process_postal_codes.py:73-97 collects: table 0 from
      row 2 on, every later table from row 1 on, all cells cleaned. */
  function StitchedRows(tables: seq<Table>): Table {
    if |tables| == 0 then []
    else if |tables| == 1 then DropRows(CleanTable(tables[0]), 2)
    else StitchedRows(tables[..|tables| - 1]) + DropRows(CleanTable(tables[|tables| - 1]), 1)
  }

  datatype StitchError = NoTables | NoHeaderRow

  /** The header and the data rows of the stitched frame. */
  datatype Stitched = Stitched(header: seq<string>, rows: Table)

  /** extract_tables_from_pdf after the PDF read (process_postal_codes.py:64-102):
      no table is an error; the first stitched row becomes the header (an empty
      stitch has none, which the source reports by raising); the rest are the data.
      Dropping all-empty rows afterwards changes nothing, since every cell is a
      string. */
  method StitchTables(tables: seq<Table>) returns (r: Result<Stitched, StitchError>)
    ensures tables == [] <==> r == Failure(NoTables)
    ensures tables != [] ==> (r == Failure(NoHeaderRow) <==> StitchedRows(tables) == [])
    ensures r.Success? ==> r.value == Stitched(StitchedRows(tables)[0], StitchedRows(tables)[1..])
  {
    if |tables| == 0 {
      return Failure(NoTables);
    }
    var merged: Table := [];
    var i := 0;
    while i < |tables|
      invariant 0 <= i <= |tables|
      invariant merged == StitchedRows(tables[..i])
    {
      var df := CleanTable(tables[i]);
      if i == 0 {
        merged := DropRows(df, 2);
      } else {
        merged := merged + DropRows(df, 1);
      }
      assert tables[..i + 1][..i] == tables[..i];
      i := i + 1;
    }
    assert tables[..|tables|] == tables;
    if merged == [] {
      return Failure(NoHeaderRow);
    }
    r := Success(Stitched(merged[0], merged[1..]));
  }

  /** Every cell without a line break and without surrounding whitespace. */
  predicate CleanCells(t: Table) {
    forall i, k :: 0 <= i < |t| && 0 <= k < |t[i]| ==> NoBreaks(t[i][k]) && IsStripped(t[i][k])
  }

  lemma CleanCellsParts(a: Table, b: Table, n: nat)
    requires CleanCells(a) && CleanCells(b)
    ensures CleanCells(a + b) && CleanCells(DropRows(a, n))
  {
    assert forall i :: 0 <= i < |a + b| ==> (a + b)[i] == if i < |a| then a[i] else b[i - |a|];
  }

  /** Every stitched cell is clean: no line break and no surrounding whitespace. */
  lemma {:induction false} StitchedCellsClean(tables: seq<Table>)
    ensures CleanCells(StitchedRows(tables))
    decreases |tables|
  {
    if |tables| == 1 {
      CleanCellsParts(CleanTable(tables[0]), [], 2);
    } else if |tables| > 1 {
      StitchedCellsClean(tables[..|tables| - 1]);
      var last := CleanTable(tables[|tables| - 1]);
      CleanCellsParts(last, [], 1);
      CleanCellsParts(StitchedRows(tables[..|tables| - 1]), DropRows(last, 1), 0);
    }
  }

  /** The first table, from its third row on, opens the stitched frame: its third
      row is the header and its later rows are the first data rows. */
  lemma {:induction false} HeaderFromFirstTable(tables: seq<Table>)
    requires tables != [] && |tables[0]| >= 3
    ensures |StitchedRows(tables)| >= |tables[0]| - 2
    ensures StitchedRows(tables)[..|tables[0]| - 2] == CleanTable(tables[0])[2..]
    ensures StitchedRows(tables)[0] == CleanRow(tables[0][2])
    decreases |tables|
  {
    var k := |tables[0]| - 2;
    if |tables| > 1 {
      var pre := tables[..|tables| - 1];
      assert pre[0] == tables[0];
      HeaderFromFirstTable(pre);
      var last := DropRows(CleanTable(tables[|tables| - 1]), 1);
      assert (StitchedRows(pre) + last)[..k] == StitchedRows(pre)[..k];
    }
    assert StitchedRows(tables)[0] == StitchedRows(tables)[..k][0];
  }

  // ---------------------------------------------------------------------------
  // Cells and rows of the frame

  /** A cell: a text, or None for pandas' missing value. */
  type Cell = Option<string>

  /** A row of the frame, one cell per column: PNA, Miejscowość, Ulica, Numery,
      Gmina, Powiat and Województwo. */
  datatype Row = Row(pna: Cell, locality: Cell, street: Cell, numbers: Cell,
                     gmina: Cell, powiat: Cell, region: Cell)

  /** `str(x) if not pd.isna(x) else ""`. */
  function CellText(c: Cell): string {
    if c.Some? then c.value else ""
  }

  /** A missing value, or one that is whitespace only. */
  predicate Blank(c: Cell) {
    c.None? || AllSpace(c.value)
  }

  /** Blank is the test `str(x).strip() == ""` of the source. */
  lemma BlankMeansStripEmpty(c: Cell)
    ensures Blank(c) <==> Strip(CellText(c)) == ""
  {
    var s := CellText(c);
    var r := TrimStart(s);
    TrimStartSpec(s);
    TrimEndSpec(r);
    if r != [] {
      assert r[0] == s[|s| - |r|];
    }
  }

  /** A row whose PNA is missing or blank continues the row above. */
  predicate IsContinuation(r: Row) {
    Blank(r.pna)
  }

  /** A row wiped to missing values (`df.loc[i, :] = np.nan`). */
  const Missing: Row := Row(None, None, None, None, None, None, None)

  /** One column of the merge (process_postal_codes.py:160-173): a blank
      continuation value leaves the value above as it was; otherwise its words
      follow the words above, and after a hyphen the first of them is glued to
      the last word above. */
  function MergeCell(above: Cell, current: Cell): (r: Cell)
    ensures Blank(current) ==> r == above
    ensures !Blank(current) && !EndsWith(CellText(above), "-") ==>
      r.Some? && Split(r.value) == Split(CellText(above)) + Split(CellText(current))
    ensures !Blank(current) && EndsWith(CellText(above), "-") ==>
      var xs := Split(CellText(above));
      var ys := Split(CellText(current));
      && r.Some? && xs != [] && ys != []
      && Split(r.value) == xs[..|xs| - 1] + [xs[|xs| - 1] + ys[0]] + ys[1..]
  {
    var cur := Strip(CellText(current));
    if Blank(current) then above
    else
      BlankMeansStripEmpty(current);
      if EndsWith(CellText(above), "-") then
        HyphenJoinWords(CellText(above), CellText(current));
        Some(CellText(above) + cur)
      else
        SpaceJoinWords(CellText(above), CellText(current));
        Some(Strip(CellText(above) + " " + cur))
  }

  /** The row above after `current` is merged into each of the six merge columns:
      the PNA is never touched, and merging a wiped row changes nothing. */
  function MergeRow(above: Row, current: Row): (r: Row)
    ensures r.pna == above.pna
    ensures current == Missing ==> r == above
  {
    above.(locality := MergeCell(above.locality, current.locality),
           street := MergeCell(above.street, current.street),
           numbers := MergeCell(above.numbers, current.numbers),
           gmina := MergeCell(above.gmina, current.gmina),
           powiat := MergeCell(above.powiat, current.powiat),
           region := MergeCell(above.region, current.region))
  }

  // ---------------------------------------------------------------------------
  // What a merge does to one value

  /** Appending with a space puts the words of the continuation after the words
      above. */
  lemma SpaceJoinWords(a: string, c: string)
    ensures Split(Strip(a + " " + Strip(c))) == Split(a) + Split(c)
  {
    var cur := Strip(c);
    SplitStrip(a + " " + cur);
    assert a + " " + cur == a + [' '] + cur;
    SplitAround(a, ' ', cur);
    SplitStrip(c);
  }

  /** Appending directly after a hyphen glues the first word of the continuation
      to the last word above. */
  lemma HyphenJoinWords(a: string, c: string)
    requires EndsWith(a, "-") && Strip(c) != ""
    ensures var xs := Split(a); var ys := Split(c);
      && xs != [] && ys != []
      && Split(a + Strip(c)) == xs[..|xs| - 1] + [xs[|xs| - 1] + ys[0]] + ys[1..]
  {
    var cur := Strip(c);
    StripShape(c);
    assert a[|a| - 1] == a[|a| - 1..][0] == '-';
    SplitGlued(a, cur);
    SplitStrip(c);
  }

  /** A word split by a hyphen at the end of a line is joined without a space. */
  lemma HyphenatedLocality()
    ensures MergeCell(Some("Kowalska-"), Some("Dolna")) == Some("Kowalska-Dolna")
  {
    StrippedFixed("Dolna");
    assert EndsWith("Kowalska-", "-");
    assert "Kowalska-" + "Dolna" == "Kowalska-Dolna";
  }

  /** Merging into a missing value gives the stripped continuation value. */
  lemma MergeIntoNone(current: Cell)
    requires !Blank(current)
    ensures MergeCell(None, current) == Some(Strip(CellText(current)))
  {
    var cur := Strip(CellText(current));
    assert !EndsWith("", "-");
    assert "" + " " + cur == " " + cur;
    StripPrependSpace(cur);
    StripIdempotent(CellText(current));
  }

  /** Merging a value that was first merged into a wiped cell is the same as
      merging the value itself. */
  lemma MergeCellThroughNone(above: Cell, current: Cell)
    ensures MergeCell(above, MergeCell(None, current)) == MergeCell(above, current)
  {
    if !Blank(current) {
      MergeIntoNone(current);
      var cur := Strip(CellText(current));
      StripIdempotent(CellText(current));
      BlankMeansStripEmpty(current);
      BlankMeansStripEmpty(Some(cur));
    }
  }

  /** Merging a row that was first merged into a wiped row is the same as merging
      the row itself: what lets a chain of continuations fold one link per pass. */
  lemma MergeThroughMissing(x: Row, c: Row)
    ensures MergeRow(x, MergeRow(Missing, c)) == MergeRow(x, c)
  {
    MergeCellThroughNone(x.locality, c.locality);
    MergeCellThroughNone(x.street, c.street);
    MergeCellThroughNone(x.numbers, c.numbers);
    MergeCellThroughNone(x.gmina, c.gmina);
    MergeCellThroughNone(x.powiat, c.powiat);
    MergeCellThroughNone(x.region, c.region);
  }

  /** A merged value: missing, or a non-empty text without surrounding
      whitespace. */
  predicate IsCleanValue(c: Cell) {
    c.None? || (c.value != "" && IsStripped(c.value))
  }

  /** A row without a PNA whose merge columns all hold merged values, as every
      row a merge into a wiped row produces. */
  predicate Normalized(r: Row) {
    r.pna.None? && IsCleanValue(r.locality) && IsCleanValue(r.street) && IsCleanValue(r.numbers) &&
    IsCleanValue(r.gmina) && IsCleanValue(r.powiat) && IsCleanValue(r.region)
  }

  lemma MergeCellIntoNoneClean(c: Cell)
    ensures IsCleanValue(MergeCell(None, c))
    ensures IsCleanValue(c) ==> MergeCell(None, c) == c
  {
    if c.Some? {
      if IsCleanValue(c) {
        assert !IsSpace(c.value[0]);
        StrippedFixed(c.value);
      }
      if !Blank(c) {
        MergeIntoNone(c);
        StripShape(c.value);
        BlankMeansStripEmpty(c);
      }
    }
  }

  /** Merging into a wiped row yields a normalized row, and a normalized row is
      exactly what such a merge leaves unchanged. */
  lemma NormalizedMerge(c: Row)
    ensures Normalized(MergeRow(Missing, c))
    ensures Normalized(c) ==> MergeRow(Missing, c) == c
  {
    MergeCellIntoNoneClean(c.locality);
    MergeCellIntoNoneClean(c.street);
    MergeCellIntoNoneClean(c.numbers);
    MergeCellIntoNoneClean(c.gmina);
    MergeCellIntoNoneClean(c.powiat);
    MergeCellIntoNoneClean(c.region);
  }

  // ---------------------------------------------------------------------------
  // The reference: one accumulated row per row with a PNA

  /** One row into the groups formed so far: a continuation is merged into the
      last group, any other row starts a group. */
  function Absorb(g: seq<Row>, r: Row): (h: seq<Row>)
    requires g != []
    ensures |h| == if IsContinuation(r) then |g| else |g| + 1
  {
    if IsContinuation(r) then g[..|g| - 1] + [MergeRow(g[|g| - 1], r)] else g + [r]
  }

  function Extend(g: seq<Row>, s: seq<Row>): (h: seq<Row>)
    requires g != []
    ensures |g| <= |h|
    decreases |s|
  {
    if s == [] then g else Extend(Absorb(g, s[0]), s[1..])
  }

  /** Row 0 starts the first group whatever its PNA; every later row is absorbed. */
  function Groups(t: seq<Row>): seq<Row> {
    if t == [] then [] else Extend([t[0]], t[1..])
  }

  /** `dropna(how="all")`: the wiped rows removed. */
  function DropMissing(t: seq<Row>): (r: seq<Row>)
    ensures |r| <= |t|
  {
    if t == [] then []
    else (if t[0] == Missing then [] else [t[0]]) + DropMissing(t[1..])
  }

  /** What process_merged_rows computes: each row with a PNA, and row 0, with the
      continuation rows after it merged in, in order; wiped rows dropped. */
  function Merged(t: seq<Row>): seq<Row> {
    DropMissing(Groups(t))
  }

  // ---------------------------------------------------------------------------
  // process_merged_rows

  /** process_merged_rows (process_postal_codes.py:117-189) on a copy of the
      frame: a pass over rows 1.. merges each continuation into the row above
      and wipes it, wiped rows are dropped, and passes repeat until one drops
      nothing. The result is the fold Merged. */
  method ProcessMergedRows(df: seq<Row>) returns (out: seq<Row>)
    ensures out == Merged(df)
  {
    var t := df;
    while true
      invariant Merged(t) == Merged(df)
      decreases |t|
    {
      var initialLength := |t|;
      ghost var t0 := t;
      ghost var wiped := -1;
      var i := 1;
      PassStart(t);
      while i < |t|
        invariant PassState(t0, t, i, wiped)
      {
        if Blank(t[i].pna) {
          // the PNA copied into row i goes with the wipe
          PassMerge(t0, t, i, wiped);
          t := t[i - 1 := MergeRow(t[i - 1], t[i])][i := Missing];
          wiped := i;
        } else {
          PassSkip(t0, t, i, wiped);
        }
        i := i + 1;
      }
      PassEnd(t0, t, i, wiped);
      ghost var t1 := t;
      t := DropMissing(t);
      if |t| == initialLength {
        PassWithoutDrop(t0, t1, wiped);
        break;
      }
      DropKeepsMerged(t1);
    }
    out := t;
  }

  /** What a pass has done before row `i`: the fold is unchanged, rows from `i`
      on are untouched, every continuation behind `i` holds merged values only,
      the row just behind `i` is wiped if it is a continuation, and either
      nothing was wiped and the frame is as it was, or row `wiped` is wiped. */
  ghost predicate PassState(t0: seq<Row>, t: seq<Row>, i: int, wiped: int) {
    |t| == |t0| && 1 <= i && (t != [] ==> i <= |t|) &&
    Groups(t) == Groups(t0) &&
    (forall j :: i <= j < |t| ==> t[j] == t0[j]) &&
    (2 <= i <= |t| && IsContinuation(t[i - 1]) ==> t[i - 1] == Missing) &&
    (forall j :: 1 <= j < i && j < |t| && IsContinuation(t[j]) ==> Normalized(t[j])) &&
    (wiped == -1 ==> t == t0 && forall j :: 1 <= j < i && j < |t| ==> !IsContinuation(t0[j])) &&
    (wiped != -1 ==> 1 <= wiped < |t| && t[wiped] == Missing)
  }

  lemma PassStart(t: seq<Row>)
    ensures PassState(t, t, 1, -1)
  {
  }

  lemma PassSkip(t0: seq<Row>, t: seq<Row>, i: int, wiped: int)
    requires PassState(t0, t, i, wiped) && i < |t| && !IsContinuation(t[i])
    ensures PassState(t0, t, i + 1, wiped)
  {
  }

  lemma PassMerge(t0: seq<Row>, t: seq<Row>, i: int, wiped: int)
    requires PassState(t0, t, i, wiped) && i < |t| && IsContinuation(t[i])
    ensures PassState(t0, t[i - 1 := MergeRow(t[i - 1], t[i])][i := Missing], i + 1, i)
  {
    PassStep(t, i);
    PassKeepsNormalized(t, i);
  }

  lemma PassEnd(t0: seq<Row>, t: seq<Row>, i: int, wiped: int)
    requires PassState(t0, t, i, wiped) && i >= |t|
    ensures Merged(t) == Merged(t0)
    ensures forall j :: 1 <= j < |t| && IsContinuation(t[j]) ==> Normalized(t[j])
    ensures wiped == -1 ==> t == t0 && forall j :: 1 <= j < |t0| ==> !IsContinuation(t0[j])
    ensures wiped != -1 ==> 0 <= wiped < |t| && t[wiped] == Missing
  {
  }

  /** A merge keeps the PNA above, so the merged row is a continuation only when
      the row above was one, which after row 0 means a wiped row; a merge into a
      wiped row, like a wiped row, is normalized. */
  lemma PassKeepsNormalized(t: seq<Row>, i: nat)
    requires 1 <= i < |t|
    requires i >= 2 && IsContinuation(t[i - 1]) ==> t[i - 1] == Missing
    requires forall j :: 1 <= j < i && j < |t| && IsContinuation(t[j]) ==> Normalized(t[j])
    ensures var t' := t[i - 1 := MergeRow(t[i - 1], t[i])][i := Missing];
      forall j :: 1 <= j < i + 1 && j < |t'| && IsContinuation(t'[j]) ==> Normalized(t'[j])
  {
    var t' := t[i - 1 := MergeRow(t[i - 1], t[i])][i := Missing];
    if i >= 2 && IsContinuation(t[i - 1]) {
      NormalizedMerge(t[i]);
    }
    forall j | 1 <= j < i + 1 && j < |t'| && IsContinuation(t'[j])
      ensures Normalized(t'[j])
    {
      if j < i - 1 {
        assert t'[j] == t[j];
      }
    }
  }

  /** A pass that drops no row found no continuation and left the frame as it
      was, which is then its own fold. */
  lemma PassWithoutDrop(t0: seq<Row>, t1: seq<Row>, wiped: int)
    requires |t1| == |t0| && |DropMissing(t1)| == |t1|
    requires wiped == -1 ==> t1 == t0 && forall j :: 1 <= j < |t0| ==> !IsContinuation(t0[j])
    requires wiped != -1 ==> 0 <= wiped < |t1| && t1[wiped] == Missing
    ensures DropMissing(t1) == Merged(t0)
  {
    DropMissingSameLength(t1);
    GroupsWithoutContinuation(t0);
  }

  // ---------------------------------------------------------------------------
  // Why each pass keeps the fold

  lemma {:induction false} ExtendConcat(g: seq<Row>, x: seq<Row>, y: seq<Row>)
    requires g != []
    ensures Extend(g, x + y) == Extend(Extend(g, x), y)
    decreases |x|
  {
    if x != [] {
      assert (x + y)[0] == x[0] && (x + y)[1..] == x[1..] + y;
      ExtendConcat(Absorb(g, x[0]), x[1..], y);
    } else {
      assert x + y == y;
    }
  }

  /** Groups before the last one are never touched again. */
  lemma {:induction false} ExtendPrefix(p: seq<Row>, g: seq<Row>, s: seq<Row>)
    requires g != []
    ensures Extend(p + g, s) == p + Extend(g, s)
    decreases |s|
  {
    if s != [] {
      assert Absorb(p + g, s[0]) == p + Absorb(g, s[0]) by {
        assert (p + g)[..|p + g| - 1] == p + g[..|g| - 1];
      }
      ExtendPrefix(p, Absorb(g, s[0]), s[1..]);
    }
  }

  lemma ExtendTwo(g: seq<Row>, a: Row, b: Row, s: seq<Row>)
    requires g != []
    ensures Extend(g, [a, b] + s) == Extend(Absorb(Absorb(g, a), b), s)
  {
    assert ([a, b] + s)[1..] == [b] + s;
    assert ([b] + s)[1..] == s;
  }

  lemma AbsorbMissing(g: seq<Row>)
    requires g != []
    ensures Absorb(g, Missing) == g
  {
  }

  /** Merging `b` into `a` and wiping `b`, then absorbing both, is absorbing `a`
      and `b`, provided `a` starts a group or is wiped. */
  lemma AbsorbPair(g: seq<Row>, a: Row, b: Row)
    requires g != [] && IsContinuation(b)
    requires IsContinuation(a) ==> a == Missing
    ensures Absorb(Absorb(g, MergeRow(a, b)), Missing) == Absorb(Absorb(g, a), b)
  {
    AbsorbMissing(Absorb(g, MergeRow(a, b)));
    if IsContinuation(a) {
      AbsorbMissing(g);
      MergeThroughMissing(g[|g| - 1], b);
    } else {
      assert (g + [a])[..|g|] == g;
    }
  }

  /** Merging row `i` into row `i - 1` and wiping row `i` leaves the fold as it
      was, provided row `i - 1` is row 0, starts a group, or is wiped. */
  lemma PassStep(t: seq<Row>, i: nat)
    requires 1 <= i < |t| && IsContinuation(t[i])
    requires i >= 2 && IsContinuation(t[i - 1]) ==> t[i - 1] == Missing
    ensures Groups(t[i - 1 := MergeRow(t[i - 1], t[i])][i := Missing]) == Groups(t)
  {
    var t' := t[i - 1 := MergeRow(t[i - 1], t[i])][i := Missing];
    var s := t[i + 1..];
    if i == 1 {
      assert t[1..] == [t[1]] + s;
      assert t'[1..] == [Missing] + s;
      FirstPairStep(t[0], t[1], s);
    } else {
      var p := t[..i - 1][1..];
      assert t[1..] == p + ([t[i - 1], t[i]] + s);
      assert t'[1..] == p + ([MergeRow(t[i - 1], t[i]), Missing] + s);
      LaterPairStep(t[0], p, t[i - 1], t[i], s);
    }
  }

  lemma FirstPairStep(a: Row, b: Row, s: seq<Row>)
    requires IsContinuation(b)
    ensures Extend([MergeRow(a, b)], [Missing] + s) == Extend([a], [b] + s)
  {
    assert ([Missing] + s)[1..] == s;
    assert ([b] + s)[1..] == s;
    AbsorbMissing([MergeRow(a, b)]);
  }

  lemma LaterPairStep(r0: Row, p: seq<Row>, a: Row, b: Row, s: seq<Row>)
    requires IsContinuation(b) && (IsContinuation(a) ==> a == Missing)
    ensures Extend([r0], p + ([MergeRow(a, b), Missing] + s)) == Extend([r0], p + ([a, b] + s))
  {
    ExtendConcat([r0], p, [a, b] + s);
    ExtendConcat([r0], p, [MergeRow(a, b), Missing] + s);
    var g := Extend([r0], p);
    ExtendTwo(g, a, b, s);
    ExtendTwo(g, MergeRow(a, b), Missing, s);
    AbsorbPair(g, a, b);
  }

  /** Wiped rows are continuations that add nothing. */
  lemma {:induction false} ExtendSkipsMissing(g: seq<Row>, s: seq<Row>)
    requires g != []
    ensures Extend(g, s) == Extend(g, DropMissing(s))
    decreases |s|
  {
    if s != [] {
      if s[0] == Missing {
        AbsorbMissing(g);
        assert DropMissing(s) == DropMissing(s[1..]);
        ExtendSkipsMissing(g, s[1..]);
      } else {
        var d := DropMissing(s[1..]);
        assert DropMissing(s) == [s[0]] + d;
        assert ([s[0]] + d)[1..] == d;
        ExtendSkipsMissing(Absorb(g, s[0]), s[1..]);
      }
    }
  }

  lemma {:induction false} DropMissingFrom(s: seq<Row>, r: Row)
    requires r in DropMissing(s)
    ensures r in s && r != Missing
    decreases |s|
  {
    if s[0] == Missing || r != s[0] {
      DropMissingFrom(s[1..], r);
    }
  }

  /** Dropping the wiped rows after a pass keeps the fold, because every
      continuation after row 0 has been through a wiped row. */
  lemma DropKeepsMerged(t: seq<Row>)
    requires forall j :: 1 <= j < |t| && IsContinuation(t[j]) ==> Normalized(t[j])
    ensures Merged(DropMissing(t)) == Merged(t)
  {
    if t != [] {
      ExtendSkipsMissing([t[0]], t[1..]);
      if t[0] != Missing {
        assert DropMissing(t) == [t[0]] + DropMissing(t[1..]);
      } else {
        DropKeepsMergedFromWiped(t);
      }
    }
  }

  lemma DropKeepsMergedFromWiped(t: seq<Row>)
    requires t != [] && t[0] == Missing
    requires forall j :: 1 <= j < |t| && IsContinuation(t[j]) ==> Normalized(t[j])
    requires Groups(t) == Extend([Missing], DropMissing(t[1..]))
    ensures Merged(DropMissing(t)) == Merged(t)
  {
    var d := DropMissing(t[1..]);
    assert DropMissing(t) == d;
    if d != [] {
      FirstKeptNormalized(t, d[0]);
      ExtendFromMissing(d);
    }
  }

  lemma FirstKeptNormalized(t: seq<Row>, h: Row)
    requires forall j :: 1 <= j < |t| && IsContinuation(t[j]) ==> Normalized(t[j])
    requires t != [] && h in DropMissing(t[1..])
    ensures IsContinuation(h) ==> Normalized(h)
  {
    DropMissingFrom(t[1..], h);
    var j :| 1 <= j < |t| && t[j] == h;
  }

  /** A wiped row 0 takes in the first kept row when it is a continuation and is
      dropped on its own otherwise. */
  lemma ExtendFromMissing(d: seq<Row>)
    requires d != [] && (IsContinuation(d[0]) ==> Normalized(d[0]))
    ensures DropMissing(Extend([Missing], d)) == Merged(d)
  {
    var h := d[0];
    if IsContinuation(h) {
      NormalizedMerge(h);
      assert Absorb([Missing], h) == [h];
    } else {
      assert Absorb([Missing], h) == [Missing] + [h];
      ExtendPrefix([Missing], [h], d[1..]);
      var e := Extend([h], d[1..]);
      assert ([Missing] + e)[1..] == e;
    }
  }

  /** Dropping leaves the length only when no row is wiped, and then changes
      nothing. */
  lemma {:induction false} DropMissingSameLength(t: seq<Row>)
    ensures DropMissing(t) == t || |DropMissing(t)| < |t|
    ensures Missing in t ==> |DropMissing(t)| < |t|
    decreases |t|
  {
    if t != [] {
      DropMissingSameLength(t[1..]);
      if t[0] != Missing {
        assert Missing in t ==> Missing in t[1..] by {
          if Missing in t {
            var k :| 0 <= k < |t| && t[k] == Missing;
            assert t[1..][k - 1] == Missing;
          }
        }
      }
    }
  }

  lemma {:induction false} ExtendWithoutContinuation(g: seq<Row>, s: seq<Row>)
    requires g != []
    requires forall j :: 0 <= j < |s| ==> !IsContinuation(s[j])
    ensures Extend(g, s) == g + s
    decreases |s|
  {
    if s != [] {
      ExtendWithoutContinuation(g + [s[0]], s[1..]);
      assert g + [s[0]] + s[1..] == g + s;
    }
  }

  /** Without continuation rows after row 0 every row is its own group. */
  lemma GroupsWithoutContinuation(t: seq<Row>)
    requires forall j :: 1 <= j < |t| ==> !IsContinuation(t[j])
    ensures Groups(t) == t
  {
    if t != [] {
      ExtendWithoutContinuation([t[0]], t[1..]);
    }
  }

  // ---------------------------------------------------------------------------
  // What the fold keeps

  /** The PNA column. */
  function Pnas(g: seq<Row>): (r: seq<Cell>)
    ensures |r| == |g|
  {
    if g == [] then [] else [g[0].pna] + Pnas(g[1..])
  }

  /** The PNAs of the rows that are not continuations, in order. */
  function StartPnas(s: seq<Row>): seq<Cell> {
    if s == [] then []
    else (if IsContinuation(s[0]) then [] else [s[0].pna]) + StartPnas(s[1..])
  }

  lemma {:induction false} PnasConcat(a: seq<Row>, b: seq<Row>)
    ensures Pnas(a + b) == Pnas(a) + Pnas(b)
    decreases |a|
  {
    if a != [] {
      assert (a + b)[1..] == a[1..] + b;
      PnasConcat(a[1..], b);
    } else {
      assert a + b == b;
    }
  }

  lemma {:induction false} ExtendPnas(g: seq<Row>, s: seq<Row>)
    requires g != []
    ensures Pnas(Extend(g, s)) == Pnas(g) + StartPnas(s)
    decreases |s|
  {
    if s != [] {
      var h := Absorb(g, s[0]);
      ExtendPnas(h, s[1..]);
      var n := |g| - 1;
      if IsContinuation(s[0]) {
        assert g == g[..n] + [g[n]];
        PnasConcat(g[..n], [g[n]]);
        PnasConcat(g[..n], [MergeRow(g[n], s[0])]);
      } else {
        PnasConcat(g, [s[0]]);
      }
    }
  }

  /** Row 0 keeps its PNA, and every later row with a PNA starts a group of its
      own, in order. */
  lemma GroupsPnas(t: seq<Row>)
    requires t != []
    ensures Pnas(Groups(t)) == [t[0].pna] + StartPnas(t[1..])
  {
    ExtendPnas([t[0]], t[1..]);
  }

  /** A merge never makes a row a continuation, so groups from index `m` on stay
      free of continuations. */
  lemma {:induction false} ExtendStarts(g: seq<Row>, s: seq<Row>, m: nat)
    requires g != [] && forall k :: m <= k < |g| ==> !IsContinuation(g[k])
    ensures forall k :: m <= k < |Extend(g, s)| ==> !IsContinuation(Extend(g, s)[k])
    decreases |s|
  {
    if s != [] {
      var h := Absorb(g, s[0]);
      forall k | m <= k < |h| ensures !IsContinuation(h[k]) {
        if IsContinuation(s[0]) {
          assert k < |g| && (k < |g| - 1 ==> h[k] == g[k]);
        } else {
          assert h[k] == if k < |g| then g[k] else s[0];
        }
      }
      ExtendStarts(h, s[1..], m);
    }
  }

  lemma {:induction false} DropMissingWithoutMissing(t: seq<Row>)
    requires forall k :: 0 <= k < |t| ==> t[k] != Missing
    ensures DropMissing(t) == t
    decreases |t|
  {
    if t != [] {
      DropMissingWithoutMissing(t[1..]);
    }
  }

  /** When row 0 has a PNA, the result holds one row per input row with a PNA:
      no record is lost and none is invented, and the order is kept. */
  lemma MergedKeepsEveryPna(t: seq<Row>)
    requires t != [] && !IsContinuation(t[0])
    ensures Pnas(Merged(t)) == StartPnas(t)
  {
    var g := Groups(t);
    GroupsPnas(t);
    ExtendStarts([t[0]], t[1..], 0);
    assert IsContinuation(Missing);
    DropMissingWithoutMissing(g);
  }

  /** Every row of the result after the first has a PNA, and no row is wiped. */
  lemma MergedShape(t: seq<Row>)
    ensures forall k :: 1 <= k < |Merged(t)| ==> !IsContinuation(Merged(t)[k])
    ensures forall k :: 0 <= k < |Merged(t)| ==> Merged(t)[k] != Missing
  {
    var g := Groups(t);
    var m := Merged(t);
    if t != [] {
      ExtendStarts([t[0]], t[1..], 1);
      var d := DropMissing(g[1..]);
      assert m == (if g[0] == Missing then [] else [g[0]]) + d;
      forall k | 0 <= k < |m| ensures m[k] != Missing && (k >= 1 ==> !IsContinuation(m[k])) {
        if g[0] == Missing || k >= 1 {
          var x := if g[0] == Missing then k else k - 1;
          assert m[k] == d[x];
          DropMissingFrom(g[1..], d[x]);
          var j :| 0 <= j < |g[1..]| && g[1..][j] == d[x];
          assert g[j + 1] == d[x];
        }
      }
    }
  }

  /** Running the merge on its own result changes nothing. */
  lemma MergedIdempotent(t: seq<Row>)
    ensures Merged(Merged(t)) == Merged(t)
  {
    var m := Merged(t);
    MergedShape(t);
    GroupsWithoutContinuation(m);
    DropMissingWithoutMissing(m);
  }

  // ---------------------------------------------------------------------------
  // validate_postal_codes

  /** Counted as missing: no value, or the empty text. */
  predicate PnaMissing(r: Row) {
    r.pna.None? || r.pna == Some("")
  }

  /** Counted as invalid: a value whose stripped text is not two digits, a
      hyphen and three digits. */
  predicate PnaInvalid(r: Row) {
    r.pna.Some? && !IsPostalPattern(Strip(r.pna.value))
  }

  function CountMissing(t: seq<Row>): (n: nat)
    ensures n == 0 <==> forall k :: 0 <= k < |t| ==> !PnaMissing(t[k])
    ensures n <= |t|
  {
    if t == [] then 0
    else
      assert forall k :: 1 <= k < |t| ==> t[k] == t[1..][k - 1];
      (if PnaMissing(t[0]) then 1 else 0) + CountMissing(t[1..])
  }

  function CountInvalid(t: seq<Row>): (n: nat)
    ensures n == 0 <==> forall k :: 0 <= k < |t| ==> !PnaInvalid(t[k])
    ensures n <= |t|
  {
    if t == [] then 0
    else
      assert forall k :: 1 <= k < |t| ==> t[k] == t[1..][k - 1];
      (if PnaInvalid(t[0]) then 1 else 0) + CountInvalid(t[1..])
  }

  /** The frame as it was, with the numbers of missing and invalid PNAs. */
  datatype Validation = Validation(frame: seq<Row>, missing: nat, invalid: nat)

  /** validate_postal_codes (process_postal_codes.py:192-228): counts the
      missing and the malformed PNAs, reports them, and returns the frame
      unchanged. Both counts are zero exactly when every row has a well-formed
      PNA. */
  function ValidatePostalCodes(df: seq<Row>): (r: Validation)
    ensures r.frame == df && r.missing <= |df| && r.invalid <= |df|
    ensures r.missing == 0 && r.invalid == 0 <==>
      forall k :: 0 <= k < |df| ==> df[k].pna.Some? && IsPostalPattern(Strip(df[k].pna.value))
  {
    assert Strip("") == "";
    Validation(df, CountMissing(df), CountInvalid(df))
  }
}
