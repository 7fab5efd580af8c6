/** pdf_extraction_process/post_process_merged_columns.py: a Gmina that the PDF
    layer glued onto the end of Numery is recovered by looking the tail of Numery
    up among the Gmina and Powiat names the table already holds, longest name
    first. */
module PostProcessMergedColumns {
  import opened Wrappers
  import opened Text
  import opened ProcessPostalCodes

  // ---------------------------------------------------------------------------
  // The vocabulary of known names

  /** `str(x).strip()` of a present value when it is neither empty nor "nan". */
  function NameOf(c: Cell): (r: set<string>)
    ensures |r| <= 1
  {
    if c.Some? && Strip(c.value) != "" && Strip(c.value) != "nan" then {Strip(c.value)} else {}
  }

  function GminaNames(rows: seq<Row>): set<string> {
    if rows == [] then {} else GminaNames(rows[..|rows| - 1]) + NameOf(rows[|rows| - 1].gmina)
  }

  function PowiatNames(rows: seq<Row>): set<string> {
    if rows == [] then {} else PowiatNames(rows[..|rows| - 1]) + NameOf(rows[|rows| - 1].powiat)
  }

  /** The names the table already holds in its Gmina and Powiat columns. */
  function Vocabulary(rows: seq<Row>): set<string> {
    GminaNames(rows) + PowiatNames(rows)
  }

  /** A name of the vocabulary: non-empty, not "nan" and without surrounding
      whitespace. */
  predicate IsName(g: string) {
    g != "" && g != "nan" && IsStripped(g)
  }

  predicate AllNames(v: set<string>) {
    forall g :: g in v ==> IsName(g)
  }

  lemma NameOfIsName(c: Cell)
    ensures AllNames(NameOf(c))
  {
    if c.Some? {
      StripShape(c.value);
    }
  }

  /** Every vocabulary entry is a stripped name other than "" and "nan". */
  lemma {:induction false} VocabularyNames(rows: seq<Row>)
    ensures AllNames(GminaNames(rows)) && AllNames(PowiatNames(rows)) && AllNames(Vocabulary(rows))
    decreases |rows|
  {
    if rows != [] {
      VocabularyNames(rows[..|rows| - 1]);
      NameOfIsName(rows[|rows| - 1].gmina);
      NameOfIsName(rows[|rows| - 1].powiat);
    }
  }

  /** The two collecting loops of post_process_merged_columns.py:28-39. */
  method KnownNames(rows: seq<Row>) returns (known: set<string>)
    ensures known == Vocabulary(rows)
    ensures AllNames(known)
  {
    known := AddGminaNames(rows, {});
    known := AddPowiatNames(rows, known);
    VocabularyNames(rows);
  }

  /** The loop over the Gmina column. */
  method AddGminaNames(rows: seq<Row>, known0: set<string>) returns (known: set<string>)
    ensures known == known0 + GminaNames(rows)
  {
    known := known0;
    for k := 0 to |rows|
      invariant known == known0 + GminaNames(rows[..k])
    {
      known := known + NameOf(rows[k].gmina);
      NamesPrefix(rows, k);
    }
    assert rows[..|rows|] == rows;
  }

  lemma NamesPrefix(rows: seq<Row>, k: nat)
    requires k < |rows|
    ensures GminaNames(rows[..k + 1]) == GminaNames(rows[..k]) + NameOf(rows[k].gmina)
    ensures PowiatNames(rows[..k + 1]) == PowiatNames(rows[..k]) + NameOf(rows[k].powiat)
  {
    assert rows[..k + 1][..k] == rows[..k];
  }

  /** The loop over the Powiat column. */
  method AddPowiatNames(rows: seq<Row>, known0: set<string>) returns (known: set<string>)
    ensures known == known0 + PowiatNames(rows)
  {
    known := known0;
    for k := 0 to |rows|
      invariant known == known0 + PowiatNames(rows[..k])
    {
      known := known + NameOf(rows[k].powiat);
      NamesPrefix(rows, k);
    }
    assert rows[..|rows|] == rows;
  }

  // ---------------------------------------------------------------------------
  // Longest first

  /** Every name of `v` exactly once, longest first. */
  predicate LongestFirstOrder(cands: seq<string>, v: set<string>) {
    (forall i :: 0 <= i < |cands| ==> cands[i] in v) &&
    (forall g :: g in v ==> g in cands) &&
    (forall i, j :: 0 <= i < j < |cands| ==> |cands[j]| <= |cands[i]|) &&
    |cands| == |v|
  }

  lemma {:induction false} LongestIn(s: set<string>) returns (g: string)
    requires s != {}
    ensures g in s && forall h :: h in s ==> |h| <= |g|
    decreases s
  {
    var x :| x in s;
    if s == {x} {
      g := x;
    } else {
      var y := LongestIn(s - {x});
      g := if |x| <= |y| then y else x;
    }
  }

  /** `sorted(known_gminas, key=len, reverse=True)`: names of equal length come
      in whatever order the set yields them, so each pick is any longest name
      left. */
  method LongestFirst(known: set<string>) returns (cands: seq<string>)
    ensures LongestFirstOrder(cands, known)
  {
    var rest := known;
    cands := [];
    while rest != {}
      invariant Picking(known, cands, rest)
      decreases |rest|
    {
      ghost var longest := LongestIn(rest);
      var g :| g in rest && forall h :: h in rest ==> |h| <= |g|;
      PickStep(known, cands, rest, g);
      cands := cands + [g];
      rest := rest - {g};
    }
  }

  /** Midway through the ordering: `cands` holds the names picked so far, longest
      first, and every name left in `rest` is at most as long as each of them. */
  ghost predicate Picking(known: set<string>, cands: seq<string>, rest: set<string>) {
    && rest <= known
    && (forall i :: 0 <= i < |cands| ==> cands[i] in known && cands[i] !in rest)
    && (forall g :: g in known ==> g in cands || g in rest)
    && (forall i, g :: 0 <= i < |cands| && g in rest ==> |g| <= |cands[i]|)
    && (forall i, j :: 0 <= i < j < |cands| ==> |cands[j]| <= |cands[i]|)
    && |cands| + |rest| == |known|
  }

  /** Picking a longest name left keeps the ordering invariant. */
  lemma PickStep(known: set<string>, cands: seq<string>, rest: set<string>, g: string)
    requires Picking(known, cands, rest)
    requires g in rest && forall h :: h in rest ==> |h| <= |g|
    ensures Picking(known, cands + [g], rest - {g})
  {
    AppendShortest(cands, g);
  }

  /** Appending a name no longer than any picked one keeps the picks longest first. */
  lemma AppendShortest(cands: seq<string>, g: string)
    requires forall i, j :: 0 <= i < j < |cands| ==> |cands[j]| <= |cands[i]|
    requires forall i :: 0 <= i < |cands| ==> |g| <= |cands[i]|
    ensures forall i, j :: 0 <= i < j < |cands + [g]| ==> |(cands + [g])[j]| <= |(cands + [g])[i]|
  {
    var c := cands + [g];
    forall i, j | 0 <= i < j < |c| ensures |c[j]| <= |c[i]| {
      if j == |cands| {
        assert c[i] == cands[i];
      }
    }
  }

  // ---------------------------------------------------------------------------
  // Matching one candidate

  /** Python's `s[:-k]`: everything but the last `k` characters, and nothing at
      all when `k` is 0. */
  function DropLast(s: string, k: nat): string
    requires k <= |s|
  {
    if k == 0 then "" else s[..|s| - k]
  }

  /** The two match rules of post_process_merged_columns.py:66-78: Numery ends
      with a space and the name, or it ends with the name, is longer, and the
      character before the name is a space, `)` or `-`. */
  function Matches(numery: string, g: string): (b: bool)
    ensures b ==> |g| < |numery| && numery[|numery| - |g|..] == g
  {
    if EndsWith(numery, " " + g) then
      assert numery[|numery| - |g|..] == (" " + g)[1..];
      true
    else
      EndsWith(numery, g) && |numery| > |g| && numery[|numery| - (|g| + 1)] in {' ', ')', '-'}
  }

  /** What Numery becomes on a match, as each rule computes it. */
  function NumbersPart(numery: string, g: string): string
    requires Matches(numery, g)
  {
    if EndsWith(numery, " " + g) then Strip(DropLast(numery, |" " + g|))
    else Strip(DropLast(numery, |g|))
  }

  /** Either rule matches exactly when the name is a suffix preceded by one of the
      three separators, and either way Numery keeps the stripped text before the
      name (a `)` or `-` separator stays). */
  lemma MatchesSuffix(numery: string, g: string)
    requires g != ""
    ensures Matches(numery, g) <==>
      |g| < |numery| && numery == numery[..|numery| - |g|] + g &&
      numery[|numery| - |g| - 1] in {' ', ')', '-'}
    ensures Matches(numery, g) ==> NumbersPart(numery, g) == Strip(numery[..|numery| - |g|])
  {
    var n := |numery| - |g|;
    if EndsWith(numery, " " + g) {
      assert numery[n - 1] == (" " + g)[0];
      assert numery[n..] == (" " + g)[1..] == g;
      assert numery[..n] == numery[..n - 1] + " ";
      StripAppendSpace(numery[..n - 1]);
    }
    if |g| < |numery| {
      assert numery == numery[..n] + numery[n..];
    }
  }

  // ---------------------------------------------------------------------------
  // The first match in longest-first order is the longest match

  /** The first candidate, in list order, that matches. */
  function FirstMatch(numery: string, cands: seq<string>): (r: Option<string>)
    ensures r.Some? ==> r.value in cands && Matches(numery, r.value)
  {
    if cands == [] then None
    else if Matches(numery, cands[0]) then Some(cands[0])
    else FirstMatch(numery, cands[1..])
  }

  /** `g` is a name of `v` that matches, and no longer name of `v` matches. */
  predicate IsLongestMatch(numery: string, v: set<string>, g: string) {
    g in v && Matches(numery, g) && forall h :: h in v && Matches(numery, h) ==> |h| <= |g|
  }

  /** Two names of the same length that both end Numery are the same name, so the
      longest match is unique. */
  lemma LongestMatchUnique(numery: string, v: set<string>, g1: string, g2: string)
    requires IsLongestMatch(numery, v, g1) && IsLongestMatch(numery, v, g2)
    ensures g1 == g2
  {
  }

  lemma {:induction false} LongestMatchExists(numery: string, v: set<string>, g0: string)
    requires g0 in v && Matches(numery, g0)
    ensures exists g :: IsLongestMatch(numery, v, g)
    decreases |numery| - |g0|
  {
    if !IsLongestMatch(numery, v, g0) {
      var h :| h in v && Matches(numery, h) && |h| > |g0|;
      LongestMatchExists(numery, v, h);
    }
  }

  /** The name the recovery settles on: the longest name of `v` that matches. */
  ghost function BestMatch(numery: string, v: set<string>): (r: Option<string>)
    ensures r.None? <==> forall g :: g in v ==> !Matches(numery, g)
    ensures r.Some? ==> IsLongestMatch(numery, v, r.value)
  {
    if exists g0 :: g0 in v && Matches(numery, g0) then
      var g0 :| g0 in v && Matches(numery, g0);
      LongestMatchExists(numery, v, g0);
      var g :| IsLongestMatch(numery, v, g);
      Some(g)
    else None
  }

  lemma {:induction false} FirstMatchFound(numery: string, cands: seq<string>)
    ensures FirstMatch(numery, cands).None? ==> forall i :: 0 <= i < |cands| ==> !Matches(numery, cands[i])
    ensures FirstMatch(numery, cands).Some? ==>
      (exists i :: 0 <= i < |cands| &&
        cands[i] == FirstMatch(numery, cands).value && Matches(numery, cands[i]) &&
        forall j :: 0 <= j < i ==> !Matches(numery, cands[j]))
    decreases |cands|
  {
    if cands != [] && !Matches(numery, cands[0]) {
      FirstMatchFound(numery, cands[1..]);
      assert forall i :: 1 <= i < |cands| ==> cands[i] == cands[1..][i - 1];
      if FirstMatch(numery, cands[1..]).Some? {
        var i :| 0 <= i < |cands[1..]| && cands[1..][i] == FirstMatch(numery, cands).value &&
          Matches(numery, cands[1..][i]) && forall j :: 0 <= j < i ==> !Matches(numery, cands[1..][j]);
        assert forall j :: 0 <= j < i + 1 ==> !Matches(numery, cands[j]) by {
          forall j | 0 <= j < i + 1 ensures !Matches(numery, cands[j]) {
            if j > 0 {
              assert cands[j] == cands[1..][j - 1];
            }
          }
        }
      }
    }
  }

  /** Trying the names longest first and stopping at the first match finds the
      longest match, whatever order names of equal length come in. */
  lemma FirstMatchIsBest(numery: string, cands: seq<string>, v: set<string>)
    requires LongestFirstOrder(cands, v)
    ensures FirstMatch(numery, cands) == BestMatch(numery, v)
  {
    var f := FirstMatch(numery, cands);
    if f.Some? {
      FirstMatchIsLongest(numery, cands, v);
      LongestMatchUnique(numery, v, f.value, BestMatch(numery, v).value);
    } else {
      FirstMatchFound(numery, cands);
      forall g | g in v ensures !Matches(numery, g) {
        var j :| 0 <= j < |cands| && cands[j] == g;
      }
    }
  }

  /** A first match in longest-first order is a longest match. */
  lemma FirstMatchIsLongest(numery: string, cands: seq<string>, v: set<string>)
    requires LongestFirstOrder(cands, v) && FirstMatch(numery, cands).Some?
    ensures IsLongestMatch(numery, v, FirstMatch(numery, cands).value)
  {
    FirstMatchFound(numery, cands);
    var f := FirstMatch(numery, cands).value;
    var i :| 0 <= i < |cands| && cands[i] == f && Matches(numery, cands[i]) &&
      forall j :: 0 <= j < i ==> !Matches(numery, cands[j]);
    forall h | h in v && Matches(numery, h) ensures |h| <= |f| {
      var j :| 0 <= j < |cands| && cands[j] == h;
    }
  }

  /** The candidate loop of post_process_merged_columns.py:61-78 for one
      Numery. */
  method FindGmina(numery: string, cands: seq<string>) returns (found: Option<string>, numbersPart: string)
    ensures found == FirstMatch(numery, cands)
    ensures found.Some? ==> Matches(numery, found.value)
    ensures found.Some? ==> numbersPart == NumbersPart(numery, found.value)
  {
    found := None;
    numbersPart := "";
    var i := 0;
    while i < |cands|
      invariant 0 <= i <= |cands|
      invariant FirstMatch(numery, cands) == FirstMatch(numery, cands[i..])
    {
      var gmina := cands[i];
      assert cands[i..][1..] == cands[i + 1..];
      if EndsWith(numery, " " + gmina) {
        numbersPart := Strip(DropLast(numery, |" " + gmina|));
        found := Some(gmina);
        return;
      } else if EndsWith(numery, gmina) && |numery| > |gmina| {
        var charBefore := numery[|numery| - (|gmina| + 1)];
        if charBefore == ' ' || charBefore == ')' || charBefore == '-' {
          numbersPart := Strip(DropLast(numery, |gmina|));
          found := Some(gmina);
          return;
        }
      }
      i := i + 1;
    }
  }

  // ---------------------------------------------------------------------------
  // Fixing the rows

  /** `pd.isna(x) or str(x).strip() in ["", "nan"]`. */
  predicate IsAbsent(c: Cell) {
    c.None? || Strip(c.value) == "" || Strip(c.value) == "nan"
  }

  /** A row the recovery examines: no Gmina, but some Numery. */
  predicate Eligible(r: Row) {
    IsAbsent(r.gmina) && !IsAbsent(r.numbers)
  }

  /** One row after the recovery with vocabulary `v`. */
  ghost function FixRow(r: Row, v: set<string>): Row {
    if !Eligible(r) then r
    else
      match BestMatch(r.numbers.value, v)
      case None => r
      case Some(g) => r.(numbers := Some(NumbersPart(r.numbers.value, g)), gmina := Some(g))
  }

  ghost function FixRows(rows: seq<Row>, v: set<string>): (r: seq<Row>)
    ensures |r| == |rows| && forall k :: 0 <= k < |rows| ==> r[k] == FixRow(rows[k], v)
  {
    if rows == [] then [] else FixRows(rows[..|rows| - 1], v) + [FixRow(rows[|rows| - 1], v)]
  }

  /** The table after the recovery: every row fixed against the vocabulary of the
      table as it was. */
  ghost function FixAll(rows: seq<Row>): seq<Row> {
    FixRows(rows, Vocabulary(rows))
  }

  /** The number of rows the recovery changes. */
  ghost function CountFixes(rows: seq<Row>, v: set<string>): nat {
    if rows == [] then 0
    else CountFixes(rows[..|rows| - 1], v) + (if FixRow(rows[|rows| - 1], v) != rows[|rows| - 1] then 1 else 0)
  }

  // ---------------------------------------------------------------------------
  // The recovery as the source computes it

  /** A row the loop examines and for which some candidate matches. */
  predicate Found(r: Row, cands: seq<string>) {
    Eligible(r) && FirstMatch(r.numbers.value, cands).Some?
  }

  /** One row after the loop body, with the candidates in the order given: the
      first candidate that matches is taken. */
  function FixRowBy(r: Row, cands: seq<string>): Row {
    if !Eligible(r) then r
    else
      match FirstMatch(r.numbers.value, cands)
      case None => r
      case Some(g) => r.(numbers := Some(NumbersPart(r.numbers.value, g)), gmina := Some(g))
  }

  function FixRowsBy(rows: seq<Row>, cands: seq<string>): (r: seq<Row>)
    ensures |r| == |rows|
  {
    if rows == [] then [] else FixRowsBy(rows[..|rows| - 1], cands) + [FixRowBy(rows[|rows| - 1], cands)]
  }

  /** The number of rows for which a candidate matched. */
  function CountFound(rows: seq<Row>, cands: seq<string>): nat {
    if rows == [] then 0
    else CountFound(rows[..|rows| - 1], cands) + (if Found(rows[|rows| - 1], cands) then 1 else 0)
  }

  /** With the candidates longest first, the first match is the longest match, so
      the loop body fixes each row as FixRow does, and it counts a row exactly
      when the row changes. */
  lemma FixRowByAgrees(r: Row, v: set<string>, cands: seq<string>)
    requires AllNames(v) && LongestFirstOrder(cands, v)
    ensures FixRowBy(r, cands) == FixRow(r, v)
    ensures Found(r, cands) <==> FixRow(r, v) != r
  {
    FixRowChanges(r, v);
    if Eligible(r) {
      FirstMatchIsBest(r.numbers.value, cands, v);
    }
  }

  lemma {:induction false} FixRowsByAgrees(rows: seq<Row>, v: set<string>, cands: seq<string>)
    requires AllNames(v) && LongestFirstOrder(cands, v)
    ensures FixRowsBy(rows, cands) == FixRows(rows, v)
    ensures CountFound(rows, cands) == CountFixes(rows, v)
    decreases |rows|
  {
    if rows != [] {
      FixRowsByAgrees(rows[..|rows| - 1], v, cands);
      FixRowByAgrees(rows[|rows| - 1], v, cands);
    }
  }

  /** extract_known_gmina_from_numery (post_process_merged_columns.py:21-88) on
      the frame in place: each row without a Gmina whose Numery ends with a known
      name gets the longest such name as Gmina and the rest of Numery as Numery;
      the count returned is the number of rows changed. */
  method ExtractKnownGminaFromNumery(a: array<Row>) returns (fixedCount: nat)
    modifies a
    ensures a[..] == FixAll(old(a[..]))
    ensures fixedCount == CountFixes(old(a[..]), Vocabulary(old(a[..])))
  {
    ghost var rows := a[..];
    var knownGminas := KnownNames(a[..]);
    var cands := LongestFirst(knownGminas);
    fixedCount := FixTable(a, cands);
    FixRowsByAgrees(rows, knownGminas, cands);
  }

  /** The loop over the rows (post_process_merged_columns.py:48-86), with the
      candidates already in order. */
  method FixTable(a: array<Row>, cands: seq<string>) returns (fixedCount: nat)
    modifies a
    ensures a[..] == FixRowsBy(old(a[..]), cands)
    ensures fixedCount == CountFound(old(a[..]), cands)
  {
    ghost var rows := a[..];
    fixedCount := 0;
    var idx := 0;
    while idx < a.Length
      invariant 0 <= idx <= a.Length
      invariant a[..idx] == FixRowsBy(rows[..idx], cands)
      invariant forall k :: idx <= k < a.Length ==> a[k] == rows[k]
      invariant fixedCount == CountFound(rows[..idx], cands)
    {
      var fixedRow, found := FixOneRow(a[idx], cands);
      if found {
        a[idx] := fixedRow;
        fixedCount := fixedCount + 1;
      }
      FixRowsByPrefix(rows, cands, idx);
      idx := idx + 1;
    }
    assert rows[..a.Length] == rows;
    assert a[..] == a[..a.Length];
  }

  lemma FixRowsByPrefix(rows: seq<Row>, cands: seq<string>, k: nat)
    requires k < |rows|
    ensures FixRowsBy(rows[..k + 1], cands) == FixRowsBy(rows[..k], cands) + [FixRowBy(rows[k], cands)]
    ensures CountFound(rows[..k + 1], cands) == CountFound(rows[..k], cands) + (if Found(rows[k], cands) then 1 else 0)
  {
    assert rows[..k + 1][..k] == rows[..k];
  }

  /** The body of the row loop (post_process_merged_columns.py:51-84): a row with
      no Gmina and some Numery is matched against the candidates in order, and on
      a match gets the name as Gmina and the rest as Numery; `found` reports the
      match. */
  method FixOneRow(row: Row, cands: seq<string>) returns (fixedRow: Row, found: bool)
    ensures fixedRow == FixRowBy(row, cands)
    ensures found == Found(row, cands)
    ensures !found ==> fixedRow == row
  {
    fixedRow, found := row, false;
    if IsAbsent(row.gmina) && !IsAbsent(row.numbers) {
      var numeryStr := row.numbers.value;
      var gmina, numbersPart := FindGmina(numeryStr, cands);
      if gmina.Some? {
        fixedRow, found := row.(numbers := Some(numbersPart), gmina := Some(gmina.value)), true;
      }
    }
  }

  // ---------------------------------------------------------------------------
  // What the recovery promises

  /** A row changes exactly when it is examined and some known name matches its
      Numery; then Gmina becomes the longest such name, Numery the stripped text
      before it, and no other column changes. */
  lemma FixRowChanges(r: Row, v: set<string>)
    requires AllNames(v)
    ensures FixRow(r, v) != r <==> Eligible(r) && exists g :: g in v && Matches(r.numbers.value, g)
    ensures FixRow(r, v) != r ==>
      var n := r.numbers.value;
      var f := FixRow(r, v);
      && f.gmina.Some? && IsLongestMatch(n, v, f.gmina.value)
      && f.numbers == Some(Strip(n[..|n| - |f.gmina.value|]))
      && f.(numbers := r.numbers, gmina := r.gmina) == r
  {
    if Eligible(r) && BestMatch(r.numbers.value, v).Some? {
      FixRowChanged(r, v);
    }
  }

  /** The changing case of FixRowChanges. */
  lemma FixRowChanged(r: Row, v: set<string>)
    requires AllNames(v) && Eligible(r) && BestMatch(r.numbers.value, v).Some?
    ensures
      var n := r.numbers.value;
      var g := BestMatch(n, v).value;
      FixRow(r, v) == r.(numbers := Some(Strip(n[..|n| - |g|])), gmina := Some(g)) &&
      FixRow(r, v).gmina != r.gmina
  {
    var n := r.numbers.value;
    var g := BestMatch(n, v).value;
    assert IsName(g);
    MatchesSuffix(n, g);
    NameNotAbsent(g);
  }

  /** A vocabulary name is a present Gmina. */
  lemma NameNotAbsent(g: string)
    requires IsName(g)
    ensures !IsAbsent(Some(g))
  {
    StrippedFixed(g);
  }

  /** A fixed row has a Gmina, so a second run skips it. */
  lemma FixRowTwice(r: Row, v: set<string>)
    requires AllNames(v)
    ensures FixRow(FixRow(r, v), v) == FixRow(r, v)
  {
    var f := FixRow(r, v);
    if f != r {
      FixRowChanges(r, v);
      StrippedFixed(f.gmina.value);
    }
  }

  /** A fix adds to the Gmina column only names of the vocabulary it was fixed
      against and removes none. */
  lemma {:induction false} FixKeepsGminaNames(rows: seq<Row>, v: set<string>)
    requires AllNames(v)
    ensures GminaNames(rows) <= GminaNames(FixRows(rows, v)) <= GminaNames(rows) + v
    ensures PowiatNames(FixRows(rows, v)) == PowiatNames(rows)
    decreases |rows|
  {
    if rows != [] {
      var n := |rows| - 1;
      var f := FixRows(rows, v);
      assert f[..n] == FixRows(rows[..n], v);
      FixKeepsGminaNames(rows[..n], v);
      FixRowNames(rows[n], v);
    }
  }

  /** One fixed row: its Gmina name, if it gained one, is a vocabulary name, and
      its Powiat is untouched. */
  lemma FixRowNames(r: Row, v: set<string>)
    requires AllNames(v)
    ensures NameOf(r.gmina) <= NameOf(FixRow(r, v).gmina) <= NameOf(r.gmina) + v
    ensures FixRow(r, v).powiat == r.powiat
  {
    if FixRow(r, v) != r {
      FixRowChanges(r, v);
      StrippedFixed(FixRow(r, v).gmina.value);
      assert NameOf(r.gmina) == {};
    }
  }

  /** The fixed table has the same vocabulary as the table it was fixed from. */
  lemma VocabularyKept(rows: seq<Row>)
    ensures Vocabulary(FixAll(rows)) == Vocabulary(rows)
  {
    VocabularyNames(rows);
    FixKeepsGminaNames(rows, Vocabulary(rows));
  }

  /** Running the recovery on its own output changes nothing. */
  lemma FixAllIdempotent(rows: seq<Row>)
    ensures FixAll(FixAll(rows)) == FixAll(rows)
  {
    var v := Vocabulary(rows);
    var f := FixAll(rows);
    VocabularyNames(rows);
    VocabularyKept(rows);
    forall k | 0 <= k < |f| ensures FixRow(f[k], v) == f[k] {
      FixRowTwice(rows[k], v);
    }
  }

  /** With both names known, "Nowe Miasto" is tried before "Miasto" and wins. */
  lemma CompoundNameFirst()
    ensures FirstMatch("4-6 Nowe Miasto", ["Nowe Miasto", "Miasto"]) == Some("Nowe Miasto")
    ensures FirstMatch("4-6 Nowe Miasto", ["Miasto", "Nowe Miasto"]) == Some("Miasto")
  {
    assert EndsWith("4-6 Nowe Miasto", " " + "Nowe Miasto");
    assert EndsWith("4-6 Nowe Miasto", " " + "Miasto");
  }
}
