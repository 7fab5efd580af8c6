/** column_aware_parser.py: the characters of one baseline are split into a left
    section (PNA and Miejscowość) and a right section (Gmina, Powiat and
    Województwo); each section's characters are joined into words by the gaps
    between them, and the two texts are segmented into a record. */
module ColumnAwareParser {
  import opened Wrappers
  import opened Text
  import opened Vocabulary
  import opened Positioned

  /** Characters left of this edge belong to the left section. */
  const LeftLimit: real := 250.0
  /** Characters from this edge on belong to the right section. */
  const RightStart: real := 300.0
  /** A horizontal gap wider than this starts a new word. */
  const WordGap: real := 3.0
  /** The width assumed for a character that reports none. */
  const DefaultWidth: real := 5.0

  /** `char.get("width", 5)`. */
  function Width(c: PChar): real {
    if c.width.Some? then c.width.value else DefaultWidth
  }

  /** Where the character is taken to end. */
  function RightEdge(c: PChar): real {
    c.x0 + Width(c)
  }

  // ---------------------------------------------------------------------------
  // add_word_spacing

  /** The state of the word-joining loop: the finished words, the word in
      progress and the right edge of the last character (`last_x`). */
  datatype Spacing = Spacing(parts: seq<string>, word: string, last: real)

  /** One turn of the loop: a gap wider than WordGap after a word in progress
      finishes that word; the character's text is then added to the word. */
  function SpaceStep(st: Spacing, c: PChar): Spacing {
    var cut := c.x0 - st.last > WordGap && st.word != "";
    Spacing(
      if cut then st.parts + [st.word] else st.parts,
      (if cut then "" else st.word) + c.text,
      RightEdge(c))
  }

  /** The loop state after the characters `cs`, from `start`. */
  function SpaceRun(cs: seq<PChar>, start: Spacing): Spacing {
    if cs == [] then start else SpaceStep(SpaceRun(cs[..|cs| - 1], start), cs[|cs| - 1])
  }

  /** The finished words once the loop is over: the word in progress counts when
      it is not empty. */
  function Words(st: Spacing): seq<string> {
    st.parts + Flush(st.word)
  }

  /** What add_word_spacing returns: the words joined by single spaces and
      stripped; the gap test starts from the first character's own left edge. */
  function WordSpacing(cs: seq<PChar>): string {
    if cs == [] then "" else Strip(Join(Words(SpaceRun(cs, Spacing([], "", cs[0].x0))), " "))
  }

  /** add_word_spacing (column_aware_parser.py:53-74) as the loop it is. */
  method AddWordSpacing(cs: seq<PChar>) returns (text: string)
    ensures text == WordSpacing(cs)
  {
    if cs == [] {
      return "";
    }
    var parts: seq<string> := [];
    var word := "";
    var last := cs[0].x0;
    var i := 0;
    while i < |cs|
      invariant 0 <= i <= |cs|
      invariant Spacing(parts, word, last) == SpaceRun(cs[..i], Spacing([], "", cs[0].x0))
    {
      var c := cs[i];
      if c.x0 - last > WordGap {
        if word != "" {
          parts := parts + [word];
          word := "";
        }
      }
      word := word + c.text;
      last := c.x0 + Width(c);
      assert cs[..i + 1][..i] == cs[..i];
      i := i + 1;
    }
    assert cs[..|cs|] == cs;
    ghost var st := SpaceRun(cs, Spacing([], "", cs[0].x0));
    if word != "" {
      parts := parts + [word];
    }
    assert parts == Words(st);
    text := Strip(Join(parts, " "));
  }

  /** Whether the page shows a gap wider than WordGap between `prev` and `c`. */
  predicate Gap(prev: PChar, c: PChar) {
    c.x0 - RightEdge(prev) > WordGap
  }

  /** The reference reading of the word joining: the texts of the characters in
      order, with one space before each character that a gap separates from the
      previous one, and none before the first. */
  function Spaced(cs: seq<PChar>): string {
    if cs == [] then ""
    else
      var n := |cs| - 1;
      Spaced(cs[..n]) + (if n > 0 && Gap(cs[n - 1], cs[n]) then " " else "") + cs[n].text
  }

  predicate NonEmptyTexts(cs: seq<PChar>) {
    forall k :: 0 <= k < |cs| ==> cs[k].text != ""
  }

  /** When every character has a text, the loop state is the spaced text cut at
      the gaps: the word in progress is never empty, and `last_x` is the right edge
      of the last character. The first character never starts with a cut, whatever
      `x` the loop starts from. */
  lemma {:induction false} SpaceRunShape(cs: seq<PChar>, x: real)
    requires cs != [] && NonEmptyTexts(cs)
    ensures var st := SpaceRun(cs, Spacing([], "", x));
      && st.word != ""
      && Join(st.parts + [st.word], " ") == Spaced(cs)
      && st.last == RightEdge(cs[|cs| - 1])
    decreases |cs|
  {
    var n := |cs| - 1;
    var pre := cs[..n];
    var c := cs[n];
    if n == 0 {
      assert SpaceRun(cs, Spacing([], "", x)) == SpaceStep(Spacing([], "", x), c);
    } else {
      assert NonEmptyTexts(pre) by {
        forall k | 0 <= k < |pre| ensures pre[k].text != "" {
          assert pre[k] == cs[k];
        }
      }
      SpaceRunShape(pre, x);
      assert pre[|pre| - 1] == cs[n - 1];
      SpaceStepShape(SpaceRun(pre, Spacing([], "", x)), cs[n - 1], c, Spaced(pre));
    }
  }

  /** One turn of the loop keeps the shape SpaceRunShape describes. */
  lemma SpaceStepShape(st: Spacing, prev: PChar, c: PChar, text: string)
    requires st.word != "" && c.text != ""
    requires Join(st.parts + [st.word], " ") == text && st.last == RightEdge(prev)
    ensures var st' := SpaceStep(st, c);
      && st'.word != ""
      && Join(st'.parts + [st'.word], " ") == text + (if Gap(prev, c) then " " else "") + c.text
      && st'.last == RightEdge(c)
  {
    if Gap(prev, c) {
      assert SpaceStep(st, c) == Spacing(st.parts + [st.word], c.text, RightEdge(c));
      JoinAppend(st.parts + [st.word], c.text, " ");
    } else {
      assert SpaceStep(st, c) == Spacing(st.parts, st.word + c.text, RightEdge(c));
      JoinExtendLast(st.parts, st.word, c.text);
    }
  }

  /** Extending the last word extends the joined text. */
  lemma JoinExtendLast(ws: seq<string>, w: string, t: string)
    ensures Join(ws + [w + t], " ") == Join(ws + [w], " ") + t
  {
    JoinAppend(ws, w + t, " ");
    JoinAppend(ws, w, " ");
    if ws != [] {
      ConcatAssoc(Join(ws, " ") + " ", w, t);
    }
  }

  /** add_word_spacing emits the character texts in order and puts one space
      exactly where the page shows a gap wider than WordGap, never before the
      first character; the result is stripped. */
  lemma WordSpacingGaps(cs: seq<PChar>)
    requires NonEmptyTexts(cs)
    ensures WordSpacing(cs) == Strip(Spaced(cs))
  {
    if cs != [] {
      SpaceRunShape(cs, cs[0].x0);
    }
  }

  /** With no gap anywhere, the text is the characters' texts run together. */
  lemma {:induction false} SpacedWithoutGaps(cs: seq<PChar>)
    requires forall k :: 0 < k < |cs| ==> !Gap(cs[k - 1], cs[k])
    ensures Spaced(cs) == Texts(cs)
    decreases |cs|
  {
    if cs != [] {
      var n := |cs| - 1;
      var pre := cs[..n];
      forall k | 0 < k < |pre| ensures !Gap(pre[k - 1], pre[k]) {
        assert pre[k - 1] == cs[k - 1] && pre[k] == cs[k];
      }
      SpacedWithoutGaps(pre);
      var sep: string := if n > 0 && Gap(cs[n - 1], cs[n]) then " " else "";
      assert sep == "";
      assert Spaced(cs) == Spaced(pre) + sep + cs[n].text;
    }
  }

  // ---------------------------------------------------------------------------
  // extract_row_data

  /** The two section texts of one row and the row's baseline. */
  datatype RowText = RowText(left: string, right: string, y: real)

  /** The characters of the row at `y`, sorted by left edge as the source sorts
      `row_chars`. */
  function RowChars(page: seq<PChar>, y: real, tol: real): seq<PChar> {
    SortByX(Select(page, NearRow(y, tol)))
  }

  /** extract_row_data (column_aware_parser.py:27-79) over the characters of a
      page: None when no character lies within `tol` of `y`; otherwise the word-
      spaced texts of the left and the right section of the sorted row. */
  method ExtractRowData(page: seq<PChar>, y: real, tol: real) returns (r: Option<RowText>)
    ensures r.None? <==> Select(page, NearRow(y, tol)) == []
    ensures r.Some? ==> r.value == RowText(
      WordSpacing(Select(RowChars(page, y, tol), Below(LeftLimit))),
      WordSpacing(Select(RowChars(page, y, tol), From(RightStart))),
      y)
  {
    var rowChars: seq<PChar> := [];
    var i := 0;
    while i < |page|
      invariant 0 <= i <= |page|
      invariant rowChars == Select(page[..i], NearRow(y, tol))
    {
      if Abs(page[i].y0 - y) <= tol {
        rowChars := rowChars + [page[i]];
      }
      assert page[..i + 1][..i] == page[..i];
      i := i + 1;
    }
    assert page[..|page|] == page;
    if rowChars == [] {
      return None;
    }
    var a := new PChar[|rowChars|](k requires 0 <= k < |rowChars| => rowChars[k]);
    assert a[..] == rowChars;
    SortCharsByX(a);
    var sorted := a[..];
    var leftText := AddWordSpacing(Select(sorted, Below(LeftLimit)));
    var rightText := AddWordSpacing(Select(sorted, From(RightStart)));
    r := Some(RowText(leftText, rightText, y));
  }

  /** The sections of a row: each is sorted by left edge and holds exactly the
      row's characters on its side (as often as the page has them); a character
      between LeftLimit and RightStart is in neither, and none is in both. */
  lemma RowSections(page: seq<PChar>, y: real, tol: real, c: PChar)
    ensures var row := RowChars(page, y, tol);
      && SortedByX(Select(row, Below(LeftLimit)))
      && SortedByX(Select(row, From(RightStart)))
      && multiset(Select(row, Below(LeftLimit)))[c] ==
           (if c.x0 < LeftLimit && Abs(c.y0 - y) <= tol then multiset(page)[c] else 0)
      && multiset(Select(row, From(RightStart)))[c] ==
           (if c.x0 >= RightStart && Abs(c.y0 - y) <= tol then multiset(page)[c] else 0)
      && !(c in Select(row, Below(LeftLimit)) && c in Select(row, From(RightStart)))
  {
    var row := RowChars(page, y, tol);
    SortByXSorted(Select(page, NearRow(y, tol)));
    SelectSorted(row, Below(LeftLimit));
    SelectSorted(row, From(RightStart));
    SectionCount(page, y, tol, Below(LeftLimit), c);
    SectionCount(page, y, tol, From(RightStart), c);
    if c in Select(row, Below(LeftLimit)) && c in Select(row, From(RightStart)) {
      SelectMember(row, Below(LeftLimit), c);
      SelectMember(row, From(RightStart), c);
    }
  }

  /** A section of the row keeps each character of the page that lies near the
      row and in the section's band, as often as the page has it. */
  lemma SectionCount(page: seq<PChar>, y: real, tol: real, b: Band, c: PChar)
    ensures multiset(Select(RowChars(page, y, tol), b))[c] ==
      (if InBand(c, b) && Abs(c.y0 - y) <= tol then multiset(page)[c] else 0)
  {
    var near := Select(page, NearRow(y, tol));
    SortByXSorted(near);
    SelectCount(page, NearRow(y, tol), c);
    SelectCount(RowChars(page, y, tol), b, c);
  }

  // ---------------------------------------------------------------------------
  // parse_combined_data

  /** parse_combined_data (column_aware_parser.py:82-167): PNA and Miejscowość
      from the left text; the voivodeship found by the backward scan in the right
      text, the Powiat just before it and every earlier right token as Gmina. */
  function ParseCombinedData(leftText: string, rightText: string): (r: Option<Record>)
    ensures r.Some? ==> r.value.street == "" && r.value.numbers == ""
  {
    if leftText == "" || rightText == "" then None
    else
      var lp := Split(leftText);
      if |lp| < 2 || !IsPostalCode(lp[0]) then None
      else
        var rp := Split(rightText);
        if |rp| < 3 then None
        else match FindRegion(rp)
          case None => None
          case Some(h) =>
            if h.start < 2 then None
            else
              var pi := h.start - 1;
              // the source's second guard `powiat_idx < 1` never holds here
              if pi < 1 then None
              else Some(Record(lp[0], Join(lp[1..], " "), "", "", Join(rp[..pi], " "), rp[pi], h.name))
  }

  /** The exact rejection rules: either text empty, fewer than two left tokens, a
      first left token that is not a postal code, fewer than three right tokens,
      no voivodeship, or a voivodeship starting before the third right token. */
  lemma CombinedRejects(leftText: string, rightText: string)
    ensures var lp, rp := Split(leftText), Split(rightText);
      ParseCombinedData(leftText, rightText).None? <==>
        || leftText == "" || rightText == ""
        || |lp| < 2 || !IsPostalPattern(lp[0])
        || |rp| < 3
        || FindRegion(rp).None? || FindRegion(rp).value.start < 2
  {
    SplitTokens(leftText);
  }

  /** On success PNA is the first left token and a postal code, Miejscowość has
      exactly the remaining left tokens, Powiat is the token just before the
      voivodeship, Gmina has exactly the right tokens before Powiat (no vocabulary
      is consulted), and tokens after the voivodeship are dropped. */
  lemma CombinedFields(leftText: string, rightText: string)
    requires ParseCombinedData(leftText, rightText).Some?
    ensures var rec, lp, rp := ParseCombinedData(leftText, rightText).value, Split(leftText), Split(rightText);
      && FindRegion(rp).Some?
      && var h := FindRegion(rp).value;
      && 2 <= h.start
      && rec.pna == lp[0] && IsPostalPattern(rec.pna)
      && Split(rec.locality) == lp[1..] && rec.locality != ""
      && rec.powiat == rp[h.start - 1]
      && Split(rec.gmina) == rp[..h.start - 1]
      && rec.region == h.name && Listed(rec.region, Voivodeships)
  {
    var lp, rp := Split(leftText), Split(rightText);
    SplitTokens(leftText);
    SplitTokens(rightText);
    var h := FindRegion(rp).value;
    TokensJoin(lp[1..]);
    TokensJoin(rp[..h.start - 1]);
    FindRegionSpec(rp);
  }

  lemma TokensJoin(ws: seq<string>)
    requires AllTokens(ws) && ws != []
    ensures Split(Join(ws, " ")) == ws && Join(ws, " ") != ""
  {
    SplitJoin(ws);
  }

  /** The converse: texts that pass every test produce the record the fields
      describe. */
  lemma CombinedAccepts(leftText: string, rightText: string)
    requires var lp, rp := Split(leftText), Split(rightText);
      && |lp| >= 2 && IsPostalPattern(lp[0]) && |rp| >= 3
      && FindRegion(rp).Some? && FindRegion(rp).value.start >= 2
    ensures var lp, rp := Split(leftText), Split(rightText);
      var h := FindRegion(rp).value;
      ParseCombinedData(leftText, rightText) ==
        Some(Record(lp[0], Join(lp[1..], " "), "", "", Join(rp[..h.start - 1], " "), rp[h.start - 1], h.name))
  {
    SplitTokens(leftText);
    assert Split("") == [];
  }

  /** A voivodeship split over two tokens as "kujawsko pomorskie" is read as
      "pomorskie", with "kujawsko" as Powiat and every earlier right token, the
      real Powiat included, as Gmina. */
  lemma CombinedKujawsko(leftText: string, rightText: string, pre: seq<string>)
    requires |Split(leftText)| >= 2 && IsPostalPattern(Split(leftText)[0])
    requires Split(rightText) == pre + ["kujawsko", "pomorskie"] && pre != []
    ensures var rec := ParseCombinedData(leftText, rightText);
      && rec.Some?
      && rec.value.region == "pomorskie" && rec.value.powiat == "kujawsko"
      && rec.value.gmina == Join(pre, " ")
  {
    KujawskoPomorskieSplit(pre);
    var rp := Split(rightText);
    assert rp[..|pre|] == pre;
    CombinedAccepts(leftText, rightText);
  }
}
