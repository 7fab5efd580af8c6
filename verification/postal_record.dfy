/** The full-line segmenter of parse_postal_codes.py: one text line of the postal
    table becomes a seven-field record, or nothing. */
module ParsePostalCodes {
  import opened Wrappers
  import opened Text
  import opened Vocabulary

  /** Lines containing any of these are headers or footers (parse_postal_codes.py:32-35). */
  const SkipPatterns: seq<string> := [
    "Poczta Polska", "Oficjalny Spis", "Strona", "Copyright",
    "PNA Miejscowość", "Część 1", "miejscowości i ulic"]

  /** Words that open a street name (parse_postal_codes.py:144). */
  const StreetIndicators: seq<string> := [
    "ul.", "Ulica", "Al.", "Aleja", "Pl.", "Plac", "os.", "Osiedle"]

  // ---------------------------------------------------------------------------
  // The house-number test `^\d+[-,]|\d+$|\(\w+\)|^DK$` and the street test

  /** Length of the run of digits at the start of `p`: every character before it
      is a digit and the one at it, if any, is not. */
  function DigitRun(p: string): (k: nat)
    ensures k <= |p| && (forall m :: 0 <= m < k ==> IsDigit(p[m])) && (k < |p| ==> !IsDigit(p[k]))
  {
    if p != [] && IsDigit(p[0]) then 1 + DigitRun(p[1..]) else 0
  }

  /** `^\d+[-,]`: one or more digits, then a hyphen or a comma. */
  predicate DigitsThenSeparator(p: string) {
    var k := DigitRun(p);
    1 <= k < |p| && (p[k] == '-' || p[k] == ',')
  }

  /** `\d+$`: the text ends in a digit. */
  predicate EndsInDigit(p: string) {
    p != [] && IsDigit(p[|p| - 1])
  }

  /** Length of the run of word characters at the start of `p`: every character
      before it is a word character and the one at it, if any, is not. */
  function WordRun(p: string): (k: nat)
    ensures k <= |p| && (forall m :: 0 <= m < k ==> IsWordChar(p[m])) && (k < |p| ==> !IsWordChar(p[k]))
  {
    if p != [] && IsWordChar(p[0]) then 1 + WordRun(p[1..]) else 0
  }

  /** `\(\w+\)`: somewhere a parenthesis encloses one or more word characters
      (a closing parenthesis is not a word character, so the run is maximal). */
  predicate HasParenthesisedWord(p: string)
    decreases |p|
  {
    p != [] &&
    ((p[0] == '(' && 1 <= WordRun(p[1..]) < |p| - 1 && p[1 + WordRun(p[1..])] == ')') ||
     HasParenthesisedWord(p[1..]))
  }

  /** The house-number test read as the regular expression says: some non-empty
      digit prefix followed by `-` or `,`, a final digit, a `(` and a `)` with
      one or more word characters between them, the whole token `DK`, or one of
      the four one-character tokens. */
  ghost predicate HouseNumberPattern(p: string) {
    || (exists k :: 1 <= k < |p| && (p[k] == '-' || p[k] == ',') && forall m :: 0 <= m < k ==> IsDigit(p[m]))
    || (p != [] && IsDigit(p[|p| - 1]))
    || (exists i, j :: EnclosedWord(p, i, j))
    || p == "DK" || (|p| == 1 && p[0] in ",-np")
  }

  /** A `(` at `i`, a `)` at `j`, and one or more word characters between them. */
  predicate EnclosedWord(p: string, i: int, j: int) {
    0 <= i && i + 1 < j < |p| && p[i] == '(' && p[j] == ')' && forall m :: i < m < j ==> IsWordChar(p[m])
  }

  /** The token opens the house-number part (parse_postal_codes.py:133), found by
      scans with maximal runs. */
  predicate IsHouseNumber(p: string) {
    DigitsThenSeparator(p) || EndsInDigit(p) || HasParenthesisedWord(p) ||
    p == "DK" || (|p| == 1 && (p[0] == ',' || p[0] == '-' || p[0] == 'n' || p[0] == 'p'))
  }

  /** The scans behind `IsHouseNumber` decide exactly the patterns of the
      house-number regular expression. */
  lemma HouseNumberMeaning(p: string)
    ensures IsHouseNumber(p) <==> HouseNumberPattern(p)
  {
    DigitsThenSeparatorPattern(p);
    ParenthesisedPattern(p);
  }

  /** `^\d+[-,]` found by the maximal digit run. */
  lemma DigitsThenSeparatorPattern(p: string)
    ensures DigitsThenSeparator(p) <==>
      exists k :: 1 <= k < |p| && (p[k] == '-' || p[k] == ',') && forall m :: 0 <= m < k ==> IsDigit(p[m])
  {
    var d := DigitRun(p);
    if k :| 1 <= k < |p| && (p[k] == '-' || p[k] == ',') && forall m :: 0 <= m < k ==> IsDigit(p[m]) {
      assert d == k;
    }
  }

  /** Dropping the first character moves every enclosed word one to the left. */
  lemma EnclosedShift(p: string, i: int, j: int)
    requires p != [] && 0 <= i
    ensures EnclosedWord(p[1..], i, j) <==> EnclosedWord(p, i + 1, j + 1)
  {
    if EnclosedWord(p[1..], i, j) {
      assert p[i + 1] == p[1..][i] && p[j + 1] == p[1..][j];
      forall m | i + 1 < m < j + 1 ensures IsWordChar(p[m]) {
        assert p[m] == p[1..][m - 1];
      }
    }
    if EnclosedWord(p, i + 1, j + 1) {
      assert p[1..][i] == p[i + 1] && p[1..][j] == p[j + 1];
      forall m | i < m < j ensures IsWordChar(p[1..][m]) {
        assert p[1..][m] == p[m + 1];
      }
    }
  }

  /** The scan finds `\(\w+\)` only where the pattern occurs. */
  lemma {:induction false} EnclosedFound(p: string)
    requires HasParenthesisedWord(p)
    ensures exists i, j :: EnclosedWord(p, i, j)
    decreases |p|
  {
    var w := WordRun(p[1..]);
    if p[0] == '(' && 1 <= w < |p| - 1 && p[1 + w] == ')' {
      forall m | 0 < m < 1 + w ensures IsWordChar(p[m]) {
        assert p[m] == p[1..][m - 1];
      }
      assert EnclosedWord(p, 0, 1 + w);
    } else {
      EnclosedFound(p[1..]);
      var i, j :| EnclosedWord(p[1..], i, j);
      EnclosedShift(p, i, j);
    }
  }

  /** `\(\w+\)` found by the scan that tries each `(` with the maximal word run. */
  lemma ParenthesisedPattern(p: string)
    ensures HasParenthesisedWord(p) <==> exists i, j :: EnclosedWord(p, i, j)
  {
    if HasParenthesisedWord(p) {
      EnclosedFound(p);
    }
    if exists i, j :: EnclosedWord(p, i, j) {
      var i, j :| EnclosedWord(p, i, j);
      EnclosedScan(p, i, j);
    }
  }

  /** Wherever `\(\w+\)` occurs, the scan reaches that `(` and finds it. */
  lemma {:induction false} EnclosedScan(p: string, i: int, j: int)
    requires EnclosedWord(p, i, j)
    ensures HasParenthesisedWord(p)
    decreases i
  {
    if i == 0 {
      ParenthesisAt(p, j);
    } else {
      EnclosedShift(p, i - 1, j - 1);
      EnclosedScan(p[1..], i - 1, j - 1);
    }
  }

  /** A `(` first, word characters up to `j` and a `)` at `j`: the maximal run
      ends at `j`, since `)` is no word character. */
  lemma ParenthesisAt(p: string, j: nat)
    requires 1 < j < |p| && p[0] == '(' && p[j] == ')'
    requires forall m :: 0 < m < j ==> IsWordChar(p[m])
    ensures HasParenthesisedWord(p)
  {
    var q := p[1..];
    assert q[j - 1] == ')';
    assert forall m :: 0 <= m < j - 1 ==> IsWordChar(q[m]);
    WordRunEndsAt(q, j - 1);
  }

  /** Word characters before `n` and none at `n`: the maximal run has length `n`. */
  lemma WordRunEndsAt(q: string, n: nat)
    requires n < |q| && !IsWordChar(q[n])
    requires forall m :: 0 <= m < n ==> IsWordChar(q[m])
    ensures WordRun(q) == n
  {
    var w := WordRun(q);
    assert w <= n;
    assert w >= n;
  }

  function LowerAscii(c: char): char {
    if 'A' <= c <= 'Z' then (c as int + 32) as char else c
  }

  /** `p.lower().startswith(q)` for a lower-case ASCII prefix `q`. */
  predicate LowerStartsWith(p: string, q: string) {
    |q| <= |p| && forall i :: 0 <= i < |q| ==> LowerAscii(p[i]) == q[i]
  }

  /** The token opens the street part (parse_postal_codes.py:144-147). Every
      street word has at least two characters and an "l", "L" or "s" second, and
      one that is not a listed indicator starts with three characters, the third
      a dot. */
  function IsStreetStart(p: string): (b: bool)
    ensures b ==> |p| >= 2 && (LowerAscii(p[1]) == 'l' || p[1] == 's')
    ensures b && !Listed(p, StreetIndicators) ==> |p| >= 3 && p[2] == '.'
  {
    if Listed(p, StreetIndicators) then
      var k :| 0 <= k < |StreetIndicators| && StreetIndicators[k] == p;
      IndicatorSecondLetter(k);
      true
    else
      assert LowerStartsWith(p, "ul.") ==> LowerAscii(p[1]) == 'l' && LowerAscii(p[2]) == '.';
      assert LowerStartsWith(p, "al.") ==> LowerAscii(p[1]) == 'l' && LowerAscii(p[2]) == '.';
      LowerStartsWith(p, "ul.") || LowerStartsWith(p, "al.")
  }

  /** Index of the first house-number token at or after `i`. */
  function FirstHouseNumber(ws: seq<string>, i: nat): (r: Option<nat>)
    requires i <= |ws|
    ensures r.Some? ==> i <= r.value < |ws|
    decreases |ws| - i
  {
    if i == |ws| then None
    else if IsHouseNumber(ws[i]) then Some(i)
    else FirstHouseNumber(ws, i + 1)
  }

  /** Index of the first street-opening token at or after `i`. */
  function FirstStreetStart(ws: seq<string>, i: nat): (r: Option<nat>)
    requires i <= |ws|
    ensures r.Some? ==> i <= r.value < |ws|
    decreases |ws| - i
  {
    if i == |ws| then None
    else if IsStreetStart(ws[i]) then Some(i)
    else FirstStreetStart(ws, i + 1)
  }

  /** The search finds the FIRST house-number token at or after `i`, and None
      means there is none. */
  lemma {:induction false} FirstHouseNumberSpec(ws: seq<string>, i: nat)
    requires i <= |ws|
    ensures var r := FirstHouseNumber(ws, i);
      && (r.None? ==> forall j :: i <= j < |ws| ==> !IsHouseNumber(ws[j]))
      && (r.Some? ==>
           && IsHouseNumber(ws[r.value])
           && forall j :: i <= j < r.value ==> !IsHouseNumber(ws[j]))
    decreases |ws| - i
  {
    if i < |ws| && !IsHouseNumber(ws[i]) {
      FirstHouseNumberSpec(ws, i + 1);
    }
  }

  /** The search finds the FIRST street-opening token at or after `i`, and None
      means there is none. */
  lemma {:induction false} FirstStreetStartSpec(ws: seq<string>, i: nat)
    requires i <= |ws|
    ensures var r := FirstStreetStart(ws, i);
      && (r.None? ==> forall j :: i <= j < |ws| ==> !IsStreetStart(ws[j]))
      && (r.Some? ==>
           && IsStreetStart(ws[r.value])
           && forall j :: i <= j < r.value ==> !IsStreetStart(ws[j]))
    decreases |ws| - i
  {
    if i < |ws| && !IsStreetStart(ws[i]) {
      FirstStreetStartSpec(ws, i + 1);
    }
  }

  // ---------------------------------------------------------------------------
  // Address, gmina and the whole line

  /** Miejscowość, Ulica and Numery carved out of the address tokens. */
  datatype Address = Address(locality: string, street: string, numbers: string)

  /** The split before the empty-locality repair: house numbers first, then a
      street word, else all locality (parse_postal_codes.py:132-156). */
  function PrimarySplit(address: seq<string>): (a: Address)
    ensures AllTokens(address) ==> PartitionOf(address, a)
  {
    FirstHouseNumberSpec(address, 0);
    match FirstHouseNumber(address, 0)
    case Some(n) =>
      NumbersPartition(address, n);
      Address(Join(address[..n], " "), "", Join(address[n..], " "))
    case None =>
      FirstStreetStartSpec(address, 0);
      match FirstStreetStart(address, 0)
      case Some(s) =>
        StreetPartition(address, s);
        Address(Join(address[..s], " "), Join(address[s..], " "), "")
      case None =>
        LocalityPartition(address);
        Address(Join(address, " "), "", "")
  }

  /** The full address split, with the repair of an empty locality
      (parse_postal_codes.py:160-168): the first token becomes the locality and the
      rest goes to Numery when it holds a digit, else to Ulica; the other field keeps
      what the primary split put there. */
  function SplitAddress(address: seq<string>): (a: Address)
    requires |address| > 0
    ensures a.locality != ""  || address[0] == ""
  {
    var p := PrimarySplit(address);
    if p.locality != "" then p
    else if |address| > 1 then
      var rest := Join(address[1..], " ");
      if HasDigit(rest) then Address(address[0], p.street, rest)
      else Address(address[0], rest, p.numbers)
    else Address(address[0], p.street, p.numbers)
  }

  /** Gmina and the number of tokens it takes from the end of `remaining`
      (parse_postal_codes.py:99-114). */
  function GminaOf(remaining: seq<string>): (g: (string, nat))
    requires |remaining| > 0
    ensures g.1 == 1 || g.1 == 2
    ensures g.1 <= |remaining|
    ensures g.1 == 1 ==> g.0 == remaining[|remaining| - 1]
    ensures g.1 == 2 ==> Listed(g.0, CompoundGminas) && g.0 == Join(remaining[|remaining| - 2..], " ")
  {
    if |remaining| >= 2 && Listed(remaining[|remaining| - 2] + " " + remaining[|remaining| - 1], CompoundGminas) then
      (remaining[|remaining| - 2] + " " + remaining[|remaining| - 1], 2)
    else
      (remaining[|remaining| - 1], 1)
  }

  /** The record carried by the tokens of a cleaned line that passed the
      header test (parse_postal_codes.py:39-178). */
  function ParseParts(parts: seq<string>): Option<Record>
  {
    if |parts| < 4 || !IsPostalCode(parts[0]) then None
    else
      match FindRegion(parts)
      case None => None
      case Some(h) =>
        if h.start < 3 then None
        else RecordAt(parts, h.start, h.name)
  }

  /** The record around a voivodeship whose first token is at index `s`: Powiat
      just before it, Gmina before Powiat, and the address between PNA and Gmina
      (parse_postal_codes.py:79-178). */
  function RecordAt(parts: seq<string>, s: nat, region: string): (r: Option<Record>)
    requires 3 <= s <= |parts|
    ensures r.Some? <==> s >= 5 || (s == 4 && !Listed(parts[1] + " " + parts[2], CompoundGminas))
    ensures r.Some? ==> r.value.pna == parts[0] && r.value.powiat == parts[s - 1] && r.value.region == region
  {
    var powiatIdx := s - 1;
    var remaining := parts[1..powiatIdx];
    GminaCount(remaining);
    assert s == 4 ==> remaining[0] == parts[1] && remaining[1] == parts[2];
    var (gmina, count) := GminaOf(remaining);
    var address := parts[1..powiatIdx - count];
    if |address| == 0 then None
    else
      var a := SplitAddress(address);
      Some(Record(parts[0], a.locality, a.street, a.numbers, gmina, parts[powiatIdx], region))
  }

  /** `parse_postal_record` (parse_postal_codes.py:24-178): a header line gives
      None, and any other line is decided by its tokens; ParsePostalRecordRejects
      states the rejection rules. */
  function ParsePostalRecord(line: string): (r: Option<Record>)
    ensures ContainsAny(CleanText(line), SkipPatterns) ==> r.None?
    ensures !ContainsAny(CleanText(line), SkipPatterns) ==> r == ParseParts(Split(line))
  {
    var c := CleanText(line);
    if c == "" then None
    else if ContainsAny(c, SkipPatterns) then None
    else ParseParts(Split(c))
  }

  /** An empty line, a header, fewer than four tokens or a first token that is no
      postal code give None (parse_postal_codes.py:26-50). */
  lemma ParsePostalRecordRejects(line: string)
    ensures var r := ParsePostalRecord(line);
      && (CleanText(line) == "" ==> r.None?)
      && (ContainsAny(CleanText(line), SkipPatterns) ==> r.None?)
      && (|Split(line)| < 4 ==> r.None?)
      && (Split(line) != [] && !IsPostalPattern(Split(line)[0]) ==> r.None?)
  {
    SplitTokens(line);
    if CleanText(line) == "" {
      SplitJoinEmpty();
    }
  }

  // ---------------------------------------------------------------------------
  // Properties

  lemma JoinTokensNonEmpty(ws: seq<string>)
    requires AllTokens(ws) && ws != []
    ensures Join(ws, " ") != ""
  {
    JoinTokensNoSpaceEnds(ws);
  }

  lemma SplitJoinEmpty()
    ensures Split("") == []
  {
  }

  /** The words of Miejscowość, Ulica and Numery are the address tokens in order;
      Miejscowość holds no house number; Numery starts at a house number and then
      Ulica is empty; Ulica starts at a street word and is used only when no token
      is a house number; without Numery, Miejscowość holds no street word, so Ulica
      starts at the first one. */
  predicate PartitionOf(address: seq<string>, a: Address) {
    && Split(a.locality) + Split(a.street) + Split(a.numbers) == address
    && (forall j :: 0 <= j < |Split(a.locality)| ==> !IsHouseNumber(Split(a.locality)[j]))
    && PartitionCuts(address, a)
  }

  /** Where Ulica and Numery start. */
  predicate PartitionCuts(address: seq<string>, a: Address) {
    && (a.numbers != "" ==> Split(a.numbers) != [] && IsHouseNumber(Split(a.numbers)[0]) && a.street == "")
    && (a.street != "" ==>
          && Split(a.street) != [] && IsStreetStart(Split(a.street)[0])
          && forall j :: 0 <= j < |address| ==> !IsHouseNumber(address[j]))
    && (a.numbers == "" ==> forall j :: 0 <= j < |Split(a.locality)| ==> !IsStreetStart(Split(a.locality)[j]))
  }

  lemma NumbersPartition(address: seq<string>, n: nat)
    requires n < |address| && IsHouseNumber(address[n])
    requires forall j :: 0 <= j < n ==> !IsHouseNumber(address[j])
    ensures AllTokens(address) ==>
      PartitionOf(address, Address(Join(address[..n], " "), "", Join(address[n..], " ")))
  {
    if AllTokens(address) {
      SplitJoin(address[..n]);
      SplitJoin(address[n..]);
      JoinTokensNonEmpty(address[n..]);
      assert address[..n] + address[n..] == address;
      assert Split("") == [];
    }
  }

  lemma StreetPartition(address: seq<string>, k: nat)
    requires k < |address| && IsStreetStart(address[k])
    requires forall j :: 0 <= j < k ==> !IsStreetStart(address[j])
    requires forall j :: 0 <= j < |address| ==> !IsHouseNumber(address[j])
    ensures AllTokens(address) ==>
      PartitionOf(address, Address(Join(address[..k], " "), Join(address[k..], " "), ""))
  {
    if AllTokens(address) {
      SplitJoin(address[..k]);
      SplitJoin(address[k..]);
      assert address[..k] + address[k..] == address;
      assert Split("") == [];
    }
  }

  lemma LocalityPartition(address: seq<string>)
    requires forall j :: 0 <= j < |address| ==> !IsHouseNumber(address[j])
    requires forall j :: 0 <= j < |address| ==> !IsStreetStart(address[j])
    ensures AllTokens(address) ==> PartitionOf(address, Address(Join(address, " "), "", ""))
  {
    if AllTokens(address) {
      LocalityOnlyWords(address);
      LocalityOnlyClean(address);
      LocalityOnlyRest(address);
    }
  }

  lemma LocalityOnlyWords(address: seq<string>)
    requires AllTokens(address)
    ensures var a := Address(Join(address, " "), "", "");
      Split(a.locality) + Split(a.street) + Split(a.numbers) == address
  {
    var a := Address(Join(address, " "), "", "");
    assert Split(a.locality) == address by { SplitJoin(address); }
    SplitJoinEmpty();
  }

  lemma LocalityOnlyClean(address: seq<string>)
    requires AllTokens(address)
    requires forall j :: 0 <= j < |address| ==> !IsHouseNumber(address[j])
    requires forall j :: 0 <= j < |address| ==> !IsStreetStart(address[j])
    ensures var a := Address(Join(address, " "), "", "");
      && (forall j :: 0 <= j < |Split(a.locality)| ==> !IsHouseNumber(Split(a.locality)[j]))
      && (forall j :: 0 <= j < |Split(a.locality)| ==> !IsStreetStart(Split(a.locality)[j]))
  {
    var a := Address(Join(address, " "), "", "");
    assert Split(a.locality) == address by { SplitJoin(address); }
  }

  lemma LocalityOnlyRest(address: seq<string>)
    requires AllTokens(address)
    requires forall j :: 0 <= j < |address| ==> !IsStreetStart(address[j])
    ensures PartitionCuts(address, Address(Join(address, " "), "", ""))
  {
    assert Split(Join(address, " ")) == address by { SplitJoin(address); }
  }

  /** The partition rule leaves no choice: any fields that partition the
      address have the words of the primary split, so Numery starts at the first
      house number and, without one, Ulica at the first street word. */
  lemma PartitionUnique(address: seq<string>, a: Address)
    requires AllTokens(address) && PartitionOf(address, a)
    ensures var p := PrimarySplit(address);
      && Split(a.locality) == Split(p.locality)
      && Split(a.street) == Split(p.street)
      && Split(a.numbers) == Split(p.numbers)
  {
    var p := PrimarySplit(address);
    PartitionCut(address, a);
    PartitionCut(address, p);
    PartitionSlices(address, a);
    PartitionSlices(address, p);
  }

  /** How many words each field of a partition takes. */
  lemma PartitionCut(address: seq<string>, a: Address)
    requires PartitionOf(address, a)
    ensures var l := |Split(a.locality)|;
      match FirstHouseNumber(address, 0)
      case Some(n) => l == n && Split(a.street) == []
      case None =>
        && Split(a.numbers) == []
        && match FirstStreetStart(address, 0)
           case Some(k) => l == k
           case None => l == |address|
  {
    FirstHouseNumberSpec(address, 0);
    FirstStreetStartSpec(address, 0);
    match FirstHouseNumber(address, 0)
    case Some(n) => CutAtNumber(address, a, n);
    case None =>
      NoNumbersWithout(address, a);
      match FirstStreetStart(address, 0)
      case Some(k) => CutAtStreet(address, a, k);
      case None => NoCut(address, a);
  }

  /** The words of the fields, read off the address by position. */
  lemma PartitionPositions(address: seq<string>, a: Address)
    requires PartitionOf(address, a)
    ensures var L, S, N := Split(a.locality), Split(a.street), Split(a.numbers);
      && |L| + |S| + |N| == |address|
      && (forall j :: 0 <= j < |L| ==> address[j] == L[j])
      && (forall j :: 0 <= j < |S| ==> address[|L| + j] == S[j])
      && (forall j :: 0 <= j < |N| ==> address[|L| + |S| + j] == N[j])
      && (S != [] ==> a.street != "")
      && (N != [] ==> a.numbers != "")
  {
    var L, S, N := Split(a.locality), Split(a.street), Split(a.numbers);
    assert Split("") == [];
    assert L + S + N == address;
  }

  lemma CutAtNumber(address: seq<string>, a: Address, n: nat)
    requires PartitionOf(address, a)
    requires n < |address| && IsHouseNumber(address[n])
    requires forall j :: 0 <= j < n ==> !IsHouseNumber(address[j])
    ensures |Split(a.locality)| == n && Split(a.street) == []
  {
    var L, S, N := Split(a.locality), Split(a.street), Split(a.numbers);
    PartitionPositions(address, a);
    assert |L| <= n;
    assert N != [];
    assert |L| >= n;
  }

  lemma NoNumbersWithout(address: seq<string>, a: Address)
    requires PartitionOf(address, a)
    requires forall j :: 0 <= j < |address| ==> !IsHouseNumber(address[j])
    ensures Split(a.numbers) == []
  {
    PartitionPositions(address, a);
  }

  lemma CutAtStreet(address: seq<string>, a: Address, k: nat)
    requires PartitionOf(address, a) && Split(a.numbers) == []
    requires k < |address| && IsStreetStart(address[k])
    requires forall j :: 0 <= j < k ==> !IsStreetStart(address[j])
    ensures |Split(a.locality)| == k
  {
    var L, S := Split(a.locality), Split(a.street);
    PartitionPositions(address, a);
    assert a.numbers == "";
    assert |L| <= k;
    assert S != [];
    assert |L| >= k;
  }

  lemma NoCut(address: seq<string>, a: Address)
    requires PartitionOf(address, a) && Split(a.numbers) == []
    requires forall j :: 0 <= j < |address| ==> !IsStreetStart(address[j])
    ensures |Split(a.locality)| == |address|
  {
    PartitionPositions(address, a);
    assert Split(a.street) == [];
  }

  /** The fields of a partition are consecutive slices of the address. */
  lemma PartitionSlices(address: seq<string>, a: Address)
    requires PartitionOf(address, a)
    ensures var l, s := |Split(a.locality)|, |Split(a.street)|;
      && l + s <= |address|
      && Split(a.locality) == address[..l]
      && Split(a.street) == address[l..l + s]
      && Split(a.numbers) == address[l + s..]
  {
    var L, S, N := Split(a.locality), Split(a.street), Split(a.numbers);
    assert address == L + S + N;
    assert (L + S + N)[..|L|] == L;
    assert (L + S + N)[|L|..|L| + |S|] == S;
    assert (L + S + N)[|L| + |S|..] == N;
  }

  /** When the first address token is ordinary text, or opens a street that a
      house number follows later, the primary split leaves a locality, so no
      token is lost or repeated and the fields are cut where
      parse_postal_codes.py:132-156 cuts them. */
  lemma AddressPartition(address: seq<string>)
    requires AllTokens(address) && address != [] && !IsHouseNumber(address[0])
    requires !IsStreetStart(address[0]) || exists j :: 0 <= j < |address| && IsHouseNumber(address[j])
    ensures PartitionOf(address, SplitAddress(address))
  {
    FirstHouseNumberSpec(address, 0);
    FirstStreetStartSpec(address, 0);
    match FirstHouseNumber(address, 0)
    case Some(n) =>
      JoinTokensNonEmpty(address[..n]);
    case None =>
      match FirstStreetStart(address, 0)
      case Some(k) =>
        JoinTokensNonEmpty(address[..k]);
      case None =>
        JoinTokensNonEmpty(address);
  }

  /** The empty-locality repair, for an address whose first token is a house
      number, or opens a street with no house number anywhere after it: the first
      token becomes Miejscowość; a rest with a digit becomes Numery, and a rest
      without one becomes Ulica; the other field keeps what the primary split
      put there, which is the whole address when the first token is a house
      number and Ulica when it opens a street (parse_postal_codes.py:132-168). */
  lemma RepairSplit(address: seq<string>)
    requires AllTokens(address) && address != []
    requires IsHouseNumber(address[0]) ||
      (IsStreetStart(address[0]) && forall j :: 0 <= j < |address| ==> !IsHouseNumber(address[j]))
    ensures var a := SplitAddress(address);
      var rest := address[1..];
      var digit := HasDigit(Join(rest, " "));
      && a.locality == address[0]
      && (IsHouseNumber(address[0]) ==>
            && Split(a.numbers) == (if digit then rest else address)
            && Split(a.street) == (if digit then [] else rest))
      && (!IsHouseNumber(address[0]) ==>
            && Split(a.street) == (if digit || rest == [] then address else rest)
            && Split(a.numbers) == (if digit then rest else []))
  {
    assert address[..0] == [] && address[0..] == address;
    SplitJoin(address);
    SplitJoin(address[1..]);
    SplitJoinEmpty();
    if IsHouseNumber(address[0]) {
      assert FirstHouseNumber(address, 0) == Some(0);
    } else {
      FirstHouseNumberSpec(address, 0);
      assert FirstStreetStart(address, 0) == Some(0);
    }
  }

  /** As written, the empty-locality repair does not clear what the primary split
      already put in Numery: a house number first and a digit-free rest leaves the
      whole address in Numery and the rest in Ulica as well. */
  lemma RepairKeepsNumbers(address: seq<string>)
    requires AllTokens(address) && |address| > 1
    requires IsHouseNumber(address[0]) && !HasDigit(Join(address[1..], " "))
    ensures SplitAddress(address) ==
      Address(address[0], Join(address[1..], " "), Join(address, " "))
  {
    assert FirstHouseNumber(address, 0) == Some(0);
    assert address[..0] == [] && address[0..] == address;
  }

  /** A one-token address that is a house number appears twice: as the locality
      and as the house numbers. */
  lemma RepairDuplicatesSingleNumber(t: string)
    requires IsToken(t) && IsHouseNumber(t)
    ensures SplitAddress([t]) == Address(t, "", t)
  {
    assert FirstHouseNumber([t], 0) == Some(0);
    assert [t][..0] == [] && [t][0..] == [t];
  }

  // ---------------------------------------------------------------------------
  // From the line to RecordAt

  /** An accepted token list is read by RecordAt at the voivodeship FindRegion
      reports. */
  lemma PartsRead(parts: seq<string>)
    requires ParseParts(parts).Some?
    ensures |parts| >= 4 && IsPostalCode(parts[0])
    ensures FindRegion(parts).Some? && FindRegion(parts).value.start >= 3
    ensures ParseParts(parts) == RecordAt(parts, FindRegion(parts).value.start, FindRegion(parts).value.name)
  {
  }

  /** A token list with a postal code first and a voivodeship is rejected when
      the voivodeship starts before index three and is otherwise read by RecordAt. */
  lemma PartsReadBack(parts: seq<string>)
    requires |parts| >= 4 && IsPostalCode(parts[0]) && FindRegion(parts).Some?
    ensures var h := FindRegion(parts).value;
      && (h.start < 3 ==> ParseParts(parts).None?)
      && (h.start >= 3 ==> ParseParts(parts) == RecordAt(parts, h.start, h.name))
  {
  }

  /** A line that ParsePostalRecord accepts is no header, has at least four
      tokens with a postal code first and a voivodeship starting at index four or
      later, and its record is the one RecordAt reads there
      (parse_postal_codes.py:39-79). */
  lemma ParsePostalRecordReads(line: string)
    requires ParsePostalRecord(line).Some?
    ensures var parts := Split(line);
      && !ContainsAny(CleanText(line), SkipPatterns)
      && |parts| >= 4 && IsPostalPattern(parts[0])
      && FindRegion(parts).Some? && FindRegion(parts).value.start >= 4
      && ParsePostalRecord(line) == RecordAt(parts, FindRegion(parts).value.start, FindRegion(parts).value.name)
  {
    var parts := Split(line);
    SplitTokens(line);
    PartsRead(parts);
    var h := FindRegion(parts).value;
    AtEnds(parts, h.start, h.name);
  }

  /** The converse of the rejection rules: a line that is not a header, with at
      least four tokens, a postal code first and a voivodeship is rejected when the
      voivodeship starts before index three and is otherwise decided by RecordAt,
      whose contract gives the acceptance rule (parse_postal_codes.py:59-79). */
  lemma ParsePostalRecordAccepts(line: string)
    requires !ContainsAny(CleanText(line), SkipPatterns)
    requires |Split(line)| >= 4 && IsPostalPattern(Split(line)[0])
    requires FindRegion(Split(line)).Some?
    ensures var parts := Split(line);
      var h := FindRegion(parts).value;
      && (h.start < 3 ==> ParsePostalRecord(line).None?)
      && (h.start >= 3 ==> ParsePostalRecord(line) == RecordAt(parts, h.start, h.name))
  {
    PostalToken(line);
    PartsReadBack(Split(line));
  }

  lemma PostalToken(line: string)
    requires |Split(line)| > 0 && IsPostalPattern(Split(line)[0])
    ensures IsPostalCode(Split(line)[0])
  {
    SplitTokens(line);
    StrippedFixed(Split(line)[0]);
  }

  /** Gmina is what GminaOf reads from the tokens between PNA and Powiat, and
      GminaRule says what that is (parse_postal_codes.py:93-114). */
  lemma ParsedGmina(line: string)
    requires ParsePostalRecord(line).Some?
    ensures var parts := Split(line);
      var s := FindRegion(parts).value.start;
      && 4 <= s <= |parts|
      && ParsePostalRecord(line).value.gmina == GminaOf(parts[1..s - 1]).0
  {
    var parts := Split(line);
    ParsedAt(line, parts);
    var h := FindRegion(parts).value;
    AtEnds(parts, h.start, h.name);
  }

  /** The part of ParsePostalRecordReads the field lemmas need. */
  lemma ParsedAt(line: string, parts: seq<string>)
    requires ParsePostalRecord(line).Some? && parts == Split(line)
    ensures FindRegion(parts).Some? && 4 <= FindRegion(parts).value.start <= |parts|
    ensures ParsePostalRecord(line) == RecordAt(parts, FindRegion(parts).value.start, FindRegion(parts).value.name)
  {
    ParsePostalRecordReads(line);
  }

  /** Reassembly: when the token after PNA is ordinary text, the record's fields,
      split into words and read in order PNA, Miejscowość, Ulica, Numery, Gmina,
      Powiat, are exactly the line's tokens before the voivodeship. */
  lemma RecordCoversLine(line: string)
    requires ParsePostalRecord(line).Some?
    requires !IsHouseNumber(Split(line)[1]) && !IsStreetStart(Split(line)[1])
    ensures var rec := ParsePostalRecord(line).value;
      var parts := Split(line);
      Split(rec.pna) + Split(rec.locality) + Split(rec.street) + Split(rec.numbers) +
        Split(rec.gmina) + Split(rec.powiat) == parts[..FindRegion(parts).value.start]
  {
    ParsePostalRecordReads(line);
    SplitTokens(line);
    var h := FindRegion(Split(line)).value;
    AtCover(Split(line), h.start, h.name);
  }

  // ---------------------------------------------------------------------------
  // What RecordAt reads

  /** PNA, Powiat and Województwo are the tokens around the voivodeship, and
      Gmina is what GminaOf takes from the tokens before Powiat. */
  lemma AtEnds(parts: seq<string>, s: nat, region: string)
    requires 3 <= s <= |parts| && RecordAt(parts, s, region).Some?
    ensures var rec := RecordAt(parts, s, region).value;
      && s >= 4 && GminaOf(parts[1..s - 1]).1 < s - 2
      && rec.pna == parts[0] && rec.powiat == parts[s - 1] && rec.region == region
      && rec.gmina == GminaOf(parts[1..s - 1]).0
  {
  }

  /** Miejscowość, Ulica and Numery are SplitAddress of the tokens between PNA and
      Gmina. */
  lemma AtAddress(parts: seq<string>, s: nat, region: string, count: nat)
    requires 3 <= s <= |parts| && RecordAt(parts, s, region).Some?
    requires count == GminaOf(parts[1..s - 1]).1 && count < s - 2
    ensures var rec := RecordAt(parts, s, region).value;
      SplitAddress(parts[1..s - 1 - count]) == Address(rec.locality, rec.street, rec.numbers)
  {
  }

  /** Gmina takes two tokens exactly when the last two form a compound name. */
  lemma GminaCount(remaining: seq<string>)
    requires |remaining| > 0
    ensures var n := |remaining|;
      GminaOf(remaining).1 == 2 <==> n >= 2 && Listed(remaining[n - 2] + " " + remaining[n - 1], CompoundGminas)
  {
  }

  /** Gmina as RecordAt reads it. */
  lemma AtGmina(parts: seq<string>, s: nat, region: string)
    requires 3 <= s <= |parts| && RecordAt(parts, s, region).Some?
    ensures var g := RecordAt(parts, s, region).value.gmina;
      && s >= 4
      && (Listed(parts[s - 3] + " " + parts[s - 2], CompoundGminas) ==> g == parts[s - 3] + " " + parts[s - 2])
      && (!Listed(parts[s - 3] + " " + parts[s - 2], CompoundGminas) ==> g == parts[s - 2])
  {
    AtEnds(parts, s, region);
    GminaRule(parts, s, RecordAt(parts, s, region).value.gmina);
  }

  /** GminaOf read on the tokens between PNA and Powiat. */
  lemma GminaRule(parts: seq<string>, s: nat, g: string)
    requires 4 <= s <= |parts| && g == GminaOf(parts[1..s - 1]).0
    ensures
      && (Listed(parts[s - 3] + " " + parts[s - 2], CompoundGminas) ==> g == parts[s - 3] + " " + parts[s - 2])
      && (!Listed(parts[s - 3] + " " + parts[s - 2], CompoundGminas) ==> g == parts[s - 2])
  {
    var remaining := parts[1..s - 1];
    assert remaining[|remaining| - 1] == parts[s - 2];
    assert remaining[|remaining| - 2] == parts[s - 3];
  }

  /** The words of the fields RecordAt fills are the tokens before the
      voivodeship, in order. */
  lemma AtCover(parts: seq<string>, s: nat, region: string)
    requires 3 <= s <= |parts| && RecordAt(parts, s, region).Some? && AllTokens(parts)
    requires !IsHouseNumber(parts[1]) && !IsStreetStart(parts[1])
    ensures var rec := RecordAt(parts, s, region).value;
      Split(rec.pna) + Split(rec.locality) + Split(rec.street) + Split(rec.numbers) +
        Split(rec.gmina) + Split(rec.powiat) == parts[..s]
  {
    var rec := RecordAt(parts, s, region).value;
    AtEnds(parts, s, region);
    var count := GminaOf(parts[1..s - 1]).1;
    AtAddress(parts, s, region, count);
    GminaTail(parts, s, rec.gmina, count);
    GminaWords(parts, s, rec.gmina, count);
    AddressWords(parts, s, count, Address(rec.locality, rec.street, rec.numbers));
    CoverCore(parts, rec, s, count);
  }

  /** Gmina's words are the `count` tokens before Powiat. */
  lemma GminaWords(parts: seq<string>, s: nat, gmina: string, count: nat)
    requires AllTokens(parts) && 3 <= s <= |parts|
    requires (count == 1 && gmina == parts[s - 2]) ||
             (count == 2 && 4 <= s && gmina == Join(parts[s - 3..s - 1], " "))
    ensures count <= s - 2
    ensures Split(gmina) == parts[s - 1 - count..s - 1]
  {
    if count == 1 {
      OneTokenWords(parts, s - 2);
    } else {
      TwoTokenWords(parts, s - 3);
    }
  }

  /** GminaOf takes the last token, or the last two joined by a space. */
  lemma GminaTail(parts: seq<string>, s: nat, gmina: string, count: nat)
    requires 3 <= s <= |parts|
    requires gmina == GminaOf(parts[1..s - 1]).0 && count == GminaOf(parts[1..s - 1]).1
    ensures (count == 1 && gmina == parts[s - 2]) ||
            (count == 2 && 4 <= s && gmina == Join(parts[s - 3..s - 1], " "))
  {
    if count == 1 {
      GminaLast(parts, s, gmina);
    } else {
      GminaPair(parts, s, gmina);
    }
  }

  lemma GminaLast(parts: seq<string>, s: nat, gmina: string)
    requires 3 <= s <= |parts| && GminaOf(parts[1..s - 1]) == (gmina, 1)
    ensures gmina == parts[s - 2]
  {
    var remaining := parts[1..s - 1];
    assert remaining[|remaining| - 1] == parts[s - 2];
  }

  lemma GminaPair(parts: seq<string>, s: nat, gmina: string)
    requires 3 <= s <= |parts| && GminaOf(parts[1..s - 1]) == (gmina, 2)
    ensures 4 <= s && gmina == Join(parts[s - 3..s - 1], " ")
  {
    var remaining := parts[1..s - 1];
    assert remaining[|remaining| - 2..] == parts[s - 3..s - 1];
  }

  lemma OneTokenWords(parts: seq<string>, i: nat)
    requires AllTokens(parts) && i < |parts|
    ensures Split(parts[i]) == parts[i..i + 1]
  {
    SplitToken(parts[i]);
  }

  lemma TwoTokenWords(parts: seq<string>, i: nat)
    requires AllTokens(parts) && i + 2 <= |parts|
    ensures Split(Join(parts[i..i + 2], " ")) == parts[i..i + 2]
  {
    var w := parts[i..i + 2];
    assert w[0] == parts[i] && w[1] == parts[i + 1];
    SplitJoin(w);
  }

  /** The address fields' words are the tokens between PNA and Gmina. */
  lemma AddressWords(parts: seq<string>, s: nat, count: nat, a: Address)
    requires AllTokens(parts) && 3 <= s <= |parts| && count < s - 2
    requires !IsHouseNumber(parts[1]) && !IsStreetStart(parts[1])
    requires a == SplitAddress(parts[1..s - 1 - count])
    ensures Split(a.locality) + Split(a.street) + Split(a.numbers) == parts[1..s - 1 - count]
  {
    var address := parts[1..s - 1 - count];
    assert address[0] == parts[1];
    AddressPartition(address);
  }

  /** The reassembly, stated over the pieces alone. */
  lemma CoverCore(parts: seq<string>, rec: Record, s: nat, count: nat)
    requires 4 <= s <= |parts| && 1 <= count < s - 2
    requires rec.pna == parts[0] && rec.powiat == parts[s - 1] && IsToken(parts[0]) && IsToken(parts[s - 1])
    requires Split(rec.gmina) == parts[s - 1 - count..s - 1]
    requires Split(rec.locality) + Split(rec.street) + Split(rec.numbers) == parts[1..s - 1 - count]
    ensures Split(rec.pna) + Split(rec.locality) + Split(rec.street) + Split(rec.numbers) +
        Split(rec.gmina) + Split(rec.powiat) == parts[..s]
  {
    assert Split(rec.pna) == [parts[0]] by { SplitToken(rec.pna); }
    assert Split(rec.powiat) == [parts[s - 1]] by { SplitToken(rec.powiat); }
    assert parts[1..s - 1 - count] + parts[s - 1 - count..s - 1] == parts[1..s - 1];
    SliceAround(parts, s);
    Assemble(Split(rec.pna), Split(rec.locality), Split(rec.street), Split(rec.numbers),
      Split(rec.gmina), Split(rec.powiat), parts[1..s - 1 - count], parts[1..s - 1], parts[..s]);
  }

  lemma SliceAround(parts: seq<string>, s: nat)
    requires 2 <= s <= |parts|
    ensures parts[..s] == [parts[0]] + parts[1..s - 1] + [parts[s - 1]]
  {
  }

  lemma Assemble(p: seq<string>, l: seq<string>, st: seq<string>, n: seq<string>,
                 g: seq<string>, w: seq<string>,
                 address: seq<string>, remaining: seq<string>, whole: seq<string>)
    requires l + st + n == address && address + g == remaining && whole == p + remaining + w
    ensures p + l + st + n + g + w == whole
  {
  }

  // ---------------------------------------------------------------------------
  // The sample lines of `test_parser` (parse_postal_codes.py:263-267)

  /** A character each header pattern needs. */
  function SkipKey(k: nat): char {
    if k == 0 || k == 4 then 'P' else if k == 1 then 'O' else if k == 2 then 'S'
    else if k == 3 || k == 5 then 'C' else 'j'
  }

  lemma SkipKeyIn(k: nat)
    requires k < |SkipPatterns|
    ensures SkipKey(k) in SkipPatterns[k]
  {
    if k == 6 {
      assert SkipPatterns[6][3] == 'j';
    } else if k < 3 {
      assert SkipPatterns[k][0] == SkipKey(k);
    } else if k == 3 {
      assert SkipPatterns[3][0] == 'C';
    } else if k == 4 {
      assert SkipPatterns[4][0] == 'P';
    } else {
      assert SkipPatterns[5][0] == 'C';
    }
  }

  /** A cleaned line that holds none of the characters the header patterns need
      is never taken for a header. */
  lemma NotHeader(line: string)
    requires 'P' !in line && 'O' !in line && 'S' !in line && 'C' !in line && 'j' !in line
    ensures !ContainsAny(line, SkipPatterns)
  {
    forall k | 0 <= k < |SkipPatterns| ensures !Contains(line, SkipPatterns[k]) {
      SkipKeyIn(k);
      MissingCharNotContained(line, SkipPatterns[k], SkipKey(k));
    }
  }

  /** A line written as single-space-separated tokens splits back to them and is
      its own cleaned form. */
  lemma TokensLine(ts: seq<string>, line: string)
    requires AllTokens(ts) && line == Join(ts, " ")
    ensures Split(line) == ts && CleanText(line) == line
  {
    SplitJoin(ts);
  }

  lemma {:induction false} NoParenthesis(p: string)
    requires '(' !in p
    ensures !HasParenthesisedWord(p)
    decreases |p|
  {
    if p != [] {
      NoParenthesis(p[1..]);
    }
  }

  /** A word of at least three characters with no digit at either end, and no
      opening parenthesis, is not a house number. */
  lemma PlainWord(w: string)
    requires |w| >= 3 && '(' !in w && !IsDigit(w[0]) && !IsDigit(w[|w| - 1])
    ensures !IsHouseNumber(w)
  {
    NoParenthesis(w);
  }

  /** Every street indicator has an "l" or an "s" as its second letter. */
  lemma IndicatorSecondLetter(k: nat)
    requires k < |StreetIndicators|
    ensures |StreetIndicators[k]| >= 2 && StreetIndicators[k][1] in "ls"
  {
  }

  lemma PlainAbramowice(w: string)
    requires w == "Abramowice"
    ensures !IsHouseNumber(w) && !IsStreetStart(w)
  {
    PlainWord(w);
  }

  lemma PlainKoscielne(w: string)
    requires w == "Kościelne"
    ensures !IsHouseNumber(w) && !IsStreetStart(w)
  {
    PlainWord(w);
  }

  lemma PlainAleksandria(w: string)
    requires w == "Aleksandria"
    ensures !IsHouseNumber(w)
  {
    PlainWord(w);
  }

  lemma DigitsHyphen(n: string)
    requires n == "4-6,"
    ensures IsHouseNumber(n)
  {
    assert n[1..] == "-6,";
    assert DigitRun(n[1..]) == 0;
    assert DigitRun(n) == 1;
    assert n[1] == '-';
  }

  lemma SamplePostalCode(n: string)
    requires n == "20-388" || n == "05-192"
    ensures IsPostalCode(n)
  {
    assert IsToken(n);
  }

  lemma AbramowiceAddress(address: seq<string>)
    requires address == ["Abramowice", "Kościelne"]
    ensures SplitAddress(address) == Address(address[0] + " " + address[1], "", "")
  {
    PlainAbramowice(address[0]);
    PlainKoscielne(address[1]);
    assert FirstHouseNumber(address, 2) == None;
    assert FirstHouseNumber(address, 1) == None;
    assert FirstHouseNumber(address, 0) == None;
    assert FirstStreetStart(address, 2) == None;
    assert FirstStreetStart(address, 1) == None;
    assert FirstStreetStart(address, 0) == None;
    assert PrimarySplit(address) == Address(Join(address, " "), "", "");
  }

  lemma AleksandriaAddress(address: seq<string>)
    requires address == ["Aleksandria", "4-6,", "7-9(n),", "12-15"]
    ensures SplitAddress(address) ==
      Address(address[0], "", address[1] + " " + address[2] + " " + address[3])
  {
    AleksandriaPrimary(address);
    assert address[1..] == [address[1], address[2], address[3]];
    JoinThree(address[1..], address[1], address[2], address[3]);
  }

  lemma AleksandriaPrimary(address: seq<string>)
    requires address == ["Aleksandria", "4-6,", "7-9(n),", "12-15"]
    ensures PrimarySplit(address) == Address(address[0], "", Join(address[1..], " "))
  {
    PlainAleksandria(address[0]);
    DigitsHyphen(address[1]);
    assert FirstHouseNumber(address, 1) == Some(1);
    assert FirstHouseNumber(address, 0) == Some(1);
    assert address[..1] == [address[0]];
  }

  lemma JoinThree(ws: seq<string>, a: string, b: string, c: string)
    requires ws == [a, b, c]
    ensures Join(ws, " ") == a + " " + b + " " + c
  {
    assert ws[1..] == [b, c] && ws[1..][1..] == [c];
    assert Join(ws[1..], " ") == b + " " + c;
  }

  lemma AbramowiceGmina(remaining: seq<string>)
    requires remaining == ["Abramowice", "Kościelne", "Głusk"]
    ensures GminaOf(remaining) == (remaining[2], 1)
  {
    assert remaining[1] + " " + remaining[2] == "Kościelne Głusk";
  }

  lemma AleksandriaGmina(remaining: seq<string>)
    requires remaining == ["Aleksandria", "4-6,", "7-9(n),", "12-15", "Nowe", "Miasto"]
    ensures GminaOf(remaining) == (remaining[4] + " " + remaining[5], 2)
  {
    assert remaining[4] + " " + remaining[5] == "Nowe Miasto" == CompoundGminas[0];
  }

  lemma AbramowiceParts(ts: seq<string>)
    requires ts == ["20-388", "Abramowice", "Kościelne", "Głusk", "lubelski", "lubelskie"]
    ensures ParseParts(ts) == Some(Record(ts[0], ts[1] + " " + ts[2], "", "", ts[3], ts[4], ts[5]))
  {
    SamplePostalCode(ts[0]);
    assert ts[5] == Voivodeships[4];
    assert SingleHit(ts, 5);
    LastHit(ts, 5);
    var remaining := ts[1..4];
    AbramowiceGmina(remaining);
    AbramowiceAddress(ts[1..3]);
  }

  lemma AleksandriaParts(ts: seq<string>)
    requires ts == ["05-192", "Aleksandria", "4-6,", "7-9(n),", "12-15", "Nowe", "Miasto", "płoński", "mazowieckie"]
    ensures ParseParts(ts) ==
      Some(Record(ts[0], ts[1], "", ts[2] + " " + ts[3] + " " + ts[4], ts[5] + " " + ts[6], ts[7], ts[8]))
  {
    SamplePostalCode(ts[0]);
    assert ts[8] == Voivodeships[0];
    assert SingleHit(ts, 8);
    LastHit(ts, 8);
    var remaining := ts[1..7];
    AleksandriaGmina(remaining);
    AleksandriaAddress(ts[1..5]);
  }

  /** A header-free character profile: none of the characters the header
      patterns need. */
  predicate HeaderFree(w: string) {
    'P' !in w && 'O' !in w && 'S' !in w && 'C' !in w && 'j' !in w
  }

  lemma {:induction false} HeaderFreeJoin(ts: seq<string>)
    requires forall i :: 0 <= i < |ts| ==> HeaderFree(ts[i])
    ensures HeaderFree(Join(ts, " "))
    decreases |ts|
  {
    if |ts| > 1 {
      HeaderFreeJoin(ts[1..]);
    }
  }

  /** A character that is neither white space nor one the header test needs. */
  predicate Quiet(c: char) {
    !IsSpace(c) && c != 'P' && c != 'O' && c != 'S' && c != 'C' && c != 'j'
  }

  predicate QuietWord(w: string) {
    w != [] && forall i :: 0 <= i < |w| ==> Quiet(w[i])
  }

  lemma QuietProfile(w: string)
    requires QuietWord(w)
    ensures IsToken(w) && HeaderFree(w)
  {
  }

  /** The sample line with tokens `ts`, written with single spaces, is decided by
      its tokens. */
  lemma SampleLine(ts: seq<string>)
    requires |ts| >= 4 && forall i :: 0 <= i < |ts| ==> QuietWord(ts[i])
    ensures ParsePostalRecord(Join(ts, " ")) == ParseParts(ts)
  {
    LineFacts(ts);
  }

  lemma LineFacts(ts: seq<string>)
    requires forall i :: 0 <= i < |ts| ==> QuietWord(ts[i])
    ensures Split(Join(ts, " ")) == ts && !ContainsAny(CleanText(Join(ts, " ")), SkipPatterns)
  {
    forall i | 0 <= i < |ts| ensures IsToken(ts[i]) && HeaderFree(ts[i]) {
      QuietProfile(ts[i]);
    }
    var line := Join(ts, " ");
    TokensLine(ts, line);
    HeaderFreeJoin(ts);
    NotHeader(line);
  }

  lemma QuietWords1(w: string)
    requires w in ["20-388", "Abramowice", "Kościelne"]
    ensures QuietWord(w)
  {
  }

  lemma QuietWords2(w: string)
    requires w in ["Głusk", "lubelski", "lubelskie"]
    ensures QuietWord(w)
  {
  }

  lemma QuietWords3(w: string)
    requires w in ["05-192", "Aleksandria", "4-6,"]
    ensures QuietWord(w)
  {
  }

  lemma QuietWords4(w: string)
    requires w in ["7-9(n),", "12-15", "Nowe"]
    ensures QuietWord(w)
  {
  }

  lemma QuietWords5(w: string)
    requires w in ["Miasto", "płoński", "mazowieckie"]
    ensures QuietWord(w)
  {
  }

  lemma AbramowiceLine(ts: seq<string>)
    requires ts == ["20-388", "Abramowice", "Kościelne", "Głusk", "lubelski", "lubelskie"]
    ensures forall i :: 0 <= i < |ts| ==> QuietWord(ts[i])
  {
    forall i | 0 <= i < |ts| ensures QuietWord(ts[i]) {
      if i < 3 { QuietWords1(ts[i]); } else { QuietWords2(ts[i]); }
    }
  }

  lemma AleksandriaLine(ts: seq<string>)
    requires ts == ["05-192", "Aleksandria", "4-6,", "7-9(n),", "12-15", "Nowe", "Miasto", "płoński", "mazowieckie"]
    ensures forall i :: 0 <= i < |ts| ==> QuietWord(ts[i])
  {
    forall i | 0 <= i < |ts| ensures QuietWord(ts[i]) {
      if i < 3 { QuietWords3(ts[i]); }
      else if i < 6 { QuietWords4(ts[i]); }
      else { QuietWords5(ts[i]); }
    }
  }

  /** "20-388 Abramowice Kościelne Głusk lubelski lubelskie": Miejscowość is
      "Abramowice Kościelne", Gmina "Głusk", and there is no street or house number. */
  lemma SampleAbramowice(ts: seq<string>)
    requires ts == ["20-388", "Abramowice", "Kościelne", "Głusk", "lubelski", "lubelskie"]
    ensures ParsePostalRecord(Join(ts, " ")) ==
      Some(Record(ts[0], ts[1] + " " + ts[2], "", "", ts[3], ts[4], ts[5]))
  {
    AbramowiceLine(ts);
    SampleLine(ts);
    AbramowiceParts(ts);
  }

  /** "05-192 Aleksandria 4-6, 7-9(n), 12-15 Nowe Miasto płoński mazowieckie":
      Miejscowość is "Aleksandria", Numery "4-6, 7-9(n), 12-15" (starting at the first
      "digits then comma or hyphen" token) and Gmina the compound "Nowe Miasto". */
  lemma SampleAleksandria(ts: seq<string>)
    requires ts == ["05-192", "Aleksandria", "4-6,", "7-9(n),", "12-15", "Nowe", "Miasto", "płoński", "mazowieckie"]
    ensures ParsePostalRecord(Join(ts, " ")) ==
      Some(Record(ts[0], ts[1], "", ts[2] + " " + ts[3] + " " + ts[4], ts[5] + " " + ts[6], ts[7], ts[8]))
  {
    AleksandriaLine(ts);
    SampleLine(ts);
    AleksandriaParts(ts);
  }
}
