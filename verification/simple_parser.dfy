/** The older segmenter of simple_column_parser.py: the same cleaning, postal-code
    test and voivodeship scan as parse_postal_codes.py, but other index rules, a
    four-entry compound list, and a house-number pattern that does not compile. */
module SimpleColumnParser {
  import opened Wrappers
  import opened Text
  import opened Vocabulary
  import ParsePostalCodes

  /** Lines containing any of these are skipped (simple_column_parser.py:163). */
  const HeaderKeywords: seq<string> := ["Poczta Polska", "PNA Miejscowość", "Strona", "Copyright"]

  /** Words that open a street (simple_column_parser.py:245). */
  const StreetMarkers: seq<string> := ["ul.", "Al.", "Pl.", "os."]

  /** Python's `re.error`: the raw pattern `^\\d+[,-]|\\d+$|\\(` escapes the
      backslash itself, so its last alternative opens a group it never closes. */
  datatype PatternError = UnterminatedSubpattern

  /** `parse_line_by_pattern` (simple_column_parser.py:155-275): an empty line or a
      header gives None, any other line is decided by its tokens. */
  function ParseLineByPattern(line: string): (r: Result<Option<Record>, PatternError>)
    ensures ContainsAny(CleanText(line), HeaderKeywords) ==> r == Success(None)
    ensures !ContainsAny(CleanText(line), HeaderKeywords) ==> r == PatternTokens(Split(line))
  {
    var c := CleanText(line);
    if c == "" then Success(None)
    else if ContainsAny(c, HeaderKeywords) then Success(None)
    else PatternTokens(Split(c))
  }

  /** The tokens of a cleaned, non-header line (simple_column_parser.py:167-201):
      four tokens, a postal code first, and a voivodeship somewhere. */
  function PatternTokens(parts: seq<string>): Result<Option<Record>, PatternError>
  {
    if |parts| < 4 || !IsPostalCode(parts[0]) then Success(None)
    else
      match FindRegion(parts)
      case None => Success(None)
      case Some(h) => PatternAt(parts, h.start, h.name)
  }

  /** `powiat_idx` from `voiv_idx` (simple_column_parser.py:204). */
  function PowiatIndex(v: int): int {
    if v > 0 then v - 1 else -1
  }

  /** `gmina_idx` from `powiat_idx` (simple_column_parser.py:208). */
  function GminaIndex(p: int): int {
    if p > 0 then p - 1 else -1
  }

  /** Gmina and the adjusted `gmina_idx` (simple_column_parser.py:211-222): at
      index two or more the pair ending there is tried against the short compound
      list, and a hit moves the index back by one. */
  function PatternGmina(parts: seq<string>, g: int): (r: (string, int))
    requires g < |parts|
    ensures g < 1 ==> r == ("", g)
    ensures g >= 1 ==>
      && (r.1 == g || (r.1 == g - 1 && Listed(r.0, ShortCompoundGminas)))
      && 1 <= r.1 && r.0 == Join(parts[r.1..g + 1], " ")
    ensures g >= 2 ==> (r.1 == g - 1 <==> Listed(Join(parts[g - 1..g + 1], " "), ShortCompoundGminas))
  {
    if g >= 2 then
      var pair := parts[g - 1] + " " + parts[g];
      assert Join(parts[g - 1..g + 1], " ") == pair by {
        assert parts[g - 1..g + 1][1..] == [parts[g]];
      }
      if Listed(pair, ShortCompoundGminas) then (pair, g - 1) else (parts[g], g)
    else if g >= 1 then (parts[g], g)
    else ("", g)
  }

  /** Where the middle span stops: the adjusted `gmina_idx` when it is above one,
      else the fallback three tokens from the end (simple_column_parser.py:225-229). */
  function MiddleEnd(n: nat, g: int): (e: int)
    ensures e >= 2 ==> e == g || e == n - 3
  {
    if g > 1 then g else n - 3
  }

  /** The record once the voivodeship starts at `v` (simple_column_parser.py:203-275).
      The middle span runs from token 1 to the adjusted Gmina index when that is
      above one, else to three tokens from the end (PatternGminaRule gives the index
      in terms of `v`). Locality is the first middle token; with more middle tokens the loop looks at
      the second: a street marker makes it and all later tokens the street, and
      anything else reaches the house-number pattern, which raises. */
  function PatternAt(parts: seq<string>, v: nat, region: string): (r: Result<Option<Record>, PatternError>)
    requires 4 <= |parts| && v < |parts|
    ensures var g := PatternGmina(parts, GminaIndex(PowiatIndex(v))).1;
      var middle := if g > 1 then parts[1..g] else parts[1..|parts| - 3];
      && (r == Success(None) <==> middle == [])
      && (r.Failure? <==> |middle| >= 2 && !Listed(middle[1], StreetMarkers))
      && (r.Success? && r.value.Some? ==>
            r.value.value.locality == middle[0] && r.value.value.street == Join(middle[1..], " "))
  {
    var p := PowiatIndex(v);
    var powiat := if p >= 1 then parts[p] else "";
    var (gmina, g) := PatternGmina(parts, GminaIndex(p));
    var e := MiddleEnd(|parts|, g);
    if e <= 1 then Success(None)
    else
      var middle := parts[1..e];
      if |middle| > 1 && !Listed(middle[1], StreetMarkers) then Failure(UnterminatedSubpattern)
      else
        var street := if |middle| > 1 then Join(middle[1..], " ") else "";
        Success(Some(Record(parts[0], middle[0], street, "", gmina, powiat, region)))
  }

  // ---------------------------------------------------------------------------
  // From the line to PatternAt

  /** An empty line, a header, fewer than four tokens, a first token that is no
      postal code, or no voivodeship give None (simple_column_parser.py:158-201). */
  lemma PatternRejects(line: string)
    ensures var r := ParseLineByPattern(line);
      && (CleanText(line) == "" ==> r == Success(None))
      && (ContainsAny(CleanText(line), HeaderKeywords) ==> r == Success(None))
      && (|Split(line)| < 4 ==> r == Success(None))
      && (Split(line) != [] && !IsPostalPattern(Split(line)[0]) ==> r == Success(None))
      && (FindRegion(Split(line)).None? ==> r == Success(None))
  {
    SplitTokens(line);
    if CleanText(line) == "" {
      ParsePostalCodes.SplitJoinEmpty();
    }
  }

  /** A line that gives a record or raises was decided by PatternAt at the
      voivodeship the scan found. */
  lemma PatternReads(line: string)
    requires ParseLineByPattern(line) != Success(None)
    ensures var parts := Split(line);
      && !ContainsAny(CleanText(line), HeaderKeywords)
      && |parts| >= 4 && IsPostalPattern(parts[0]) && FindRegion(parts).Some?
      && ParseLineByPattern(line) == PatternAt(parts, FindRegion(parts).value.start, FindRegion(parts).value.name)
  {
    SplitTokens(line);
    var parts := Split(line);
    TokensRead(parts);
  }

  lemma TokensRead(parts: seq<string>)
    requires PatternTokens(parts) != Success(None) && AllTokens(parts)
    ensures |parts| >= 4 && IsPostalPattern(parts[0]) && FindRegion(parts).Some?
    ensures PatternTokens(parts) == PatternAt(parts, FindRegion(parts).value.start, FindRegion(parts).value.name)
  {
    assert IsToken(parts[0]);
  }

  // ---------------------------------------------------------------------------
  // What PatternAt reads

  /** PNA is the first token, Miejscowość always the second, Numery always empty,
      Powiat the token before the voivodeship when there is one past PNA, and a
      street is only ever opened by a marker in the third token
      (simple_column_parser.py:203-275). */
  lemma PatternFields(parts: seq<string>, v: nat, region: string, rec: Record)
    requires 4 <= |parts| && v < |parts| && PatternAt(parts, v, region) == Success(Some(rec))
    ensures rec.pna == parts[0] && rec.locality == parts[1] && rec.numbers == ""
    ensures rec.region == region
    ensures rec.powiat == if v >= 2 then parts[v - 1] else ""
    ensures rec.street != "" ==> Listed(parts[2], StreetMarkers)
  {
    var (gmina, g) := PatternGmina(parts, GminaIndex(PowiatIndex(v)));
    var e := MiddleEnd(|parts|, g);
    assert parts[1..e][0] == parts[1];
    if e > 2 {
      assert parts[1..e][1] == parts[2];
    }
  }

  /** Gmina: with the voivodeship at four or later, the short-list pair before
      Powiat or else the single token before it; at three the second token; before
      that nothing (simple_column_parser.py:207-222). */
  lemma PatternGminaRule(parts: seq<string>, v: nat, region: string, rec: Record)
    requires 4 <= |parts| && v < |parts| && PatternAt(parts, v, region) == Success(Some(rec))
    ensures v >= 4 && Listed(parts[v - 3] + " " + parts[v - 2], ShortCompoundGminas) ==>
      rec.gmina == parts[v - 3] + " " + parts[v - 2]
    ensures v >= 4 && !Listed(parts[v - 3] + " " + parts[v - 2], ShortCompoundGminas) ==>
      rec.gmina == parts[v - 2]
    ensures v == 3 ==> rec.gmina == parts[1]
    ensures v < 3 ==> rec.gmina == ""
  {
  }

  /** The call raises exactly when the middle span has two or more tokens and the
      third token of the line is not a street marker; it gives None exactly when
      the span is empty (simple_column_parser.py:225-257). */
  lemma PatternOutcome(parts: seq<string>, v: nat, region: string)
    requires 4 <= |parts| && v < |parts|
    ensures var e := MiddleEnd(|parts|, PatternGmina(parts, GminaIndex(PowiatIndex(v))).1);
      && (PatternAt(parts, v, region) == Success(None) <==> e <= 1)
      && (PatternAt(parts, v, region).Failure? <==> e >= 3 && !Listed(parts[2], StreetMarkers))
  {
    var e := MiddleEnd(|parts|, PatternGmina(parts, GminaIndex(PowiatIndex(v))).1);
    if e >= 3 {
      assert parts[1..e][1] == parts[2];
    }
  }

  // ---------------------------------------------------------------------------
  // Against parse_postal_record

  /** Every keyword of the short header list is among the skip patterns of
      parse_postal_codes.py. */
  lemma HeaderKeywordsSkipped(c: string)
    requires !ContainsAny(c, ParsePostalCodes.SkipPatterns)
    ensures !ContainsAny(c, HeaderKeywords)
  {
    assert HeaderKeywords[0] == ParsePostalCodes.SkipPatterns[0];
    assert HeaderKeywords[1] == ParsePostalCodes.SkipPatterns[4];
    assert HeaderKeywords[2] == ParsePostalCodes.SkipPatterns[2];
    assert HeaderKeywords[3] == ParsePostalCodes.SkipPatterns[3];
  }

  /** Every name of the short compound list is on the long one. */
  lemma ShortCompoundListed(x: string)
    requires Listed(x, ShortCompoundGminas)
    ensures Listed(x, CompoundGminas)
  {
    var k :| 0 <= k < |ShortCompoundGminas| && ShortCompoundGminas[k] == x;
    assert CompoundGminas[k] == ShortCompoundGminas[k];
  }

  /** Where both segmenters produce a record for the same line they agree on PNA,
      Powiat and Województwo, and on Gmina unless it is one of the eight compound
      names only the longer list knows. */
  lemma SegmentersAgree(line: string, rec: Record, rec2: Record)
    requires ParsePostalCodes.ParsePostalRecord(line) == Some(rec)
    requires ParseLineByPattern(line) == Success(Some(rec2))
    ensures rec2.pna == rec.pna && rec2.powiat == rec.powiat && rec2.region == rec.region
    ensures rec2.gmina == rec.gmina ||
      (Listed(rec.gmina, CompoundGminas) && !Listed(rec.gmina, ShortCompoundGminas))
  {
    var parts := Split(line);
    ParsePostalCodes.ParsedAt(line, parts);
    PatternReads(line);
    var h := FindRegion(parts).value;
    AgreeAt(parts, h.start, h.name, rec, rec2);
  }

  /** SegmentersAgree at the voivodeship both scans find. */
  lemma AgreeAt(parts: seq<string>, v: nat, region: string, rec: Record, rec2: Record)
    requires 4 <= v < |parts|
    requires ParsePostalCodes.RecordAt(parts, v, region) == Some(rec)
    requires PatternAt(parts, v, region) == Success(Some(rec2))
    ensures rec2.pna == rec.pna && rec2.powiat == rec.powiat && rec2.region == rec.region
    ensures rec2.gmina == rec.gmina ||
      (Listed(rec.gmina, CompoundGminas) && !Listed(rec.gmina, ShortCompoundGminas))
  {
    ParsePostalCodes.AtGmina(parts, v, region);
    PatternFields(parts, v, region, rec2);
    PatternGminaRule(parts, v, region, rec2);
    var pair := parts[v - 3] + " " + parts[v - 2];
    if Listed(pair, ShortCompoundGminas) {
      ShortCompoundListed(pair);
    }
  }

  // ---------------------------------------------------------------------------
  // The sample lines of parse_postal_codes.py

  /** The first sample line raises here: its locality has two words and the
      second is no street marker. */
  lemma AbramowiceRaises(ts: seq<string>)
    requires ts == ["20-388", "Abramowice", "Kościelne", "Głusk", "lubelski", "lubelskie"]
    ensures PatternTokens(ts) == Failure(UnterminatedSubpattern)
  {
    AbramowiceTokens(ts);
    PatternOutcome(ts, 5, ts[5]);
    NotMarker(ts[2]);
  }

  lemma NotMarker(w: string)
    requires w == "Kościelne"
    ensures !Listed(w, StreetMarkers)
  {
    assert w[0] == 'K';
  }

  lemma AbramowiceTokens(ts: seq<string>)
    requires ts == ["20-388", "Abramowice", "Kościelne", "Głusk", "lubelski", "lubelskie"]
    ensures IsPostalCode(ts[0]) && FindRegion(ts) == Some(RegionHit(ts[5], 5, 5))
    ensures PatternGmina(ts, GminaIndex(PowiatIndex(5))) == (ts[3], 3)
  {
    ParsePostalCodes.SamplePostalCode(ts[0]);
    assert ts[5] == Voivodeships[4];
    assert SingleHit(ts, 5);
    LastHit(ts, 5);
    assert !Listed(ts[2] + " " + ts[3], ShortCompoundGminas) by {
      assert (ts[2] + " " + ts[3])[0] == 'K';
    }
  }

  /** With the gmina pair right after PNA, the fallback span takes the first word
      of Gmina as Miejscowość, where parse_postal_record finds no address and
      gives None. */
  lemma FallbackReusesGmina(ts: seq<string>)
    requires ts == ["05-192", "Nowe", "Miasto", "płoński", "mazowieckie"]
    ensures PatternTokens(ts) == Success(Some(Record(ts[0], ts[1], "", "", ts[1] + " " + ts[2], ts[3], ts[4])))
    ensures ParsePostalCodes.ParseParts(ts) == None
  {
    FallbackTokens(ts);
    FallbackPattern(ts);
  }

  lemma FallbackTokens(ts: seq<string>)
    requires ts == ["05-192", "Nowe", "Miasto", "płoński", "mazowieckie"]
    ensures IsPostalCode(ts[0]) && FindRegion(ts) == Some(RegionHit(ts[4], 4, 4))
    ensures Listed(ts[1] + " " + ts[2], ShortCompoundGminas) && Listed(ts[1] + " " + ts[2], CompoundGminas)
  {
    ParsePostalCodes.SamplePostalCode(ts[0]);
    assert ts[4] == Voivodeships[0];
    assert SingleHit(ts, 4);
    LastHit(ts, 4);
    assert ts[1] + " " + ts[2] == "Nowe Miasto" == ShortCompoundGminas[0] == CompoundGminas[0];
  }

  lemma FallbackPattern(ts: seq<string>)
    requires |ts| == 5 && Listed(ts[1] + " " + ts[2], ShortCompoundGminas)
    ensures PatternAt(ts, 4, ts[4]) == Success(Some(Record(ts[0], ts[1], "", "", ts[1] + " " + ts[2], ts[3], ts[4])))
  {
    assert PatternGmina(ts, GminaIndex(PowiatIndex(4))) == (ts[1] + " " + ts[2], 1);
    assert ts[1..2] == [ts[1]];
  }

  // ---------------------------------------------------------------------------
  // The house-number pattern as intended

  /** `^\d+[,-]|\d+$|\(` with single backslashes, as the comment beside it
      describes: digits then a comma or hyphen, a final digit, or an opening
      parenthesis. */
  predicate LooksLikeNumbers(part: string) {
    ParsePostalCodes.DigitsThenSeparator(part) || ParsePostalCodes.EndsInDigit(part) || '(' in part
  }

  /** The middle tokens after the first, as the forward loop sorts them. */
  datatype MiddleSplit = MiddleSplit(locality: seq<string>, street: seq<string>, numbers: seq<string>)

  /** The forward loop of simple_column_parser.py:238-257 with the pattern
      repaired: locality words up to the first street marker, which opens the
      street, or the first number-like token, which opens the numbers. */
  function SplitMiddle(rest: seq<string>): MiddleSplit
  {
    if rest == [] then MiddleSplit([], [], [])
    else if Listed(rest[0], StreetMarkers) then MiddleSplit([], rest, [])
    else if LooksLikeNumbers(rest[0]) then MiddleSplit([], [], rest)
    else
      var m := SplitMiddle(rest[1..]);
      MiddleSplit([rest[0]] + m.locality, m.street, m.numbers)
  }

  /** The three groups partition the tokens in order, and at most one of street
      and numbers is present. */
  lemma {:induction false} SplitMiddleParts(rest: seq<string>)
    ensures var m := SplitMiddle(rest);
      && m.locality + m.street + m.numbers == rest
      && (m.street == [] || m.numbers == [])
    decreases |rest|
  {
    if rest != [] && !Listed(rest[0], StreetMarkers) && !LooksLikeNumbers(rest[0]) {
      var m := SplitMiddle(rest[1..]);
      SplitMiddleParts(rest[1..]);
      assert ([rest[0]] + m.locality) + m.street + m.numbers == [rest[0]] + (m.locality + m.street + m.numbers);
      assert rest == [rest[0]] + rest[1..];
    }
  }

  /** The locality words are neither markers nor number-like; the street starts
      at a marker and the numbers at a number-like token that is no marker. */
  lemma {:induction false} SplitMiddleKinds(rest: seq<string>)
    ensures var m := SplitMiddle(rest);
      && (m.street != [] ==> Listed(m.street[0], StreetMarkers))
      && (m.numbers != [] ==> LooksLikeNumbers(m.numbers[0]) && !Listed(m.numbers[0], StreetMarkers))
      && forall i :: 0 <= i < |m.locality| ==>
           !Listed(m.locality[i], StreetMarkers) && !LooksLikeNumbers(m.locality[i])
    decreases |rest|
  {
    if rest != [] && !Listed(rest[0], StreetMarkers) && !LooksLikeNumbers(rest[0]) {
      var m := SplitMiddle(rest[1..]);
      SplitMiddleKinds(rest[1..]);
      var loc := [rest[0]] + m.locality;
      forall i | 0 <= i < |loc|
        ensures !Listed(loc[i], StreetMarkers) && !LooksLikeNumbers(loc[i])
      {
        if i > 0 {
          assert loc[i] == m.locality[i - 1];
        }
      }
    }
  }

  /** One step of the loop at index `i`. */
  lemma MiddleAt(rest: seq<string>, i: nat)
    requires i < |rest|
    ensures Listed(rest[i], StreetMarkers) ==> SplitMiddle(rest[i..]) == MiddleSplit([], rest[i..], [])
    ensures !Listed(rest[i], StreetMarkers) && LooksLikeNumbers(rest[i]) ==>
      SplitMiddle(rest[i..]) == MiddleSplit([], [], rest[i..])
    ensures !Listed(rest[i], StreetMarkers) && !LooksLikeNumbers(rest[i]) ==>
      SplitMiddle(rest[i..]) == AfterLocality([rest[i]], SplitMiddle(rest[i + 1..]))
  {
    assert rest[i..][0] == rest[i];
    assert rest[i..][1..] == rest[i + 1..];
  }

  /** The loop itself: it stops at the first marker or number-like token. */
  method ClassifyMiddle(rest: seq<string>) returns (m: MiddleSplit)
    ensures m == SplitMiddle(rest)
  {
    var locality: seq<string> := [];
    var i := 0;
    while i < |rest|
      invariant 0 <= i <= |rest| && locality == rest[..i]
      invariant SplitMiddle(rest) == AfterLocality(locality, SplitMiddle(rest[i..]))
    {
      var part := rest[i];
      MiddleAt(rest, i);
      if Listed(part, StreetMarkers) {
        return MiddleSplit(locality, rest[i..], []);
      } else if LooksLikeNumbers(part) {
        return MiddleSplit(locality, [], rest[i..]);
      }
      AfterLocalityTwice(locality, part, SplitMiddle(rest[i + 1..]));
      assert rest[..i + 1] == locality + [part];
      locality := locality + [part];
      i := i + 1;
    }
    assert rest[i..] == [];
    return MiddleSplit(locality, [], []);
  }

  lemma AfterLocalityTwice(words: seq<string>, w: string, m: MiddleSplit)
    ensures AfterLocality(words, AfterLocality([w], m)) == AfterLocality(words + [w], m)
  {
    assert words + ([w] + m.locality) == (words + [w]) + m.locality;
  }

  function AfterLocality(words: seq<string>, m: MiddleSplit): MiddleSplit {
    MiddleSplit(words + m.locality, m.street, m.numbers)
  }

  /** PatternAt with the pattern repaired: it never raises. */
  function PatternAtIntended(parts: seq<string>, v: nat, region: string): Option<Record>
    requires 4 <= |parts| && v < |parts|
  {
    var p := PowiatIndex(v);
    var powiat := if p >= 1 then parts[p] else "";
    var (gmina, g) := PatternGmina(parts, GminaIndex(p));
    var e := MiddleEnd(|parts|, g);
    if e <= 1 then None
    else
      var middle := parts[1..e];
      var m := SplitMiddle(middle[1..]);
      Some(Record(parts[0], Join([middle[0]] + m.locality, " "), Join(m.street, " "),
        Join(m.numbers, " "), gmina, powiat, region))
  }

  function PatternTokensIntended(parts: seq<string>): Option<Record>
  {
    if |parts| < 4 || !IsPostalCode(parts[0]) then None
    else
      match FindRegion(parts)
      case None => None
      case Some(h) => PatternAtIntended(parts, h.start, h.name)
  }

  /** `parse_line_by_pattern` with the house-number pattern repaired. */
  function ParseLineByPatternIntended(line: string): (r: Option<Record>)
    ensures ContainsAny(CleanText(line), HeaderKeywords) ==> r == None
    ensures !ContainsAny(CleanText(line), HeaderKeywords) ==> r == PatternTokensIntended(Split(line))
  {
    var c := CleanText(line);
    if c == "" then None
    else if ContainsAny(c, HeaderKeywords) then None
    else PatternTokensIntended(Split(c))
  }

  /** Wherever the code as written returns, the repaired one returns the same. */
  lemma IntendedAgreesAt(parts: seq<string>, v: nat, region: string)
    requires 4 <= |parts| && v < |parts| && PatternAt(parts, v, region).Success?
    ensures PatternAtIntended(parts, v, region) == PatternAt(parts, v, region).value
  {
    var (gmina, g) := PatternGmina(parts, GminaIndex(PowiatIndex(v)));
    var e := MiddleEnd(|parts|, g);
    if e > 1 {
      var middle := parts[1..e];
      assert Join([middle[0]], " ") == middle[0];
    }
  }

  lemma IntendedAgrees(line: string)
    requires ParseLineByPattern(line).Success?
    ensures ParseLineByPatternIntended(line) == ParseLineByPattern(line).value
  {
    var parts := Split(line);
    if !ContainsAny(CleanText(line), HeaderKeywords) && |parts| >= 4 && IsPostalCode(parts[0]) {
      if FindRegion(parts).Some? {
        var h := FindRegion(parts).value;
        IntendedAgreesAt(parts, h.start, h.name);
      }
    }
  }

  /** Repaired, the older segmenter reads the first sample line as
      parse_postal_record does, with the two-word locality. */
  lemma AbramowiceIntended(ts: seq<string>)
    requires ts == ["20-388", "Abramowice", "Kościelne", "Głusk", "lubelski", "lubelskie"]
    ensures PatternTokensIntended(ts) == Some(Record(ts[0], ts[1] + " " + ts[2], "", "", ts[3], ts[4], ts[5]))
    ensures PatternTokensIntended(ts) == ParsePostalCodes.ParseParts(ts)
  {
    AbramowiceTokens(ts);
    var rest := ts[2..3];
    assert ts[1..3][1..] == rest;
    assert !Listed(rest[0], StreetMarkers) by {
      assert rest[0][0] == 'K';
    }
    PlainKoscielne(rest[0]);
    assert SplitMiddle(rest) == MiddleSplit(rest, [], []) by {
      assert SplitMiddle(rest[1..]) == MiddleSplit([], [], []);
    }
    assert Join([ts[1]] + rest, " ") == ts[1] + " " + ts[2];
    ParsePostalCodes.AbramowiceParts(ts);
  }

  lemma PlainKoscielne(w: string)
    requires w == "Kościelne"
    ensures !LooksLikeNumbers(w)
  {
    assert ParsePostalCodes.DigitRun(w) == 0;
  }
}
