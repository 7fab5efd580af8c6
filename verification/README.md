# Polish postal-code records, modelled in Dafny

The repository rebuilds the official Polish postal-code table (PNA, Miejscowość,
Ulica, Numery, Gmina, Powiat, Województwo) from a PDF. This project models the
part of it that turns extracted text into those seven-field records:

- **Three line segmenters.**
  - `parse_postal_record` reads a full text line.
  - `parse_line_by_pattern` is an older variant with other index rules.
  - `parse_combined_data` reads a left/right pair of column texts.
  - All three share `clean_text`, `is_postal_code` and a backward scan for the
    voivodeship.
- **Two tokenizers over positioned characters.**
  - The left/right split of a baseline, with gap-based word joining
    (`extract_row_data`, `add_word_spacing`).
  - The column setup and per-column bucketing of `interactive_parser.py`:
    common left edges, boundaries, half-open ranges and `parse_row_with_columns`.
- **The table post-processing.**
  - Stitching of the page tables.
  - The continuation merger `process_merged_rows`, which folds rows without a
    PNA into the row above until nothing changes.
  - `validate_postal_codes`.
  - The Gmina recovery `extract_known_gmina_from_numery`, which moves a known
    Gmina name glued onto the end of Numery back into Gmina.

Layout, one module per file:

| file | module | models |
|---|---|---|
| `wrappers.dfy` | `Wrappers` | `Option` (None, a NaN cell) and `Result` (an exception) |
| `text.dfy` | `Text` | strip, split, join, `clean_text`, `is_postal_code` |
| `vocabulary.dfy` | `Vocabulary` | the record, the voivodeships, the compound Gmina names, the region scan |
| `positioned.dfy` | `Positioned` | characters with positions, the stable in-place sort by `x0`, selections |
| `postal_record.dfy` | `ParsePostalCodes` | `parse_postal_codes.py` |
| `simple_parser.dfy` | `SimpleColumnParser` | `simple_column_parser.py` |
| `column_aware.dfy` | `ColumnAwareParser` | `column_aware_parser.py` |
| `interactive.dfy` | `InteractiveParser` | `interactive_parser.py` |
| `merge_rows.dfy` | `ProcessPostalCodes` | `pdf_extraction_process/process_postal_codes.py` |
| `gmina_fix.dfy` | `PostProcessMergedColumns` | `pdf_extraction_process/post_process_merged_columns.py` |

Style of the model:

- The pure segmenters are functions.
- Each is characterised by lemmas that give the exact rejection rules, the
  fields on success, and the concrete sample lines of `test_parser`.
- The code that works step by step is written as methods with loops, each
  proved against a specification function:
  - `add_word_spacing`;
  - the column analysis;
  - the range construction;
  - the in-place sort;
  - the merge passes;
  - the Gmina recovery, which updates an array of rows in place.
- The properties are then proved about those specification functions:
  - the merger equals a one-pass fold, keeps every PNA and is idempotent;
  - the recovery picks the unique longest matching name and is idempotent.

A pandas cell is an `Option<string>`: `None` is NaN. The regex classes `\s`,
`\d` and `\w` are explicit character predicates.

## Model

| member | source | states |
|---|---|---|
| Text.TrimStart | parse_postal_codes.py:16 | the left-stripped text is no longer than the input and does not start with whitespace |
| Text.TrimStartSpec | parse_postal_codes.py:16 | left-stripping removes exactly a whitespace prefix: the result is a suffix of the input and everything cut is whitespace |
| Text.TrimEnd | parse_postal_codes.py:16 | the right-stripped text is no longer than the input and does not end with whitespace |
| Text.TrimEndSpec | parse_postal_codes.py:16 | right-stripping removes exactly a whitespace suffix |
| Text.StripShape | parse_postal_codes.py:16 | a stripped text has no whitespace at either end |
| Text.StripIdempotent | parse_postal_codes.py:16 | stripping twice is stripping once |
| Text.SplitTokens | parse_postal_codes.py:40 | every piece `split()` returns is a non-empty word without whitespace |
| Text.SplitAround | parse_postal_codes.py:40 | whitespace between two texts separates their words: split distributes over it |
| Text.SplitStrip | parse_postal_codes.py:16 | stripping does not change the words of a text |
| Text.SplitJoin | parse_postal_codes.py:40 | joining words with single spaces and splitting again gives the words back |
| Text.CleanText | parse_postal_codes.py:12-16 | the regex-based cleaning equals joining the text's words with single spaces ("" for empty input), and keeps the words |
| Text.CleanTextIdempotent | parse_postal_codes.py:12-16 | cleaning twice is cleaning once |
| Text.CleanTextShape | parse_postal_codes.py:12-16 | a cleaned text has no whitespace at either end and no two adjacent whitespace characters |
| Text.IsPostalCode | parse_postal_codes.py:18-22 | true exactly when the text is non-empty and its stripped form is two digits, a hyphen and three digits; on a single word it is the pattern itself |
| Vocabulary.HitFor | parse_postal_codes.py:63-74 | at a hit index the single token wins and is reported at that index; otherwise the pair ending there, hyphen-joined and starting one earlier |
| Vocabulary.FindRegion | parse_postal_codes.py:63-74 | a reported voivodeship spans one token or two adjacent tokens inside the line |
| Vocabulary.FindRegionSpec | parse_postal_codes.py:63-74 | the scan reports the hit at the last index where the single token or the pair ending there is a voivodeship, single first; None exactly when no index is a hit |
| Vocabulary.LastHit | parse_postal_codes.py:63-74 | a hit with no hit after it is the one the scan reports |
| Vocabulary.ScanRegion | column_aware_parser.py:128-143 | the backward loop with `break` returns index -1 and "" exactly when there is no voivodeship, else the start index and name of the FindRegion hit |
| Vocabulary.HyphenatedVoivodeship | parse_postal_codes.py:51-56 | only "kujawsko-pomorskie" and "warmińsko-mazurskie" contain a hyphen, each once, at a fixed place |
| Vocabulary.PairHitWords | parse_postal_codes.py:66-72 | a pair hit can only be "kujawsko" "pomorskie" or "warmińsko" "mazurskie" |
| Vocabulary.ScanPrefersSingle | parse_postal_codes.py:63-74 | because the single token is tested first, the only two-token voivodeship ever reported is "warmińsko-mazurskie" |
| Vocabulary.KujawskoPomorskieSplit | parse_postal_codes.py:63-74 | a line ending "kujawsko pomorskie" resolves to "pomorskie" at the last index |
| ParsePostalCodes.FirstHouseNumber | parse_postal_codes.py:132-136 | the search returns an index at or after its start inside the tokens |
| ParsePostalCodes.FirstHouseNumberSpec | parse_postal_codes.py:132-136 | the search returns the first token passing the house-number test, and None exactly when none does |
| ParsePostalCodes.FirstStreetStart | parse_postal_codes.py:146-152 | the search returns an index at or after its start inside the tokens |
| ParsePostalCodes.FirstStreetStartSpec | parse_postal_codes.py:146-152 | the search returns the first street-opening token, and None exactly when none opens a street |
| ParsePostalCodes.HouseNumberMeaning | parse_postal_codes.py:133 | the scans of the house-number test accept exactly what the regular expression and the list describe: a digit prefix then "-" or ",", a final digit, a "(" and ")" around one or more word characters, "DK", or one of ",", "-", "n", "p" |
| ParsePostalCodes.DigitsThenSeparatorPattern | parse_postal_codes.py:133 | the maximal digit run followed by "-" or "," holds exactly when some non-empty digit prefix is followed by one of them |
| ParsePostalCodes.ParenthesisedPattern | parse_postal_codes.py:133 | the scan for a parenthesised word succeeds exactly when some "(" and a later ")" enclose one or more word characters |
| ParsePostalCodes.IsStreetStart | parse_postal_codes.py:144-147 | a street opener has "l", "L" or "s" as its second character; one not on the indicator list also has "." as its third |
| ParsePostalCodes.PrimarySplit | parse_postal_codes.py:132-156 | for word tokens the three fields partition the address: their words are the tokens in order, Miejscowość holds no house number, Numery starts at a house number, Ulica at a street opener with no house number anywhere, and without Numery Miejscowość holds no street opener either |
| ParsePostalCodes.PartitionUnique | parse_postal_codes.py:132-156 | the partition rule fixes the words of every field: any partition has the words of PrimarySplit, so Numery starts at the first house number and, without one, Ulica at the first street opener, else everything is Miejscowość |
| ParsePostalCodes.SplitAddress | parse_postal_codes.py:160-168 | after the empty-locality repair the locality is non-empty unless the first token itself is "" |
| ParsePostalCodes.RepairSplit | parse_postal_codes.py:132-168 | when the first token is a house number, or opens a street with no house number anywhere, the locality is that token and the rest goes to Numery when it holds a digit, else to Ulica; the other field keeps the primary split's words (the whole address or nothing) |
| ParsePostalCodes.AddressPartition | parse_postal_codes.py:132-156 | when the first address token is no house number, and opens no street unless a house number follows, the address fields' words are exactly the address tokens, cut at the first house number, else at the first street opener, and the locality is not empty |
| ParsePostalCodes.NumbersPartition | parse_postal_codes.py:138-142 | a house number at index n puts the tokens before it in Miejscowość and the rest in Numery, Ulica empty |
| ParsePostalCodes.StreetPartition | parse_postal_codes.py:143-152 | without house numbers, the first street opener, at index k, puts the tokens before it in Miejscowość and the rest in Ulica |
| ParsePostalCodes.LocalityPartition | parse_postal_codes.py:154-156 | without house numbers or street openers every token is Miejscowość |
| ParsePostalCodes.RepairKeepsNumbers | parse_postal_codes.py:160-168 | the empty-locality repair does not clear Numery: a house number first and a digit-free rest leaves the whole address in Numery and the rest in Ulica too |
| ParsePostalCodes.RepairDuplicatesSingleNumber | parse_postal_codes.py:160-168 | a one-token address that is a house number appears as both Miejscowość and Numery |
| ParsePostalCodes.GminaOf | parse_postal_codes.py:99-114 | Gmina takes one or two tokens from the end; two only when they form a listed compound name, joined by a space |
| ParsePostalCodes.GminaCount | parse_postal_codes.py:99-114 | Gmina takes two tokens exactly when the last two form a listed compound name |
| ParsePostalCodes.ParsePostalRecord | parse_postal_codes.py:24-178 | a cleaned line holding a skip pattern gives None; any other line is decided by its tokens alone |
| ParsePostalCodes.ParsePostalRecordRejects | parse_postal_codes.py:26-50 | an empty cleaned line, a header, fewer than four tokens or a first token that is no postal code give None |
| ParsePostalCodes.ParsePostalRecordReads | parse_postal_codes.py:39-79 | an accepted line is no header, has a postal code first, at least four tokens and a voivodeship starting at index four or later, and its record is RecordAt at that voivodeship |
| ParsePostalCodes.ParsePostalRecordAccepts | parse_postal_codes.py:59-79 | conversely, such a line with a voivodeship is rejected when the voivodeship starts before index three and is otherwise read by RecordAt |
| ParsePostalCodes.RecordAt | parse_postal_codes.py:76-120 | a voivodeship starting at index s gives a record exactly when s is five or more, or four with no compound Gmina pair; then PNA is the first token, Powiat the token before the voivodeship, Województwo the scanned name |
| ParsePostalCodes.AtEnds | parse_postal_codes.py:76-114 | on success PNA is the first token, Powiat the token before the voivodeship, Województwo the scanned name, and Gmina what GminaOf reads before Powiat |
| ParsePostalCodes.AtAddress | parse_postal_codes.py:116-168 | Miejscowość, Ulica and Numery are SplitAddress of the tokens between PNA and Gmina |
| ParsePostalCodes.AtGmina | parse_postal_codes.py:93-114 | Gmina is the two tokens before Powiat when they form a listed compound name, else the one token before Powiat |
| ParsePostalCodes.ParsedGmina | parse_postal_codes.py:93-114 | an accepted line's Gmina is what GminaOf reads from the tokens between PNA and Powiat |
| ParsePostalCodes.RecordCoversLine | parse_postal_codes.py:24-178 | when the token after PNA is ordinary text, the record's fields read in order are exactly the line's tokens before the voivodeship: nothing lost, nothing repeated |
| ParsePostalCodes.AtCover | parse_postal_codes.py:79-178 | the words of the fields RecordAt fills are the tokens before the voivodeship, in order |
| ParsePostalCodes.NotHeader | parse_postal_codes.py:32-38 | a line lacking the letters every skip pattern needs is never taken for a header |
| ParsePostalCodes.PlainWord | parse_postal_codes.py:133 | a word of three or more characters with no digit at either end and no "(" is not a house number |
| ParsePostalCodes.SampleAbramowice | parse_postal_codes.py:263-264 | "20-388 Abramowice Kościelne Głusk lubelski lubelskie" gives Miejscowość "Abramowice Kościelne", Gmina "Głusk", no street or numbers |
| ParsePostalCodes.SampleAleksandria | parse_postal_codes.py:263-267 | "05-192 Aleksandria 4-6, 7-9(n), 12-15 Nowe Miasto płoński mazowieckie" gives Miejscowość "Aleksandria", Numery "4-6, 7-9(n), 12-15", Gmina "Nowe Miasto" |
| ParsePostalCodes.AbramowiceAddress | parse_postal_codes.py:132-156 | the two-word address "Abramowice Kościelne" stays one locality |
| ParsePostalCodes.AleksandriaAddress | parse_postal_codes.py:132-142 | Numery starts at the first digits-then-comma token "4-6," |
| ParsePostalCodes.AleksandriaGmina | parse_postal_codes.py:99-108 | "Nowe Miasto" before Powiat is taken as a two-token Gmina |
| SimpleColumnParser.ParseLineByPattern | simple_column_parser.py:155-275 | a cleaned line holding a header keyword gives None; any other line is decided by its tokens, with the malformed pattern modelled as an error result |
| SimpleColumnParser.PatternRejects | simple_column_parser.py:158-201 | an empty line, a header, fewer than four tokens, a first token that is no postal code or no voivodeship give None |
| SimpleColumnParser.PatternReads | simple_column_parser.py:155-201 | a line that gives a record or raises has a postal code first, four or more tokens and a voivodeship, and is decided at that voivodeship (no minimum index) |
| SimpleColumnParser.PatternGmina | simple_column_parser.py:211-222 | below index one Gmina is "" at index 0; otherwise it is the tokens from the adjusted index to the start index joined by spaces, the adjusted index being the start or one less, one less exactly when the pair ending at the start is on the four-name list |
| SimpleColumnParser.PatternFields | simple_column_parser.py:203-275 | on success PNA is the first token, Miejscowość the second, Numery "", Powiat the token before the voivodeship (or "" at index 0), and a street only opens at a marker in the third token |
| SimpleColumnParser.PatternGminaRule | simple_column_parser.py:207-222 | Gmina as a function of the voivodeship index: short-list pair or single token before Powiat, the second token at three, "" below |
| SimpleColumnParser.PatternAt | simple_column_parser.py:203-265 | the middle span runs from token 1 to the adjusted Gmina index when it is above one, else to three tokens from the end; None exactly when it is empty; an error exactly when it has two or more tokens and the second is no street marker; otherwise Miejscowość is its first token and Ulica the rest |
| SimpleColumnParser.PatternOutcome | simple_column_parser.py:225-257 | the call gives None exactly when the middle span is empty, and raises exactly when the span has two or more tokens and the third token is no street marker |
| SimpleColumnParser.HeaderKeywordsSkipped | simple_column_parser.py:163 | its header keywords are all skip patterns of the full-line segmenter |
| SimpleColumnParser.ShortCompoundListed | simple_column_parser.py:211 | its four compound names are all on the twelve-name list |
| SimpleColumnParser.SegmentersAgree | simple_column_parser.py:155-275 | where both segmenters return a record they agree on PNA, Powiat and Województwo, and on Gmina unless it is a compound name only the longer list knows |
| SimpleColumnParser.FallbackReusesGmina | simple_column_parser.py:225-229 | with the compound Gmina right after PNA, the fallback span takes Gmina's first word as Miejscowość, where the full-line segmenter gives None |
| SimpleColumnParser.AbramowiceRaises | simple_column_parser.py:248-257 | the first sample line raises: two middle tokens, the second no street marker |
| SimpleColumnParser.ClassifyMiddle | simple_column_parser.py:238-257 | the forward loop (pattern repaired) equals SplitMiddle |
| SimpleColumnParser.SplitMiddleParts | simple_column_parser.py:238-257 | the locality, street and number groups partition the remaining tokens in order, and street and numbers are never both present |
| SimpleColumnParser.SplitMiddleKinds | simple_column_parser.py:238-257 | locality words are neither markers nor number-like; the street starts at a marker; the numbers start at a number-like non-marker |
| SimpleColumnParser.ParseLineByPatternIntended | simple_column_parser.py:155-275 | the repaired segmenter: headers give None; other lines are decided by their tokens and never raise |
| SimpleColumnParser.IntendedAgrees | simple_column_parser.py:155-275 | wherever the code as written returns, the repaired version returns the same |
| SimpleColumnParser.AbramowiceIntended | simple_column_parser.py:233-265 | repaired, the first sample line reads "Abramowice Kościelne" as Miejscowość, as the full-line segmenter does |
| ColumnAwareParser.AddWordSpacing | column_aware_parser.py:53-74 | the loop returns WordSpacing of the characters |
| ColumnAwareParser.WordSpacingGaps | column_aware_parser.py:53-74 | the texts come out in order with one space exactly where a gap wider than 3 follows the previous right edge (width defaulting to 5), never before the first character, stripped |
| ColumnAwareParser.SpaceRunShape | column_aware_parser.py:57-72 | the loop state: the word in progress is never empty and `last_x` is the right edge of the last character |
| ColumnAwareParser.SpacedWithoutGaps | column_aware_parser.py:53-74 | with no gap the text is the characters' texts run together |
| ColumnAwareParser.ExtractRowData | column_aware_parser.py:27-79 | None exactly when no character is within the tolerance of the row; otherwise the spaced texts of the sorted row's left (x0 < 250) and right (x0 >= 300) sections |
| ColumnAwareParser.RowSections | column_aware_parser.py:42-50 | each section is sorted by x0 and holds exactly the row's characters on its side, as often as the page has them; none is in both and the 250..300 band in neither |
| ColumnAwareParser.ParseCombinedData | column_aware_parser.py:82-167 | Ulica and Numery are always "" |
| ColumnAwareParser.CombinedRejects | column_aware_parser.py:85-151 | None exactly when a text is empty, the left has fewer than two tokens or no postal code first, the right fewer than three tokens, no voivodeship, or one starting before the third right token |
| ColumnAwareParser.CombinedFields | column_aware_parser.py:97-167 | on success PNA is the first left token, Miejscowość the other left tokens, Powiat the token before the voivodeship, Gmina every right token before Powiat with no vocabulary check; later tokens are dropped |
| ColumnAwareParser.CombinedAccepts | column_aware_parser.py:82-167 | conversely, texts passing every test give exactly that record |
| ColumnAwareParser.CombinedKujawsko | column_aware_parser.py:128-157 | a split "kujawsko pomorskie" is read as "pomorskie" with Powiat "kujawsko" and the real Powiat inside Gmina |
| InteractiveParser.IsDataRow | interactive_parser.py:84-86 | a data row is exactly one whose first word is a postal code |
| InteractiveParser.IsColumnDataRow | interactive_parser.py:300-310 | parse_pdf_with_columns takes exactly the rows with three or more words, a postal code first and no header keyword, and each is a data row |
| InteractiveParser.ShortDataRow | interactive_parser.py:300-310 | a postal code and one word is a data row that parse_pdf_with_columns skips |
| InteractiveParser.AnalyzeColumnPositions | interactive_parser.py:98-138 | None exactly for no rows; otherwise ascending, and holding exactly the positions found in at least 30% of the rows |
| InteractiveParser.RowPositions | interactive_parser.py:116-123 | a row's `x_groups` keys: each position of the row exactly once |
| InteractiveParser.InsertAscending | interactive_parser.py:131 | inserting a new position keeps the list ascending with exactly the old positions and the new one |
| InteractiveParser.IncreasingUnique | interactive_parser.py:130-131 | an ascending list is fixed by its elements, so the column analysis is deterministic |
| InteractiveParser.BuildColumnRanges | interactive_parser.py:197-205 | one range per column: column i gets [b_i, b_{i+1}), with 0 and 999 for missing boundaries |
| InteractiveParser.RangesAdjacent | interactive_parser.py:197-205 | each column ends where the next starts |
| InteractiveParser.RangesDisjoint | interactive_parser.py:197-205 | with ascending boundaries no position lies in two columns |
| InteractiveParser.RangesCover | interactive_parser.py:197-205 | with eight ascending boundaries every position between the first and the last lies in some column |
| InteractiveParser.ManualBoundaries | interactive_parser.py:184-194 | typed ascending positions within [0, 999] give ascending boundaries from 0 to 999 |
| InteractiveParser.AutomaticLastColumn | interactive_parser.py:182-183 | in the automatic branch Województwo gets the empty range [999, 999) and holds no position |
| InteractiveParser.AutomaticWojewodztwoEmpty | interactive_parser.py:182-183 | in the automatic branch every row's Województwo text is "" |
| InteractiveParser.ParseRowWithColumns | interactive_parser.py:231-257 | None exactly for no characters; the caller's characters are left stably sorted by x0; each column gets the text of its range |
| InteractiveParser.ColumnsOfRow | interactive_parser.py:243-255 | the loop over the columns builds the column-text map |
| InteractiveParser.ColumnTextsKeys | interactive_parser.py:241-257 | the result has a key for every configured column and no other key |
| InteractiveParser.ColumnTextsValues | interactive_parser.py:244-255 | with distinct names each key holds its own column's text |
| InteractiveParser.ColumnTextWords | interactive_parser.py:249-253 | a column's text is the words of its characters (start <= x0 < end, in row order) joined by single spaces |
| InteractiveParser.ColumnChars | interactive_parser.py:239-249 | after the sort a column's characters ascend by x0 and are exactly the row's characters in its range, as often as the row has them |
| InteractiveParser.NoCharInTwoColumns | interactive_parser.py:249 | with non-overlapping ranges no character lands in two columns |
| InteractiveParser.EmptyRangeText | interactive_parser.py:249-253 | a column with an empty range gets "" |
| InteractiveParser.ColumnNamesDistinct | interactive_parser.py:170 | the seven column names are distinct, so the result has seven keys |
| Positioned.SortCharsByX | interactive_parser.py:239 | the in-place insertion sort leaves the array equal to SortByX of its old contents |
| Positioned.InsertAt | interactive_parser.py:239 | one pass inserts a[i] into the sorted prefix where the stable sort puts it, leaving the rest alone |
| Positioned.SortByXSorted | interactive_parser.py:239 | the sort returns a permutation of its input ordered by x0 |
| Positioned.SortByXStable | interactive_parser.py:239 | characters with the same x0 keep their input order |
| Positioned.SelectCount | column_aware_parser.py:49-50 | a selection keeps each in-band character as often as the input has it and drops all others |
| Positioned.SelectSorted | column_aware_parser.py:49-50 | a selection of a sorted row is sorted |
| ProcessPostalCodes.RemoveBreaks | pdf_extraction_process/process_postal_codes.py:80-81 | the result has no "\n" or "\r", and every other character occurs in it exactly as often as in the input |
| ProcessPostalCodes.RemoveBreaksConcat | pdf_extraction_process/process_postal_codes.py:80-81 | removing breaks distributes over concatenation |
| ProcessPostalCodes.RemoveBreaksChar | pdf_extraction_process/process_postal_codes.py:80-81 | a "\n" or "\r" is removed and any other character is kept; with RemoveBreaksConcat the other characters survive in order |
| ProcessPostalCodes.CleanCell | pdf_extraction_process/process_postal_codes.py:77-86 | a cleaned cell has no line break and no surrounding whitespace |
| ProcessPostalCodes.CleanCellIdempotent | pdf_extraction_process/process_postal_codes.py:77-86 | cleaning a clean cell changes nothing |
| ProcessPostalCodes.StitchTables | pdf_extraction_process/process_postal_codes.py:64-102 | no tables is an error; an empty stitch has no header row; otherwise the first stitched row is the header and the rest are the data |
| ProcessPostalCodes.StitchedCellsClean | pdf_extraction_process/process_postal_codes.py:73-97 | every stitched cell is clean |
| ProcessPostalCodes.HeaderFromFirstTable | pdf_extraction_process/process_postal_codes.py:91-101 | table 0 from its third row opens the stitch, so its third row is the header |
| ProcessPostalCodes.BlankMeansStripEmpty | pdf_extraction_process/process_postal_codes.py:154 | a blank cell is NaN or one whose text strips to "" |
| ProcessPostalCodes.MergeCell | pdf_extraction_process/process_postal_codes.py:159-173 | a blank continuation leaves the value above; otherwise the merged words are the words above followed by the continuation's, except that after a trailing "-" the last word above and the first continuation word fuse into one |
| ProcessPostalCodes.SpaceJoinWords | pdf_extraction_process/process_postal_codes.py:173 | stripping the space-joined text keeps the words of both parts, in order |
| ProcessPostalCodes.HyphenJoinWords | pdf_extraction_process/process_postal_codes.py:168-170 | gluing the stripped continuation onto a value ending in "-" fuses the boundary words and keeps all others |
| ProcessPostalCodes.MergeRow | pdf_extraction_process/process_postal_codes.py:155-173 | the row above keeps its PNA, and merging a wiped row changes nothing; each other column is merged by MergeCell |
| ProcessPostalCodes.HyphenatedLocality | pdf_extraction_process/process_postal_codes.py:168-170 | example: "Kowalska-" merged with "Dolna" gives "Kowalska-Dolna" |
| ProcessPostalCodes.MergeIntoNone | pdf_extraction_process/process_postal_codes.py:160-173 | merging into a missing value gives the stripped continuation value |
| ProcessPostalCodes.MergeThroughMissing | pdf_extraction_process/process_postal_codes.py:152-176 | merging a row that was first merged into a wiped row equals merging the row itself, so a chain of continuations folds one link per pass |
| ProcessPostalCodes.NormalizedMerge | pdf_extraction_process/process_postal_codes.py:160-176 | a merge into a wiped row is normalized, and a normalized row is left unchanged by it |
| ProcessPostalCodes.ProcessMergedRows | pdf_extraction_process/process_postal_codes.py:117-189 | passes of merge-and-wipe and drop, repeated until a pass drops nothing, give the one-pass fold Merged |
| ProcessPostalCodes.PassStep | pdf_extraction_process/process_postal_codes.py:152-176 | merging row i into row i-1 and wiping row i keeps the fold, when row i-1 is row 0, has a PNA, or is wiped |
| ProcessPostalCodes.PassEnd | pdf_extraction_process/process_postal_codes.py:152-183 | after a pass the fold is unchanged; a pass that wiped nothing changed nothing and found no continuation |
| ProcessPostalCodes.PassWithoutDrop | pdf_extraction_process/process_postal_codes.py:178-183 | a pass that drops no row leaves a frame that is its own fold, which ends the loop |
| ProcessPostalCodes.DropKeepsMerged | pdf_extraction_process/process_postal_codes.py:179 | dropping the wiped rows after a pass keeps the fold |
| ProcessPostalCodes.DropMissingSameLength | pdf_extraction_process/process_postal_codes.py:179-183 | dropping leaves the length only when no row is wiped, and then changes nothing; otherwise the frame shrinks (the termination measure) |
| ProcessPostalCodes.GroupsWithoutContinuation | pdf_extraction_process/process_postal_codes.py:152-154 | without continuations after row 0 every row is its own group |
| ProcessPostalCodes.GroupsPnas | pdf_extraction_process/process_postal_codes.py:152-156 | row 0 keeps its PNA and every later row with a PNA starts its own group, in order |
| ProcessPostalCodes.MergedKeepsEveryPna | pdf_extraction_process/process_postal_codes.py:117-189 | when row 0 has a PNA the result has one row per input row with a PNA, in order: no record lost, none invented |
| ProcessPostalCodes.MergedShape | pdf_extraction_process/process_postal_codes.py:117-189 | every result row after the first has a PNA, and no row is wiped |
| ProcessPostalCodes.MergedIdempotent | pdf_extraction_process/process_postal_codes.py:117-189 | merging the merged frame again changes nothing |
| ProcessPostalCodes.CountMissing | pdf_extraction_process/process_postal_codes.py:209 | the count of missing or empty PNAs is zero exactly when no row has one |
| ProcessPostalCodes.CountInvalid | pdf_extraction_process/process_postal_codes.py:214-217 | the count of present PNAs failing the pattern after stripping is zero exactly when there are none |
| ProcessPostalCodes.ValidatePostalCodes | pdf_extraction_process/process_postal_codes.py:192-228 | the frame comes back unchanged; both counts are zero exactly when every PNA is present and well formed |
| PostProcessMergedColumns.KnownNames | pdf_extraction_process/post_process_merged_columns.py:28-39 | the collected set is the vocabulary: every stripped Gmina and Powiat value that is neither "" nor "nan" |
| PostProcessMergedColumns.AddGminaNames | pdf_extraction_process/post_process_merged_columns.py:28-33 | the Gmina loop adds exactly the Gmina names |
| PostProcessMergedColumns.AddPowiatNames | pdf_extraction_process/post_process_merged_columns.py:35-39 | the Powiat loop adds exactly the Powiat names |
| PostProcessMergedColumns.VocabularyNames | pdf_extraction_process/post_process_merged_columns.py:28-39 | every vocabulary entry is a stripped name other than "" and "nan" |
| PostProcessMergedColumns.LongestFirst | pdf_extraction_process/post_process_merged_columns.py:42 | the candidate list holds each known name once, in non-increasing length |
| PostProcessMergedColumns.Matches | pdf_extraction_process/post_process_merged_columns.py:66-78 | a matching name is a proper suffix of Numery |
| PostProcessMergedColumns.MatchesSuffix | pdf_extraction_process/post_process_merged_columns.py:66-78 | either rule matches exactly when the name ends Numery after a " ", ")" or "-"; Numery then keeps the stripped text before the name |
| PostProcessMergedColumns.FirstMatch | pdf_extraction_process/post_process_merged_columns.py:63-78 | a returned name is a candidate that matches |
| PostProcessMergedColumns.FirstMatchFound | pdf_extraction_process/post_process_merged_columns.py:63-78 | None means no candidate matches; otherwise the name is the earliest matching candidate |
| PostProcessMergedColumns.LongestMatchUnique | pdf_extraction_process/post_process_merged_columns.py:66-78 | two names of the same length that both end Numery are equal, so the longest match is unique |
| PostProcessMergedColumns.BestMatch | pdf_extraction_process/post_process_merged_columns.py:61-78 | None exactly when no known name matches; otherwise the longest matching name |
| PostProcessMergedColumns.FirstMatchIsBest | pdf_extraction_process/post_process_merged_columns.py:42-78 | trying names longest first and stopping at the first match finds the longest match, whatever order equal-length names come in |
| PostProcessMergedColumns.FindGmina | pdf_extraction_process/post_process_merged_columns.py:61-78 | the candidate loop returns the first match and, on a match, the stripped numbers part |
| PostProcessMergedColumns.FixOneRow | pdf_extraction_process/post_process_merged_columns.py:51-84 | only a row without Gmina and with Numery is examined; on a match its Gmina and Numery are replaced; `found` reports the match |
| PostProcessMergedColumns.FixTable | pdf_extraction_process/post_process_merged_columns.py:47-86 | the row loop fixes every row and counts the fixed ones |
| PostProcessMergedColumns.FixRowByAgrees | pdf_extraction_process/post_process_merged_columns.py:51-84 | with longest-first candidates the loop body fixes a row as the reference does and counts it exactly when it changes |
| PostProcessMergedColumns.FixRowsByAgrees | pdf_extraction_process/post_process_merged_columns.py:47-86 | the same over the whole table: the fixed table and the count match the reference |
| PostProcessMergedColumns.ExtractKnownGminaFromNumery | pdf_extraction_process/post_process_merged_columns.py:21-88 | the array is updated in place to the reference fix against its own vocabulary, and the count is the number of changed rows |
| PostProcessMergedColumns.FixRowChanges | pdf_extraction_process/post_process_merged_columns.py:53-83 | a row changes exactly when it is examined and some known name matches; then Gmina is the longest such name, Numery the stripped text before it, and nothing else changes |
| PostProcessMergedColumns.FixRowTwice | pdf_extraction_process/post_process_merged_columns.py:53 | a fixed row has a Gmina, so a second run skips it |
| PostProcessMergedColumns.FixKeepsGminaNames | pdf_extraction_process/post_process_merged_columns.py:28-39 | a fix only adds vocabulary names to the Gmina column, removes none, and leaves Powiat alone |
| PostProcessMergedColumns.VocabularyKept | pdf_extraction_process/post_process_merged_columns.py:28-39 | the fixed table has the same vocabulary as the original |
| PostProcessMergedColumns.FixAllIdempotent | pdf_extraction_process/post_process_merged_columns.py:21-88 | running the recovery on its own output changes nothing |
| PostProcessMergedColumns.CompoundNameFirst | pdf_extraction_process/post_process_merged_columns.py:41-42 | "Nowe Miasto" tried before "Miasto" wins; in the opposite order "Miasto" would |

## Left out

- Reading the PDF (pdfplumber `page.chars`/`extract_text`/`find_tables`, camelot `read_pdf`) and the page loops (`parse_pdf_to_csv`, `parse_full_pdf`, `analyze_page_rows`, `parse_pdf_with_columns`, `analyze_page_structure`, `show_page_tables`, `extract_with_bbox`): foreign library I/O. Their outputs (characters with positions, lines of text, tables of cell texts) are inputs of the model.
- CSV reading and writing, argparse and `sys.argv`, `print` output and statistics (including the `main` summaries of post_process_merged_columns.py:91-166), the `input()` prompts, and the JSON column configuration files: I/O.
- helper_pdf_table_explorer.py, iteractive.py and the scripts under pdf_extraction_process/scripts/: plotting and reporting scripts, not part of this model.
- Banker's rounding of `round(x0, 0)` and `round(y0, 1)`: positions reach InteractiveParser.AnalyzeColumnPositions already rounded, as integers.
- InteractiveParser.AnalyzeColumnPositions: the float threshold `count >= len(rows) * 0.3` is modelled exactly, as `10 * count >= 3 * len(rows)`.
- Unicode classes: `\s` is the six ASCII whitespace characters, `\d` the ASCII digits, and `\w` the ASCII letters, digits, `_` and the Polish letters.
- InteractiveParser.ManualBoundaries: `int(input())` raising on non-numeric text is not modelled; typed positions are integers.
- ColumnAwareParser.WordSpacingGaps: assumes every character has a non-empty text. An empty text would extend a word without adding characters.
- ProcessPostalCodes.StitchTables: `dropna(how="all")` after stitching is the identity, because every stitched cell is a string. The cells are plain strings, not Option.
- ProcessPostalCodes.StitchTables: pandas raising on `iloc[0]` of an empty stitch becomes the error NoHeaderRow.
- ProcessPostalCodes.ProcessMergedRows: works on a value (`seq<Row>`), which matches `df.copy()`. The NaN-wiped row is `Missing`. Reading a cell back through `str()`, which turns NaN into "nan", only happens on cells the merge skips.
- PostProcessMergedColumns.LongestFirst: the order among names of equal length depends on set iteration. It is modelled as an arbitrary choice, and FirstMatchIsBest shows the result does not depend on it.
- PostProcessMergedColumns.FixTable: writes only the rows that change. The source writes the same values, and leaves every other row untouched.
- ColumnAwareParser.ExtractRowData: the tolerance is the parameter `tol`; the default of 2.0 is the caller's choice and not a constant of the model.
- A missing column (pandas KeyError) is not modelled: rows always carry all seven fields.
- The region scan follows the code, not the intended compound-first reading. The single token is tested before the pair ending at it, so "kujawsko pomorskie" split over two tokens resolves to "pomorskie" (Vocabulary.ScanPrefersSingle, ColumnAwareParser.CombinedKujawsko).

## Findings

| source | as written | input that shows it | evidently intended | confidence | as-written member | corrected member |
|---|---|---|---|---|---|---|
| simple_column_parser.py:254 | the raw house-number pattern doubles every backslash, so its last alternative `\\(` opens a group that is never closed and `re.search` raises | the sample line "20-388 Abramowice Kościelne Głusk lubelski lubelskie": the middle span has two tokens and "Kościelne" is no street marker | single backslashes: digits then a comma or hyphen, a final digit, or an opening parenthesis mark house numbers, and the line gives Miejscowość "Abramowice Kościelne" | high (not executed) | SimpleColumnParser.AbramowiceRaises | SimpleColumnParser.AbramowiceIntended |
