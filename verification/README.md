# Waybill OCR text post-processing, modelled in Dafny

The repository reads waybill images with Tesseract and EasyOCR and looks for
the line that carries the waybill number, a line of the shape `…_1_…`. This
project models what happens to the engines' output, in two generations of the
pipeline:

- **First generation.**
  - `ocr_engine.py` filters Tesseract's column dictionary into
    `(text, confidence, box)` tuples and turns EasyOCR polygons into boxes.
    It fans out over the enabled engines, and `extract_all_text` merges
    their texts without case-insensitive duplicates. This is module
    `EngineOutput`.
  - `text_extraction.py` picks the target line through four matching tiers,
    builds the record of `extract_target_text`, and validates and cleans
    text. This is module `LegacyMatcher`.
- **Second generation.**
  - `src/ocr_engine.py` turns Tesseract's dictionary into line dictionaries
    (`OcrEngine.run`). This is module `TesseractRows`.
  - `src/text_extraction.py` normalises whitespace, searches
    `TARGET_REGEX`, keeps the highest-confidence matching line, and builds
    the per-image record. This is module `ConfidenceMatcher`.
- **Evaluation helpers.** `utils.py` holds plain and normalised accuracy.
  This is module `Accuracy`.
- **Shared modules.**
  - `PyStr` holds the parts of Python's `str` the code relies on: `isspace`,
    `strip`, `split()`, `' '.join`, `lower`, `in` and `replace`.
  - `Wrappers` holds `Option` and `Result`.
  - `RowIndices` holds `Increasing`, the shape of the row-index lists both
    Tesseract wrappers build.

Functions carry only the facts their own definitions need. What an operation
means is stated by the lemmas next to it, which relate it to a declarative
description. Examples:

- `Chosen` for the selected line.
- `Selects` for the tier that decides.
- `IsStripOf` for `strip()`.
- `DistinctLower` and `Seen` for the de-duplication.
- The five-digit window for the regular expression.

An exception the source raises and does not catch becomes a `Failure`. An
engine call that raised becomes `None`, which the wrappers turn into an empty
result, as the source's `except` clauses do.

## Model

| member | source | states |
|---|---|---|
| PyStr.StripSpec | text_extraction.py:14 | `strip()` keeps the input minus a leading and a trailing whitespace run, and starts and ends with a non-space |
| PyStr.StripIdempotent | src/ocr_engine.py:39 | stripping a stripped text changes nothing |
| PyStr.SplitWords | text_extraction.py:96 | every element of `split()` is a non-empty run without whitespace |
| PyStr.SplitJoin | text_extraction.py:96 | splitting words joined by one space gives back the words |
| PyStr.CollapseNormalized | text_extraction.py:96 | `' '.join(s.split())` has only single spaces between non-spaces, keeps the words of `s`, and is empty exactly for all-whitespace `s` |
| PyStr.CollapseIdempotent | text_extraction.py:96 | collapsing whitespace twice is collapsing it once |
| PyStr.SplitStrip | src/text_extraction.py:20 | stripping before `split()` does not change the words |
| PyStr.LowerShape | utils.py:54 | `lower()` leaves no upper-case letter, is the identity without one, and is idempotent |
| PyStr.LowerSpec | utils.py:54 | `lower()` keeps the length, turns each capital into its own small letter (by an alphabet table), and leaves every other character unchanged |
| PyStr.CollapseNoUpper | utils.py:54 | collapsing whitespace keeps a text free of upper-case letters |
| PyStr.ContainsLower | text_extraction.py:18 | an occurrence of the pattern survives lower-casing both sides |
| PyStr.MissingChar | text_extraction.py:13 | a pattern with a character the line lacks does not occur in it |
| PyStr.ReplaceCharSpec | text_extraction.py:23-25 | replacing `_` by a text without `_` leaves no `_`, and a text without `_` is unchanged |
| PyStr.ReplaceCharAppend | text_extraction.py:23-25 | every `_` becomes the replacement and every other character stays, in order: extending the text by one character extends the result by the replacement or by that character |
| LegacyMatcher.MatchesPatternLower | text_extraction.py:63 | `pattern in text or pattern.lower() in text.lower()` holds exactly when the lower-cased pattern occurs in the lower-cased text |
| LegacyMatcher.DefaultVariations | text_extraction.py:21-29 | for `_1_` the seven variations are `_1_`, `-1-`, ` 1 `, `1`, `_1`, `1_` and ` 1 `, in that order |
| LegacyMatcher.FirstMatch | text_extraction.py:12-15 | a tier's loop returns the first line matching that tier, and none exactly when no line does |
| LegacyMatcher.Select | text_extraction.py:12-41 | the deciding tier is the first one some line matches, with its first matching line; none exactly when no tier matches |
| LegacyMatcher.SelectsUnique | text_extraction.py:9-43 | at most one (tier, line) pair decides |
| LegacyMatcher.FindTargetLine | text_extraction.py:9-43 | no lines give `None`; `None` exactly when no tier matches; otherwise the stripped form of an input line |
| LegacyMatcher.TierDecides | text_extraction.py:9-43 | the deciding line's stripped text is the result |
| LegacyMatcher.ExactWins | text_extraction.py:12-15 | the first line containing the pattern wins, whatever later tiers would say |
| LegacyMatcher.CaseInsensitiveWins | text_extraction.py:16-20 | without an exact occurrence, the first case-insensitive occurrence wins |
| LegacyMatcher.DefaultLooseNeverDecides | text_extraction.py:36-41 | for the default pattern the regular-expression tier never decides, because the variation `1` already matches every line it would |
| LegacyMatcher.FindTargetLineAppend | text_extraction.py:73-81 | a target found in concatenated lines is the target of the first part or of the second part |
| LegacyMatcher.FirstHit | text_extraction.py:53-59 | the engine found, at or after the start index, passes the engine test (`HitOf(p)`: it has texts and a truthy target line) |
| LegacyMatcher.HitNeedsOnlyTarget | text_extraction.py:54-59 | an engine hits exactly when its lines give a non-empty target: the `if not texts` guard adds nothing, since no lines give `None` |
| LegacyMatcher.FirstHitSpec | text_extraction.py:53-59 | no earlier engine passes the test, and none is found exactly when no engine passes it |
| LegacyMatcher.FirstConfidence | text_extraction.py:62-65 | the confidence of the first detection matching the pattern, none exactly when none matches |
| LegacyMatcher.MatchingLines | text_extraction.py:66-68 | the collected lines are input lines that match the pattern, no more of them than input lines |
| LegacyMatcher.MatchingLinesAppend | text_extraction.py:66-68 | the collected lines keep input order and repeats: one more input line adds itself at the end exactly when it matches |
| LegacyMatcher.MatchingLinesComplete | text_extraction.py:66-68 | every matching input line is collected |
| LegacyMatcher.AllLinesFind | text_extraction.py:73-78 | a target found in all engines' lines together is the target of one engine's lines |
| LegacyMatcher.AllLinesAppend | text_extraction.py:74-76 | the combined lines are each engine's lines in dictionary order: combining two groups of engines concatenates their lines |
| LegacyMatcher.AllLinesMembers | text_extraction.py:74-76 | a line is among the combined lines exactly when some engine reported it |
| LegacyMatcher.CombinedFallbackNeverHits | text_extraction.py:73-81 | when no engine hit, the combined search yields nothing truthy, so `source_engine` is never `combined` |
| LegacyMatcher.ExtractTargetText | text_extraction.py:46-83 | target and engine are set together, the target is non-empty, and every collected line matches |
| LegacyMatcher.ExtractTargetTextFirstEngine | text_extraction.py:46-70 | a target exactly when some engine hits; then it comes from the first such engine; otherwise the record is empty |
| LegacyMatcher.ConfidenceNeedsPattern | text_extraction.py:62-65 | a confidence is reported only for a detection matching the pattern |
| LegacyMatcher.ValidateExtractedText | text_extraction.py:86-90 | valid exactly when the text is non-empty and contains the pattern ignoring case |
| LegacyMatcher.CleanExtractedText | text_extraction.py:93-97 | the result equals `' '.join(text.split())`: the early return and the final `strip()` change nothing |
| LegacyMatcher.CleanShape | text_extraction.py:93-97 | empty text stays empty; the result is whitespace-normalised and keeps the words |
| LegacyMatcher.CleanIdempotent | text_extraction.py:93-97 | cleaning twice is cleaning once |
| LegacyMatcher.ExactExample | text_extraction.py:12-15 | of `["no match", " 9_1_A "]` the target is `9_1_A` |
| LegacyMatcher.VariantExample | text_extraction.py:21-35 | `12345-1-AB` is found through the variation `-1-` |
| EngineOutput.KeptIndicesShape | ocr_engine.py:47-51 | the kept rows are exactly the rows with non-empty stripped text and positive confidence, in increasing order |
| EngineOutput.KeptIndicesSound | ocr_engine.py:47-51 | every listed row is kept, in increasing order |
| EngineOutput.KeptIndicesComplete | ocr_engine.py:47-51 | every kept row is listed |
| EngineOutput.TessScan | ocr_engine.py:47-53 | the loop completes exactly when every row's confidence exists and every kept row has its box columns |
| EngineOutput.TessScanRows | ocr_engine.py:47-53 | the loop's tuples are, in order, those of the kept rows |
| EngineOutput.ExtractTextTesseract | ocr_engine.py:29-59 | an engine error or a loop that raises gives an empty list |
| EngineOutput.TesseractKeptRows | ocr_engine.py:44-55 | on well-formed columns, each tuple has the stripped non-empty text, positive confidence and box of its own kept row, and every kept row is there |
| EngineOutput.MinOf | ocr_engine.py:81-82 | the minimum is a lower bound attained by a coordinate |
| EngineOutput.MaxOf | ocr_engine.py:83-84 | the maximum is an upper bound attained by a coordinate |
| EngineOutput.BoundingBox | ocr_engine.py:80-84 | an empty polygon has no box; otherwise width and height are non-negative and every vertex is inside |
| EngineOutput.BoundingBoxTight | ocr_engine.py:81-84 | every side of the box touches a vertex |
| EngineOutput.EasyocrRows | ocr_engine.py:76-88 | each tuple has the stripped text and the confidence of its own result, and its box is that result's polygon's bounding box, which holds every vertex |
| EngineOutput.KeyIndex | ocr_engine.py:150-153 | the position of a key, and none exactly when it is absent |
| EngineOutput.CombinedKeys | ocr_engine.py:107-125 | a key exactly for each enabled engine, `tesseract` before `easyocr`, each holding its wrapper's result |
| EngineOutput.Dedup | ocr_engine.py:156-161 | no more entries than the input, each one an input text |
| EngineOutput.DedupDistinct | ocr_engine.py:156-161 | no two entries are equal after lower-casing |
| EngineOutput.DedupCovers | ocr_engine.py:156-161 | every input text is represented ignoring case |
| EngineOutput.DedupFirstOccurrences | ocr_engine.py:156-161 | each entry is the first input text of its lower-cased form |
| EngineOutput.FirstIndicesShape | ocr_engine.py:156-161 | the reference index list holds exactly the first-occurrence positions, increasing |
| EngineOutput.DedupInOrder | ocr_engine.py:156-161 | the de-duplicated list is, in input order, the texts at the first occurrences of each lower-cased form |
| EngineOutput.DedupPrefix | ocr_engine.py:149-161 | de-duplicating a concatenation extends the de-duplication of its first part with texts of the second |
| EngineOutput.ExtractAllTextCombined | ocr_engine.py:145-163 | the combined texts are distinct ignoring case, cover both engines' texts, and start with Tesseract's |
| TesseractRows.RowLine | src/ocr_engine.py:39-48 | a line carries the stripped text, the coerced confidence and the `line_num` and `block_num` entries of its own row, `None` for a missing column |
| TesseractRows.RunRows | src/ocr_engine.py:36-50 | the loop succeeds exactly when no row raises, with at most one line per row |
| TesseractRows.RunRowsFailure | src/ocr_engine.py:38-48 | a failure is the error of the first row that raises |
| TesseractRows.Run | src/ocr_engine.py:36-50 | `run` succeeds exactly when no row raises, and a failure is the error of the first row that raises |
| TesseractRows.RunConfError | src/ocr_engine.py:40 | a `ValueError` from the confidence conversion names a row whose cell is text `float()` cannot parse; `""`, `"-1"` and numbers never raise |
| TesseractRows.RunRowsLines | src/ocr_engine.py:38-49 | the loop from any row on returns, in order, the line of each later row with text, built from that row's own cells |
| TesseractRows.TextRows | src/ocr_engine.py:39-42 | at most one index per row |
| TesseractRows.TextRowsShape | src/ocr_engine.py:39-42 | the rows that yield lines are exactly those with non-empty stripped text, in increasing order |
| TesseractRows.RunLines | src/ocr_engine.py:36-50 | a successful run, in either lookup mode, yields in row order the line of each row with text, each with non-empty text and a confidence |
| TesseractRows.AsWrittenAgreesWithColumns | src/ocr_engine.py:46-47 | with both columns present the code as written and the intended reading agree |
| TesseractRows.IntendedWithoutColumns | src/ocr_engine.py:46-47 | without the columns every line gets `None` for both numbers |
| TesseractRows.MissingLineNumCounterexample | src/ocr_engine.py:46-47 | two text rows and no `line_num`: as written the run raises at row 1, intended it returns both lines |
| TesseractRows.AsWrittenMissingColumnRaises | src/ocr_engine.py:46 | as written, without `line_num` the run raises whenever a row after the first has text |
| ConfidenceMatcher.NormalizeText | src/text_extraction.py:19-20 | the result is empty exactly for all-whitespace input |
| ConfidenceMatcher.NormalizeShape | src/text_extraction.py:19-20 | the result is whitespace-normalised and keeps the words of the input |
| ConfidenceMatcher.NormalizeIdempotent | src/text_extraction.py:19-20 | normalising twice is normalising once |
| ConfidenceMatcher.NormalizeCollapse | src/text_extraction.py:20 | the `strip()` before `split()` changes nothing |
| ConfidenceMatcher.NormalizeWord | src/text_extraction.py:19-20 | a single word is its own normal form |
| ConfidenceMatcher.NormalizeTwoWords | src/text_extraction.py:19-20 | two words amid any whitespace normalise to the words joined by one space |
| ConfidenceMatcher.NormalizeExample | tests/test_text_extraction.py:4-5 | `"  hello   world  "` normalises to `"hello world"` |
| ConfidenceMatcher.SearchTargetWindow | src/text_extraction.py:16 | `[0-9]{5,}[_-]?1[_A-Za-z0-9]*` is found exactly when five digits are followed by `1`, directly or after `_` or `-` |
| ConfidenceMatcher.ScanTarget | src/text_extraction.py:16 | a single left-to-right pass decides the regular-expression search |
| ConfidenceMatcher.BestChosen | src/text_extraction.py:23-30 | the loop keeps nothing exactly when no line matches, and otherwise the first line of highest confidence among the matching ones |
| ConfidenceMatcher.ChosenUnique | src/text_extraction.py:25-29 | at most one line is the chosen one |
| ConfidenceMatcher.FindTargetLineSpec | src/text_extraction.py:23-30 | `None` exactly when no line matches; otherwise the chosen line with normalised, matching text |
| ConfidenceMatcher.ChosenDecides | src/text_extraction.py:23-30 | the chosen line, normalised, is the result |
| ConfidenceMatcher.ThreeLinesChosen | src/text_extraction.py:28 | for three lines whose first does not match, of two matching lines the earlier one with the higher confidence is kept, the shape of the repository test |
| ConfidenceMatcher.FindTargetLineExample | tests/test_text_extraction.py:8-17 | of the test's three lines, the waybill line with confidence 50 is returned |
| ConfidenceMatcher.ShortDigitsExample | tests/test_text_extraction.py:10 | `foo 1234` is no target |
| ConfidenceMatcher.WaybillExample | tests/test_text_extraction.py:11 | `163233702292313922_1_lWV` is normal and matches |
| ConfidenceMatcher.ExtractRecordTarget | src/text_extraction.py:40-45 | a target exactly when some line matches, matching the expression; no target means no confidence |
| ConfidenceMatcher.ExtractFromImageData | src/text_extraction.py:33-46 | a record exactly when no row of the `run` loop raises; otherwise the error of the first row that raises |
| ConfidenceMatcher.ExtractFromImageDataConfidence | src/text_extraction.py:39-44 | after a successful run, target and confidence are present together, and the confidence is the highest among the matching lines |
| ConfidenceMatcher.ExtractFromImageDataLines | src/text_extraction.py:39-45 | the record keeps the image, and its `lines` are the normalised texts of the rows with text, in row order |
| ConfidenceMatcher.ExtractWithoutLineNumRaises | src/text_extraction.py:39 | as written, without `line_num` the extraction raises whenever a row after the first has text |
| Accuracy.CountEqual | utils.py:47 | the count never exceeds the length |
| Accuracy.CountEqualAppend | utils.py:47 | one more pair of entries adds one to the count exactly when the two agree |
| Accuracy.CountEqualAll | utils.py:47 | every position counts exactly when the lists agree everywhere |
| Accuracy.CountEqualNone | utils.py:47 | no position counts exactly when the lists differ everywhere |
| Accuracy.CountEqualMono | utils.py:65 | lists that agree wherever others agree count at least as many positions |
| Accuracy.CalculateAccuracy | utils.py:42-48 | between 0 and 1; 0 for different lengths or empty lists; otherwise the count over the length |
| Accuracy.AccuracyBounds | utils.py:42-48 | 1 exactly for equal non-empty lists; 0 exactly for different lengths or no agreeing position |
| Accuracy.NormalizeTextGuard | utils.py:52-54 | the early return agrees with the general branch |
| Accuracy.NormalizeTextShape | utils.py:51-54 | no upper-case letter, whitespace-normalised, the lower-cased words kept |
| Accuracy.NormalizeTextIdempotent | utils.py:51-54 | normalising twice is normalising once |
| Accuracy.NormalizeTextEqual | utils.py:51-54 | two texts normalise alike exactly when their lower-cased words agree |
| Accuracy.CalculateAccuracyNormalized | utils.py:57-66 | between 0 and 1, and 0 for different lengths or empty lists |
| Accuracy.NormalizedNotLower | utils.py:42-66 | the normalised accuracy is never below the plain one |
| Accuracy.NormalizedOnNormalForms | utils.py:57-66 | on texts already normal both accuracies agree |

## Left out

- The OCR engines, image loading and preprocessing are not modelled, and neither are JSON files, logging, the Streamlit app, `batch_extract` and `main`. Their results are parameters: Tesseract's dictionary, EasyOCR's result list, or `None` for a call that raised.
- `OcrEngine.__init__` setting `tesseract_cmd` and the `--oem/--psm` configuration string are not modelled, because they are side effects on the engine call. `OcrConfig` and its defaults are kept as data.
- The `cv2 is None` checks that raise `ImportError` are not modelled, because they depend on the installed environment.
- `PyStr.Lower` maps only ASCII letters. Python's `lower()` uses full Unicode case mapping, which is out of scope.
- `EngineOutput.TessData` holds the `conf` column after `int()`. The `ValueError` that `int()` raises on text such as `"95.5"` is not modelled; the `except` clause would turn it into an empty list.
- `EngineOutput.EasyDetections` takes the confidence as the already computed `int(confidence * 100)` and the coordinates as integers, because the model has no floating point. `int()` truncation of fractional coordinates is not modelled.
- `TesseractRows.CoerceConf` and `ConfidenceMatcher.ConfOf` use `real` for Python floats, without rounding.
- Accuracy.CalculateAccuracy: models `correct / len(predictions)` as exact division on `real`, so its `r * |p| == count` holds exactly; with IEEE doubles the quotient is rounded (`(1/49)*49` is `0.9999999999999999`), which the model does not represent.
- ConfidenceMatcher.ExtractFromImageData: takes the column-lookup mode as a parameter. `AsWritten` is the code as it stands and `Intended` is the corrected lookup from "## Findings"; the lemmas about the record hold for both.
- `TesseractRows.OcrLine` does not model a `conf` key present with the value `None`. `run` never produces one.
- `LegacyMatcher.MatchesTier` models the fourth tier's expression `[\d\w]*[_\s-]?1[_\s-]?[\d\w]*` as "the line contains `1`". This is the only character the expression requires, so `re.findall` returns a non-empty list exactly then.
- `ConfidenceMatcher.SearchTarget` models `TARGET_REGEX` as a predicate over the string rather than running a regular-expression engine. The trailing `[_A-Za-z0-9]*` matches the empty string, so it adds no condition.
- `LegacyMatcher.ExtractTargetText` takes `ocr_results` as an ordered list of engine entries, in the dictionary's insertion order.

## Findings

| source | as written | input that shows it | evidently intended | confidence | as-written member | corrected member |
|---|---|---|---|---|---|---|
| src/ocr_engine.py:46-47 | `data.get("line_num", [None])[i]` indexes a one-element default list, so it raises `IndexError` for every row after the first when the key is missing | `{"text": ["a", "b"], "conf": [90, 80]}` with no `line_num` or `block_num` key | `None` for every row when the key is missing | high; not executed | TesseractRows.MissingLineNumCounterexample | TesseractRows.IntendedWithoutColumns |
