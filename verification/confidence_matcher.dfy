/** The second-generation target-line matcher (src/text_extraction.py):
    whitespace normalisation, the waybill regular expression `TARGET_REGEX`,
    the choice of the highest-confidence matching line, and the record built
    for one image. */
module ConfidenceMatcher {
  import opened Wrappers
  import opened PyStr
  import opened TesseractRows

  /** `normalize_text`: `" ".join(text.strip().split())`. */
  function NormalizeText(s: string): (r: string)
    ensures |r| == 0 <==> AllSpace(s)
  {
    SplitStrip(s);
    SplitEmpty(s);
    SplitWords(s);
    JoinShape(Split(s));
    Join(Split(Strip(s)))
  }

  /** The result has no whitespace but single spaces between words and keeps
      the words of the input, in order. */
  lemma NormalizeShape(s: string)
    ensures IsNormalized(NormalizeText(s))
    ensures Split(NormalizeText(s)) == Split(s)
  {
    SplitStrip(s);
    CollapseNormalized(Strip(s));
  }

  /** Normalising twice is normalising once. */
  lemma NormalizeIdempotent(s: string)
    ensures NormalizeText(NormalizeText(s)) == NormalizeText(s)
  {
    var r := NormalizeText(s);
    NormalizeShape(s);
    SplitStrip(r);
    SplitStrip(s);
  }

  /** A single word is its own normal form. */
  lemma NormalizeWord(w: string)
    requires IsWord(w)
    ensures NormalizeText(w) == w
  {
    StripOfTrimmed(w);
    SplitOneWord(w);
    NormalizeCollapse(w);
  }

  /** Stripping first changes nothing: `split()` already ignores the
      whitespace at both ends. */
  lemma NormalizeCollapse(s: string)
    ensures NormalizeText(s) == Join(Split(s))
  {
    SplitStrip(s);
  }

  /** Two words with whitespace of any kind and length around and between
      them normalise to the words joined by one space. */
  lemma NormalizeTwoWords(p: string, a: string, m: string, b: string, q: string)
    requires AllSpace(p) && AllSpace(m) && AllSpace(q) && |m| > 0
    requires IsWord(a) && IsWord(b)
    ensures NormalizeText(p + a + m + b + q) == a + " " + b
  {
    var s := p + a + m + b + q;
    assert s == p + (a + m + (b + q));
    SplitLeadingSpaces(p, a + m + (b + q));
    assert Split(s) == Split(a + m + (b + q));
    SplitWordThenSpaces(a, m, b + q);
    SplitAppendSpaces(b, q);
    SplitOneWord(b);
    assert Split(b + q) == [b];
    assert Split(s) == [a, b];
    NormalizeCollapse(s);
    assert Join([a, b]) == a + " " + b;
  }

  /** The repository's own test case. */
  lemma NormalizeExample()
    ensures NormalizeText("  hello   world  ") == "hello world"
  {
    HelloPieces();
    HelloNormalPieces();
  }

  lemma HelloPieces()
    ensures "  hello   world  " == "  " + "hello" + "   " + "world" + "  "
  {
  }

  lemma HelloNormalPieces()
    ensures NormalizeText("  " + "hello" + "   " + "world" + "  ") == "hello world"
  {
    assert IsWord("hello") && IsWord("world");
    NormalizeTwoWords("  ", "hello", "   ", "world", "  ");
  }

  // ---------------------------------------------------------------------
  // TARGET_REGEX = [0-9]{5,}[_-]?1[_A-Za-z0-9]*

  predicate IsDigit(c: char) {
    '0' <= c <= '9'
  }

  /** `s[i..k]` consists of ASCII digits. */
  predicate DigitRun(s: string, i: nat, k: nat) {
    i <= k <= |s| && forall j | i <= j < k :: IsDigit(s[j])
  }

  /** After the digits, at index `k`: `1`, or `_` or `-` followed by `1`.
      The trailing `[_A-Za-z0-9]*` may match nothing, so it adds no
      condition. */
  predicate OneAfter(s: string, k: nat) {
    || (k < |s| && s[k] == '1')
    || (k + 1 < |s| && (s[k] == '_' || s[k] == '-') && s[k + 1] == '1')
  }

  /** The regular expression matches at index `i`: five or more digits from
      `i` on, then a `1` after an optional separator. */
  predicate MatchesAt(s: string, i: nat) {
    exists k | i + 5 <= k <= |s| :: DigitRun(s, i, k) && OneAfter(s, k)
  }

  /** `TARGET_REGEX.search(s)` finds a match. */
  predicate SearchTarget(s: string) {
    exists i | 0 <= i < |s| :: MatchesAt(s, i)
  }

  /** The class `[_A-Za-z0-9]` of the pattern's tail. */
  predicate IsWordChar(c: char) {
    c == '_' || IsDigit(c) || ('A' <= c <= 'Z') || ('a' <= c <= 'z')
  }

  /** A non-empty run of pattern word characters is a single word for
      `split()`. */
  lemma WordCharsNoSpace(s: string)
    requires |s| > 0 && forall i | 0 <= i < |s| :: IsWordChar(s[i])
    ensures IsWord(s)
  {
  }

  /** Exactly five digits end at `k`, followed by the `1`. */
  predicate Window(s: string, k: nat) {
    5 <= k && DigitRun(s, k - 5, k) && OneAfter(s, k)
  }

  /** A search succeeds exactly when some five-digit window is followed by
      the `1`: the longer digit runs the regular expression allows add
      nothing. */
  lemma SearchTargetWindow(s: string)
    ensures SearchTarget(s) <==> exists k | 5 <= k <= |s| :: Window(s, k)
  {
    if SearchTarget(s) {
      var i :| 0 <= i < |s| && MatchesAt(s, i);
      var k :| i + 5 <= k <= |s| && DigitRun(s, i, k) && OneAfter(s, k);
      assert Window(s, k);
    }
    if exists k | 5 <= k <= |s| :: Window(s, k) {
      var k :| 5 <= k <= |s| && Window(s, k);
      assert k - 5 < |s| by { assert k < |s|; }
      assert MatchesAt(s, k - 5);
    }
  }

  /** A single left-to-right pass deciding `TARGET_REGEX.search`, counting
      the digits that end at the current position. */
  method ScanTarget(s: string) returns (found: bool)
    ensures found <==> SearchTarget(s)
  {
    found := false;
    var run := 0;
    var k := 0;
    while k < |s|
      invariant 0 <= k <= |s|
      invariant 0 <= run <= k && DigitRun(s, k - run, k)
      invariant k - run > 0 ==> !IsDigit(s[k - run - 1])
      invariant found <==> exists j | 5 <= j < k :: Window(s, j)
    {
      WindowFromRun(s, k, run);
      found := found || (run >= 5 && OneAfter(s, k));
      run := if IsDigit(s[k]) then run + 1 else 0;
      k := k + 1;
    }
    WindowFromRun(s, k, run);
    assert !OneAfter(s, |s|);
    SearchTargetWindow(s);
  }

  /** With `run` digits, and no more, ending at `k`, a five-digit window ends
      at `k` exactly when `run` is at least five. */
  lemma WindowFromRun(s: string, k: nat, run: nat)
    requires run <= k <= |s| && DigitRun(s, k - run, k)
    requires k - run > 0 ==> !IsDigit(s[k - run - 1])
    ensures Window(s, k) <==> run >= 5 && OneAfter(s, k)
  {
  }

  // ---------------------------------------------------------------------
  // find_target_line

  /** `line.get("conf", 0)`. */
  function ConfOf(l: OcrLine): real {
    l.conf.GetOr(0.0)
  }

  /** The normalised text of the line matches `TARGET_REGEX`. */
  predicate IsTarget(l: OcrLine) {
    SearchTarget(NormalizeText(l.text))
  }

  /** Line `i` is the one `find_target_line` keeps among the lines that
      satisfy `matches`: it matches, no matching line has a higher
      confidence, and every earlier matching line has a strictly lower one. */
  predicate Chosen(lines: seq<OcrLine>, i: nat, matches: OcrLine -> bool) {
    && i < |lines|
    && matches(lines[i])
    && (forall j | 0 <= j < |lines| && matches(lines[j]) :: ConfOf(lines[j]) <= ConfOf(lines[i]))
    && (forall j | 0 <= j < i && matches(lines[j]) :: ConfOf(lines[j]) < ConfOf(lines[i]))
  }

  /** The loop of `find_target_line`, as the index of `best_match` after the
      lines seen so far: a later line replaces it only with a strictly
      greater confidence. */
  function Best(lines: seq<OcrLine>, matches: OcrLine -> bool): (r: Option<nat>)
    ensures r.Some? ==> r.value < |lines|
    decreases |lines|
  {
    if |lines| == 0 then None
    else
      var front := lines[..|lines| - 1];
      var l := lines[|lines| - 1];
      var prev := Best(front, matches);
      if matches(l) && (prev.None? || ConfOf(l) > ConfOf(front[prev.value])) then Some(|lines| - 1)
      else prev
  }

  /** The loop keeps nothing exactly when no line matches, and otherwise
      keeps the chosen line. */
  lemma {:induction false} BestChosen(lines: seq<OcrLine>, matches: OcrLine -> bool)
    ensures Best(lines, matches).None? <==> forall j | 0 <= j < |lines| :: !matches(lines[j])
    ensures Best(lines, matches).Some? ==> Chosen(lines, Best(lines, matches).value, matches)
    decreases |lines|
  {
    if |lines| > 0 {
      var front := lines[..|lines| - 1];
      BestChosen(front, matches);
      assert forall j | 0 <= j < |front| :: lines[j] == front[j];
    }
  }

  /** At most one line is the one kept. */
  lemma ChosenUnique(lines: seq<OcrLine>, i: nat, i': nat, matches: OcrLine -> bool)
    requires Chosen(lines, i, matches) && Chosen(lines, i', matches)
    ensures i == i'
  {
  }

  /** The kept line as `find_target_line` returns it: the input line with
      its text normalised. */
  function Normalized(l: OcrLine): (r: OcrLine)
    ensures r.conf == l.conf && r.lineNum == l.lineNum && r.blockNum == l.blockNum
  {
    l.(text := NormalizeText(l.text))
  }

  /** `find_target_line`. */
  function FindTargetLine(lines: seq<OcrLine>): (r: Option<OcrLine>)
    ensures r.Some? <==> Best(lines, IsTarget).Some?
    ensures r.Some? ==> r.value.conf == lines[Best(lines, IsTarget).value].conf
  {
    match Best(lines, IsTarget)
    case None => None
    case Some(i) => Some(Normalized(lines[i]))
  }

  /** No line is returned exactly when none matches; otherwise the returned
      line is the chosen one, normalised, and its text matches. */
  lemma FindTargetLineSpec(lines: seq<OcrLine>)
    ensures var r := FindTargetLine(lines);
      && (r.None? <==> forall j | 0 <= j < |lines| :: !IsTarget(lines[j]))
      && (r.Some? ==> SearchTarget(r.value.text) && IsNormalized(r.value.text))
      && (r.Some? ==> exists i | 0 <= i < |lines| :: Chosen(lines, i, IsTarget) && r.value == Normalized(lines[i]))
  {
    BestChosen(lines, IsTarget);
    if Best(lines, IsTarget).Some? {
      NormalizeShape(lines[Best(lines, IsTarget).value].text);
    }
  }

  /** The declarative choice decides the result. */
  lemma ChosenDecides(lines: seq<OcrLine>, i: nat)
    requires Chosen(lines, i, IsTarget)
    ensures FindTargetLine(lines) == Some(Normalized(lines[i]))
  {
    BestChosen(lines, IsTarget);
    ChosenUnique(lines, i, Best(lines, IsTarget).value, IsTarget);
  }

  /** The repository's test: of two equal matching lines the one with the
      higher confidence is kept, and a line with four digits is not a
      target. */
  lemma FindTargetLineExample()
    ensures var w := "163233702292313922_1_lWV";
      FindTargetLine([
        OcrLine("foo 1234", Some(10.0), None, None),
        OcrLine(w, Some(50.0), None, None),
        OcrLine(w, Some(40.0), None, None)])
      == Some(OcrLine(w, Some(50.0), None, None))
  {
    var w := "163233702292313922_1_lWV";
    var lines := [
        OcrLine("foo 1234", Some(10.0), None, None),
        OcrLine(w, Some(50.0), None, None),
        OcrLine(w, Some(40.0), None, None)];
    ShortDigitsExample();
    WaybillExample();
    assert !IsTarget(lines[0]);
    assert IsTarget(lines[1]) && IsTarget(lines[2]);
    ThreeLinesChosen(lines, IsTarget);
    ChosenDecides(lines, 1);
  }

  /** Of three lines where the last two match, the first of those wins when
      its confidence is higher. */
  lemma ThreeLinesChosen(lines: seq<OcrLine>, matches: OcrLine -> bool)
    requires |lines| == 3 && !matches(lines[0]) && matches(lines[1]) && matches(lines[2])
    requires ConfOf(lines[2]) < ConfOf(lines[1])
    ensures Chosen(lines, 1, matches)
  {
  }

  /** A line with only four digits is no target. */
  lemma ShortDigitsExample()
    ensures !SearchTarget(NormalizeText("foo 1234"))
  {
    FooNormal();
    NoWindowFoo("foo 1234");
  }

  lemma NoWindowFoo(s: string)
    requires s == "foo 1234"
    ensures !SearchTarget(s)
  {
    SearchTargetWindow(s);
    forall k | 5 <= k <= |s|
      ensures !Window(s, k)
    {
      assert !IsDigit(s[k - 5]);
    }
  }

  lemma FooNormal()
    ensures NormalizeText("foo 1234") == "foo 1234"
  {
    assert "foo 1234" == "foo" + " " + "1234";
    assert IsWord("foo") && IsWord("1234");
    NormalizeWordPair("foo", "1234");
  }

  /** Two words joined by one space are already normal. */
  lemma NormalizeWordPair(a: string, b: string)
    requires IsWord(a) && IsWord(b)
    ensures NormalizeText(a + " " + b) == a + " " + b
  {
    assert "" + a + " " + b + "" == a + " " + b;
    NormalizeTwoWords("", a, " ", b, "");
  }

  /** The waybill number of the repository's test is a single word that
      matches. */
  lemma WaybillExample()
    ensures NormalizeText("163233702292313922_1_lWV") == "163233702292313922_1_lWV"
    ensures SearchTarget("163233702292313922_1_lWV")
  {
    WaybillWord("163233702292313922_1_lWV");
    WaybillMatches("163233702292313922_1_lWV");
  }

  lemma WaybillWord(w: string)
    requires w == "163233702292313922_1_lWV"
    ensures NormalizeText(w) == w
  {
    assert forall i | 0 <= i < |w| :: IsWordChar(w[i]);
    WordCharsNoSpace(w);
    NormalizeWord(w);
  }

  lemma WaybillMatches(w: string)
    requires w == "163233702292313922_1_lWV"
    ensures SearchTarget(w)
  {
    assert Window(w, 18);
    SearchTargetWindow(w);
  }

  // ---------------------------------------------------------------------
  // extract_from_image_path

  /** The record built for one image. */
  datatype ImageRecord = ImageRecord(
    image: string,
    targetText: Option<string>,
    confidence: Option<real>,
    lines: seq<string>)

  /** The part of `extract_from_image_path` after the OCR run. */
  function ExtractRecord(image: string, ocrLines: seq<OcrLine>): (r: ImageRecord)
    ensures r.image == image
    ensures |r.lines| == |ocrLines|
    ensures forall k | 0 <= k < |ocrLines| :: r.lines[k] == NormalizeText(ocrLines[k].text)
  {
    var target := FindTargetLine(ocrLines);
    ImageRecord(
      image,
      if target.Some? then Some(target.value.text) else None,
      if target.Some? then target.value.conf else None,
      seq(|ocrLines|, k requires 0 <= k < |ocrLines| => NormalizeText(ocrLines[k].text)))
  }

  /** The record names a target exactly when some line matches, the target
      matches the regular expression, and without a target there is no
      confidence. */
  lemma ExtractRecordTarget(image: string, ocrLines: seq<OcrLine>)
    ensures var r := ExtractRecord(image, ocrLines);
      && (r.targetText.None? <==> forall j | 0 <= j < |ocrLines| :: !IsTarget(ocrLines[j]))
      && (r.targetText.None? ==> r.confidence.None?)
      && (r.targetText.Some? ==> SearchTarget(r.targetText.value))
  {
    FindTargetLineSpec(ocrLines);
  }

  /** `extract_from_image_path` on the dictionary Tesseract returned for the
      image: the record of the lines `OcrEngine.run` yields, or the error of
      the first row at which it raises. With `mode == AsWritten` this is the
      code as it stands. */
  function ExtractFromImageData(image: string, d: ImageData, mode: LookupMode): (r: Result<ImageRecord, RunError>)
    ensures r.Success? <==> forall j | 0 <= j < |d.text| :: !RowFails(d, j, mode)
    ensures r.Failure? ==> exists j | 0 <= j < |d.text| :: FirstFailure(d, 0, j, mode) && r.error == RowError(d, j, mode)
  {
    match Run(d, mode)
    case Failure(e) => Failure(e)
    case Success(ls) => Success(ExtractRecord(image, ls))
  }

  /** Every line `run` yields carries a confidence, so in the record the
      target text and the confidence are absent together, and the
      confidence is the greatest among the matching lines. */
  lemma ExtractFromImageDataConfidence(image: string, d: ImageData, mode: LookupMode)
    requires Run(d, mode).Success?
    ensures var r := ExtractFromImageData(image, d, mode).value; var ls := Run(d, mode).value;
      && (r.targetText.None? <==> r.confidence.None?)
      && (r.confidence.Some? ==> forall j | 0 <= j < |ls| && IsTarget(ls[j]) :: ConfOf(ls[j]) <= r.confidence.value)
  {
    var ls := Run(d, mode).value;
    RunLines(d, mode);
    BestChosen(ls, IsTarget);
    ExtractRecordTarget(image, ls);
  }

  /** As written, a dictionary without `line_num` makes the whole
      extraction raise once a row after the first has text. */
  lemma ExtractWithoutLineNumRaises(image: string, d: ImageData, j: nat)
    requires d.lineNum.None? && 1 <= j < |d.text| && HasText(d, j)
    ensures ExtractFromImageData(image, d, AsWritten).Failure?
  {
    AsWrittenMissingColumnRaises(d, j);
  }

  /** The record's `lines` are the normalised texts of the rows with text,
      in row order: normalising drops the strip `run` applied. */
  lemma ExtractFromImageDataLines(image: string, d: ImageData, mode: LookupMode)
    requires Run(d, mode).Success?
    ensures var r := ExtractFromImageData(image, d, mode).value; var idx := TextRows(d, 0);
      && r.image == image
      && |r.lines| == |idx|
      && forall k | 0 <= k < |idx| :: idx[k] < |d.text| && r.lines[k] == NormalizeText(d.text[idx[k]])
  {
    var ls := Run(d, mode).value;
    var idx := TextRows(d, 0);
    RunLines(d, mode);
    var r := ExtractFromImageData(image, d, mode).value;
    assert r == ExtractRecord(image, ls);
    forall k | 0 <= k < |idx|
      ensures r.lines[k] == NormalizeText(d.text[idx[k]])
    {
      var t := d.text[idx[k]];
      assert ls[k].text == Strip(t);
      StripIdempotent(t);
      NormalizeStripped(t);
    }
  }

  /** Normalising a stripped text gives what normalising the text gives. */
  lemma NormalizeStripped(t: string)
    ensures NormalizeText(Strip(t)) == NormalizeText(t)
  {
    StripIdempotent(t);
  }
}
