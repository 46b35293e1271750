/** The first-generation target-line matcher (text_extraction.py): a
    four-tier search for the line carrying a waybill pattern, its use over
    the engines of one OCR run, and the small validation and cleaning
    helpers next to it. */
module LegacyMatcher {
  import opened Wrappers
  import opened PyStr
  import opened EngineOutput

  /** The pattern every caller passes. */
  const DefaultPattern: string := "_1_"

  /** `p in s or p.lower() in s.lower()`. */
  predicate MatchesPattern(s: string, p: string) {
    Contains(s, p) || Contains(Lower(s), Lower(p))
  }

  /** The verbatim test adds nothing to the case-insensitive one. */
  lemma MatchesPatternLower(s: string, p: string)
    ensures MatchesPattern(s, p) <==> Contains(Lower(s), Lower(p))
  {
    if Contains(s, p) {
      ContainsLower(s, p);
    }
  }

  /** The seven strings the third tier looks for. */
  function Variations(p: string): (vs: seq<string>)
    ensures |vs| == 7 && vs[0] == p
  {
    [ p,
      ReplaceChar(p, '_', "-"),
      ReplaceChar(p, '_', " "),
      ReplaceChar(p, '_', ""),
      "_1",
      "1_",
      " 1 " ]
  }

  /** The tiers, tried in this order. */
  datatype Tier = Exact | CaseInsensitive | Variant | Loose

  function Rank(t: Tier): nat {
    match t
    case Exact => 0
    case CaseInsensitive => 1
    case Variant => 2
    case Loose => 3
  }

  /** Whether a line passes a tier. The last tier's regular expression
      `[\d\w]*[_\s-]?1[_\s-]?[\d\w]*` has optional parts only around its
      literal `1`, so `re.findall` finds a match exactly when the line
      contains the character `1`. */
  predicate MatchesTier(t: Tier, line: string, p: string) {
    match t
    case Exact => Contains(line, p)
    case CaseInsensitive => Contains(Lower(line), Lower(p))
    case Variant => exists k | 0 <= k < |Variations(p)| :: MatchesPattern(line, Variations(p)[k])
    case Loose => '1' in line
  }

  /** The index of the first line from `i` on that passes tier `t`. */
  function FirstMatch(lines: seq<string>, t: Tier, p: string, i: nat): (r: Option<nat>)
    requires i <= |lines|
    ensures r.Some? ==> i <= r.value < |lines| && MatchesTier(t, lines[r.value], p)
    ensures r.Some? ==> forall j | i <= j < r.value :: !MatchesTier(t, lines[j], p)
    ensures r.None? <==> forall j | i <= j < |lines| :: !MatchesTier(t, lines[j], p)
    decreases |lines| - i
  {
    if i == |lines| then None
    else if MatchesTier(t, lines[i], p) then Some(i)
    else FirstMatch(lines, t, p, i + 1)
  }

  /** No line passes tier `t`. */
  predicate NoneMatch(lines: seq<string>, t: Tier, p: string) {
    forall j | 0 <= j < |lines| :: !MatchesTier(t, lines[j], p)
  }

  /** Tier `t` decides at line `i`: no line passes an earlier tier and `i` is
      the first line passing `t`. */
  predicate Selects(lines: seq<string>, p: string, t: Tier, i: nat) {
    && i < |lines|
    && MatchesTier(t, lines[i], p)
    && (forall j | 0 <= j < i :: !MatchesTier(t, lines[j], p))
    && EarlierNone(lines, p, t)
  }

  /** No line passes a tier tried before `t`. */
  predicate EarlierNone(lines: seq<string>, p: string, t: Tier) {
    && (Rank(t) > 0 ==> NoneMatch(lines, Exact, p))
    && (Rank(t) > 1 ==> NoneMatch(lines, CaseInsensitive, p))
    && (Rank(t) > 2 ==> NoneMatch(lines, Variant, p))
  }

  /** No line passes any tier. */
  predicate NoTier(lines: seq<string>, p: string) {
    EarlierNone(lines, p, Loose) && NoneMatch(lines, Loose, p)
  }

  /** The four loops of `find_target_line`: which tier decided, and at which
      line. */
  function Select(lines: seq<string>, p: string): (r: Option<(Tier, nat)>)
    ensures r.Some? ==> Selects(lines, p, r.value.0, r.value.1)
    ensures r.None? <==> NoTier(lines, p)
  {
    if |lines| == 0 then None
    else match FirstMatch(lines, Exact, p, 0)
      case Some(i) => Some((Exact, i))
      case None => match FirstMatch(lines, CaseInsensitive, p, 0)
        case Some(i) => Some((CaseInsensitive, i))
        case None => match FirstMatch(lines, Variant, p, 0)
          case Some(i) => Some((Variant, i))
          case None => match FirstMatch(lines, Loose, p, 0)
            case Some(i) => Some((Loose, i))
            case None => None
  }

  /** At most one tier and line decide. */
  lemma SelectsUnique(lines: seq<string>, p: string, t: Tier, i: nat, t': Tier, i': nat)
    requires Selects(lines, p, t, i) && Selects(lines, p, t', i')
    ensures t == t' && i == i'
  {
  }

  /** `find_target_line`: the stripped line chosen by the first tier any line
      passes; `None` for an empty list or when no line passes any tier. */
  function FindTargetLine(lines: seq<string>, p: string): (r: Option<string>)
    ensures |lines| == 0 ==> r.None?
    ensures r.None? <==> NoTier(lines, p)
    ensures r.Some? ==> exists i | 0 <= i < |lines| :: r.value == Strip(lines[i])
  {
    match Select(lines, p)
    case None => None
    case Some((_, i)) => Some(Strip(lines[i]))
  }

  /** The declarative reading of the tiers decides the result: when tier `t`
      decides at line `i`, the result is that line stripped. */
  lemma TierDecides(lines: seq<string>, p: string, t: Tier, i: nat)
    requires Selects(lines, p, t, i)
    ensures FindTargetLine(lines, p) == Some(Strip(lines[i]))
  {
    var r := Select(lines, p);
    if r.Some? {
      SelectsUnique(lines, p, t, i, r.value.0, r.value.1);
    }
  }

  /** A line containing the pattern verbatim wins: the first such line,
      stripped, whatever the later tiers would say. */
  lemma ExactWins(lines: seq<string>, p: string, i: nat)
    requires i < |lines| && Contains(lines[i], p)
    requires forall j | 0 <= j < i :: !Contains(lines[j], p)
    ensures FindTargetLine(lines, p) == Some(Strip(lines[i]))
  {
    TierDecides(lines, p, Exact, i);
  }

  /** Without a verbatim occurrence, the first line containing the pattern
      ignoring case wins. */
  lemma CaseInsensitiveWins(lines: seq<string>, p: string, i: nat)
    requires forall j | 0 <= j < |lines| :: !Contains(lines[j], p)
    requires i < |lines| && Contains(Lower(lines[i]), Lower(p))
    requires forall j | 0 <= j < i :: !Contains(Lower(lines[j]), Lower(p))
    ensures FindTargetLine(lines, p) == Some(Strip(lines[i]))
  {
    assert NoneMatch(lines, Exact, p);
    TierDecides(lines, p, CaseInsensitive, i);
  }

  /** `"1"` is among the variations of the default pattern: removing its
      underscores leaves it. */
  lemma DefaultVariations()
    ensures Variations(DefaultPattern) == ["_1_", "-1-", " 1 ", "1", "_1", "1_", " 1 "]
  {
    assert ReplaceChar("_1_", '_', "-") == "-1-";
    assert ReplaceChar("_1_", '_', " ") == " 1 ";
    assert ReplaceChar("_1_", '_', "") == "1";
  }

  lemma ContainsChar(s: string, c: char)
    requires c in s
    ensures Contains(s, [c])
  {
    var i :| 0 <= i < |s| && s[i] == c;
    assert [c] <= s[i..];
  }

  /** For the default pattern the regular-expression tier never decides:
      any line it would accept already passes the variations tier. */
  lemma DefaultLooseNeverDecides(lines: seq<string>)
    ensures Select(lines, DefaultPattern).Some? ==> Select(lines, DefaultPattern).value.0 != Loose
  {
    var r := Select(lines, DefaultPattern);
    if r.Some? && r.value.0 == Loose {
      var i := r.value.1;
      assert Variations(DefaultPattern)[3] == "1" by { DefaultVariations(); }
      ContainsChar(lines[i], '1');
      assert false;
    }
  }

  lemma NoneMatchParts(a: seq<string>, b: seq<string>, t: Tier, p: string)
    ensures NoneMatch(a + b, t, p) ==> NoneMatch(a, t, p) && NoneMatch(b, t, p)
  {
    assert forall j | 0 <= j < |a| :: (a + b)[j] == a[j];
    assert forall j | 0 <= j < |b| :: (a + b)[|a| + j] == b[j];
  }

  /** What the search over the concatenated lines finds, the search over one
      of the two parts finds as well. */
  lemma FindTargetLineAppend(a: seq<string>, b: seq<string>, p: string)
    requires FindTargetLine(a + b, p).Some?
    ensures FindTargetLine(a, p) == FindTargetLine(a + b, p)
         || FindTargetLine(b, p) == FindTargetLine(a + b, p)
  {
    var ab := a + b;
    var (t, i) := Select(ab, p).value;
    NoneMatchParts(a, b, Exact, p);
    NoneMatchParts(a, b, CaseInsensitive, p);
    NoneMatchParts(a, b, Variant, p);
    if i < |a| {
      assert ab[i] == a[i];
      assert forall j | 0 <= j < i :: ab[j] == a[j];
      TierDecides(a, p, t, i);
    } else {
      assert ab[i] == b[i - |a|];
      assert forall j | 0 <= j < i - |a| :: ab[|a| + j] == b[j];
      TierDecides(b, p, t, i - |a|);
    }
  }

  // ---------------------------------------------------------------------
  // extract_target_text

  /** The record `extract_target_text` returns. */
  datatype TargetRecord = TargetRecord(
    targetText: Option<string>,
    sourceEngine: Option<string>,
    allMatchingLines: seq<string>,
    confidence: Option<int>)

  const CombinedEngine: string := "combined"

  /** An engine's detections yield a target: the list is non-empty and the
      matcher returns a non-empty (truthy) line. */
  predicate Hit(ds: seq<Detection>, p: string) {
    |ds| > 0 && FindTargetLine(Texts(ds), p).Some? && |FindTargetLine(Texts(ds), p).value| > 0
  }

  /** The `if not texts` guard adds nothing: an engine without detections
      has no lines, and the matcher returns `None` for no lines, so an engine
      hits exactly when the matcher gives it a non-empty line. */
  lemma HitNeedsOnlyTarget(ds: seq<Detection>, p: string)
    ensures Hit(ds, p) <==> FindTargetLine(Texts(ds), p).Some? && |FindTargetLine(Texts(ds), p).value| > 0
  {
    if |ds| == 0 {
      assert Texts(ds) == [];
    }
  }

  /** `Hit` for a fixed pattern, as the test the engine loop applies. */
  function HitOf(p: string): (hit: seq<Detection> -> bool)
    ensures forall ds :: hit(ds) == Hit(ds, p)
  {
    ds => Hit(ds, p)
  }

  /** The first engine, in dictionary order, from `i` on whose detections
      pass `hit`. */
  function FirstHit(es: seq<EngineResult>, hit: seq<Detection> -> bool, i: nat): (r: Option<nat>)
    requires i <= |es|
    ensures r.Some? ==> i <= r.value < |es| && hit(es[r.value].detections)
    decreases |es| - i
  {
    if i == |es| then None
    else if hit(es[i].detections) then Some(i)
    else FirstHit(es, hit, i + 1)
  }

  /** No engine before the one found passes, and none is found exactly when
      no engine passes. */
  lemma {:induction false} FirstHitSpec(es: seq<EngineResult>, hit: seq<Detection> -> bool, i: nat)
    requires i <= |es|
    ensures FirstHit(es, hit, i).Some? ==> forall k | i <= k < FirstHit(es, hit, i).value :: !hit(es[k].detections)
    ensures FirstHit(es, hit, i).None? <==> forall k | i <= k < |es| :: !hit(es[k].detections)
    decreases |es| - i
  {
    if i < |es| && !hit(es[i].detections) {
      FirstHitSpec(es, hit, i + 1);
    }
  }

  /** The confidence of the first detection whose text contains the
      pattern, ignoring case. */
  function FirstConfidence(ds: seq<Detection>, p: string): (c: Option<int>)
    ensures c.None? <==> forall k | 0 <= k < |ds| :: !MatchesPattern(ds[k].text, p)
    ensures c.Some? ==> exists k | 0 <= k < |ds| ::
      && c.value == ds[k].conf && MatchesPattern(ds[k].text, p)
      && forall j | 0 <= j < k :: !MatchesPattern(ds[j].text, p)
  {
    if |ds| == 0 then None
    else if MatchesPattern(ds[0].text, p) then Some(ds[0].conf)
    else
      var c := FirstConfidence(ds[1..], p);
      assert forall k | 1 <= k < |ds| :: ds[k] == ds[1..][k - 1];
      c
  }

  /** The lines containing the pattern, ignoring case, in order. */
  function MatchingLines(lines: seq<string>, p: string): (ms: seq<string>)
    ensures |ms| <= |lines|
    ensures forall k | 0 <= k < |ms| :: ms[k] in lines && MatchesPattern(ms[k], p)
  {
    if |lines| == 0 then []
    else
      var rest := MatchingLines(lines[1..], p);
      if MatchesPattern(lines[0], p) then [lines[0]] + rest else rest
  }

  /** No line containing the pattern is left out of the audit list. */
  lemma {:induction false} MatchingLinesComplete(lines: seq<string>, p: string)
    ensures forall i | 0 <= i < |lines| && MatchesPattern(lines[i], p) :: lines[i] in MatchingLines(lines, p)
  {
    if |lines| > 0 {
      MatchingLinesComplete(lines[1..], p);
      assert forall i | 1 <= i < |lines| :: lines[i] == lines[1..][i - 1];
    }
  }

  /** Filtering a list extended by one line extends the filtered list by
      that line exactly when it contains the pattern: the audit list keeps
      the matching lines in their input order, repeats included. */
  lemma {:induction false} MatchingLinesAppend(lines: seq<string>, l: string, p: string)
    ensures MatchingLines(lines + [l], p) == MatchingLines(lines, p) + (if MatchesPattern(l, p) then [l] else [])
    decreases |lines|
  {
    if |lines| == 0 {
      assert lines + [l] == [l];
      assert MatchingLines([l][1..], p) == [];
    } else {
      assert (lines + [l])[1..] == lines[1..] + [l];
      MatchingLinesAppend(lines[1..], l, p);
    }
  }

  /** The lines of every engine, in dictionary order. */
  function AllLines(es: seq<EngineResult>): seq<string> {
    if |es| == 0 then [] else Texts(es[0].detections) + AllLines(es[1..])
  }

  /** The combined lines of two groups of engines are the first group's
      lines followed by the second's. */
  lemma {:induction false} AllLinesAppend(a: seq<EngineResult>, b: seq<EngineResult>)
    ensures AllLines(a + b) == AllLines(a) + AllLines(b)
    decreases |a|
  {
    if |a| == 0 {
      assert a + b == b;
    } else {
      assert (a + b)[1..] == a[1..] + b;
      AllLinesAppend(a[1..], b);
    }
  }

  /** A line is among the combined lines exactly when some engine reported
      it. */
  lemma {:induction false} AllLinesMembers(es: seq<EngineResult>, l: string)
    ensures l in AllLines(es) <==> exists k | 0 <= k < |es| :: l in Texts(es[k].detections)
    decreases |es|
  {
    if |es| > 0 {
      AllLinesMembers(es[1..], l);
      assert forall k | 1 <= k < |es| :: es[k] == es[1..][k - 1];
      if exists k | 1 <= k < |es| :: l in Texts(es[k].detections) {
        var k :| 1 <= k < |es| && l in Texts(es[k].detections);
        assert l in Texts(es[1..][k - 1].detections);
      }
    }
  }

  /** A line the matcher finds among all engines' lines it also finds among
      one engine's lines. */
  lemma {:induction false} AllLinesFind(es: seq<EngineResult>, p: string)
    requires FindTargetLine(AllLines(es), p).Some?
    ensures exists k | 0 <= k < |es| :: FindTargetLine(Texts(es[k].detections), p) == FindTargetLine(AllLines(es), p)
  {
    if |es| > 0 {
      var first := Texts(es[0].detections);
      FindTargetLineAppend(first, AllLines(es[1..]), p);
      if FindTargetLine(first, p) != FindTargetLine(AllLines(es), p) {
        AllLinesFind(es[1..], p);
        var k :| 0 <= k < |es[1..]| && FindTargetLine(Texts(es[1..][k].detections), p) == FindTargetLine(AllLines(es[1..]), p);
        assert es[1..][k] == es[k + 1];
      }
    }
  }

  /** The `'combined'` fallback never fires: when no single engine yields a
      target, neither do all their lines together. */
  lemma CombinedFallbackNeverHits(es: seq<EngineResult>, p: string)
    requires FirstHit(es, HitOf(p), 0).None?
    ensures var t := FindTargetLine(AllLines(es), p); t.None? || |t.value| == 0
  {
    var t := FindTargetLine(AllLines(es), p);
    FirstHitSpec(es, HitOf(p), 0);
    if t.Some? && |t.value| > 0 {
      AllLinesFind(es, p);
      assert false;
    }
  }

  /** `extract_target_text`. */
  function ExtractTargetText(es: seq<EngineResult>, p: string): (r: TargetRecord)
    ensures r.targetText.Some? <==> r.sourceEngine.Some?
    ensures r.targetText.Some? ==> |r.targetText.value| > 0
    ensures forall k | 0 <= k < |r.allMatchingLines| :: MatchesPattern(r.allMatchingLines[k], p)
  {
    match FirstHit(es, HitOf(p), 0)
    case Some(k) =>
      var ds := es[k].detections;
      TargetRecord(FindTargetLine(Texts(ds), p), Some(es[k].name),
                   MatchingLines(Texts(ds), p), FirstConfidence(ds, p))
    case None =>
      var t := FindTargetLine(AllLines(es), p);
      if t.Some? && |t.value| > 0 then TargetRecord(t, Some(CombinedEngine), [], None)
      else TargetRecord(None, None, [], None)
  }

  /** The record comes from the first engine, in dictionary order, that
      yields a target: its name, its target line, the confidence of its first
      line containing the pattern, and all its lines containing the pattern.
      Without such an engine every field is empty, so the source is never
      `'combined'`. */
  lemma ExtractTargetTextFirstEngine(es: seq<EngineResult>, p: string)
    ensures var r := ExtractTargetText(es, p);
      && (r.targetText.Some? <==> exists k | 0 <= k < |es| :: Hit(es[k].detections, p))
      && (r.targetText.None? ==> r == TargetRecord(None, None, [], None))
      && (r.targetText.Some? ==> exists k | 0 <= k < |es| ::
            && Hit(es[k].detections, p)
            && (forall j | 0 <= j < k :: !Hit(es[j].detections, p))
            && r.sourceEngine == Some(es[k].name)
            && r.targetText == FindTargetLine(Texts(es[k].detections), p)
            && r.confidence == FirstConfidence(es[k].detections, p)
            && r.allMatchingLines == MatchingLines(Texts(es[k].detections), p))
  {
    var hit := HitOf(p);
    FirstHitSpec(es, hit, 0);
    match FirstHit(es, hit, 0)
    case None =>
      CombinedFallbackNeverHits(es, p);
    case Some(k) =>
      assert Hit(es[k].detections, p);
      assert forall j | 0 <= j < k :: !Hit(es[j].detections, p) by {
        forall j | 0 <= j < k ensures !Hit(es[j].detections, p) {
          assert !hit(es[j].detections);
        }
      }
  }

  /** A confidence is reported only when some line of the winning engine
      contains the pattern, ignoring case. */
  lemma ConfidenceNeedsPattern(es: seq<EngineResult>, p: string)
    ensures var r := ExtractTargetText(es, p);
      r.confidence.Some? ==> exists k, j | 0 <= k < |es| && 0 <= j < |es[k].detections| ::
        && r.sourceEngine == Some(es[k].name)
        && MatchesPattern(es[k].detections[j].text, p)
        && r.confidence == Some(es[k].detections[j].conf)
  {
    ExtractTargetTextFirstEngine(es, p);
  }

  // ---------------------------------------------------------------------
  // validate_extracted_text and clean_extracted_text

  /** `validate_extracted_text`. */
  function ValidateExtractedText(text: string, p: string): (b: bool)
    ensures b <==> |text| > 0 && Contains(Lower(text), Lower(p))
  {
    MatchesPatternLower(text, p);
    if |text| == 0 then false else MatchesPattern(text, p)
  }

  /** `clean_extracted_text`: `""` for empty input, otherwise whitespace runs
      collapsed to one space and the ends stripped. The final `strip()` and
      the early return are both redundant: the result is the collapsed
      text. */
  function CleanExtractedText(text: string): (r: string)
    ensures r == Collapse(text)
  {
    if |text| == 0 then
      SplitEmpty(text);
      ""
    else
      CollapseNormalized(text);
      StripOfTrimmed(Collapse(text));
      Strip(Collapse(text))
  }

  /** The cleaned text is whitespace-normalised, keeps the words of the
      input, and is empty for empty input. */
  lemma CleanShape(text: string)
    ensures |text| == 0 ==> CleanExtractedText(text) == ""
    ensures IsNormalized(CleanExtractedText(text))
    ensures Split(CleanExtractedText(text)) == Split(text)
  {
    CollapseNormalized(text);
  }

  /** Cleaning twice is cleaning once. */
  lemma CleanIdempotent(text: string)
    ensures CleanExtractedText(CleanExtractedText(text)) == CleanExtractedText(text)
  {
    CollapseIdempotent(text);
  }

  // ---------------------------------------------------------------------
  // Examples

  /** A line holding the pattern verbatim is found and stripped. */
  lemma ExactExample()
    ensures FindTargetLine(["no match", " 9_1_A "], DefaultPattern) == Some("9_1_A")
  {
    var lines := ["no match", " 9_1_A "];
    assert "_1_" <= lines[1][2..];
    MissingChar(lines[0], DefaultPattern, 0);
    ExactWins(lines, DefaultPattern, 1);
    StripPadded();
  }

  lemma StripPadded()
    ensures Strip(" 9_1_A ") == "9_1_A"
  {
    assert TrimLeft(" 9_1_A ") == "9_1_A ";
    assert TrimRight("9_1_A ") == "9_1_A";
  }

  /** A line with hyphens where the pattern has underscores is found by the
      variations tier. */
  lemma VariantExample()
    ensures FindTargetLine(["12345-1-AB"], DefaultPattern) == Some("12345-1-AB")
  {
    var line := "12345-1-AB";
    VariantExampleTiers();
    assert Selects([line], DefaultPattern, Variant, 0);
    TierDecides([line], DefaultPattern, Variant, 0);
    StripOfTrimmed(line);
  }

  lemma VariantExampleTiers()
    ensures !MatchesTier(Exact, "12345-1-AB", DefaultPattern)
    ensures !MatchesTier(CaseInsensitive, "12345-1-AB", DefaultPattern)
    ensures MatchesTier(Variant, "12345-1-AB", DefaultPattern)
  {
    var line := "12345-1-AB";
    MissingChar(line, DefaultPattern, 0);
    LowerExample();
    MissingChar(Lower(line), Lower(DefaultPattern), 0);
    assert Variations(DefaultPattern)[1] == "-1-" by { DefaultVariations(); }
    assert "-1-" <= line[5..];
    assert MatchesPattern(line, Variations(DefaultPattern)[1]);
  }

  lemma LowerExample()
    ensures Lower("12345-1-AB") == "12345-1-ab" && Lower(DefaultPattern) == "_1_"
  {
  }
}
