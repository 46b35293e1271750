/** Post-processing of raw OCR engine output in the first generation of the
    pipeline (ocr_engine.py): filtering Tesseract's column dictionary, turning
    EasyOCR polygons into boxes, fanning out over the enabled engines and the
    case-insensitive de-duplication of `extract_all_text`.

    The engines themselves are not modelled: what Tesseract or EasyOCR
    returned is an input, and `None` stands for an engine call that raised,
    which every function here turns into an empty result as the source's
    `except` clauses do. */
module EngineOutput {
  import opened Wrappers
  import opened PyStr
  import opened RowIndices

  /** An axis-aligned box `(x, y, w, h)`. */
  datatype Box = Box(x: int, y: int, w: int, h: int)

  /** One `(text, confidence, bbox)` tuple an engine wrapper returns. */
  datatype Detection = Detection(text: string, conf: int, box: Box)

  /** The detections of one engine, under the key `name`. */
  datatype EngineResult = EngineResult(name: string, detections: seq<Detection>)

  function Texts(ds: seq<Detection>): (ts: seq<string>)
    ensures |ts| == |ds|
    ensures forall k | 0 <= k < |ds| :: ts[k] == ds[k].text
  {
    seq(|ds|, k requires 0 <= k < |ds| => ds[k].text)
  }

  // ---------------------------------------------------------------------
  // Tesseract

  /** The columns of Tesseract's `image_to_data` dictionary that the filter
      reads; `conf` holds the column already passed through `int()`.
      Nothing forces the columns to have equal lengths: a short column makes
      the loop raise, which the wrapper turns into an empty result. */
  datatype TessData = TessData(
    text: seq<string>,
    conf: seq<int>,
    left: seq<int>,
    top: seq<int>,
    width: seq<int>,
    height: seq<int>)

  /** Row `i` survives the filter: its stripped text is non-empty and its
      confidence is positive. */
  predicate Kept(d: TessData, i: nat)
    requires i < |d.text| && i < |d.conf|
  {
    |Strip(d.text[i])| > 0 && d.conf[i] > 0
  }

  /** The box columns have an entry at row `i`. */
  predicate BoxAt(d: TessData, i: nat) {
    i < |d.left| && i < |d.top| && i < |d.width| && i < |d.height|
  }

  /** The confidence column reaches every row from `i` on. */
  predicate ConfFrom(d: TessData, i: nat) {
    i >= |d.text| || |d.conf| >= |d.text|
  }

  /** Every access the loop makes from row `i` on stays inside its column. */
  predicate WellFormedFrom(d: TessData, i: nat) {
    && ConfFrom(d, i)
    && forall j | i <= j < |d.text| :: Kept(d, j) ==> BoxAt(d, j)
  }

  /** The tuple the loop appends for row `i`. */
  function RowDetection(d: TessData, i: nat): (r: Detection)
    requires i < |d.text| && i < |d.conf| && BoxAt(d, i)
    ensures r.box == Box(d.left[i], d.top[i], d.width[i], d.height[i])
  {
    Detection(Strip(d.text[i]), d.conf[i], Box(d.left[i], d.top[i], d.width[i], d.height[i]))
  }

  /** The indices from `i` on that survive the filter, in increasing order. */
  function KeptIndices(d: TessData, i: nat): (idx: seq<nat>)
    requires i <= |d.text| && ConfFrom(d, i)
    ensures |idx| <= |d.text| - i
    decreases |d.text| - i
  {
    if i == |d.text| then []
    else if Kept(d, i) then [i] + KeptIndices(d, i + 1)
    else KeptIndices(d, i + 1)
  }

  /** Every index in `idx` is a row from `i` on that passes the filter. */
  predicate KeptRowsFrom(d: TessData, i: nat, idx: seq<nat>) {
    forall k | 0 <= k < |idx| :: i <= idx[k] < |d.text| && idx[k] < |d.conf| && Kept(d, idx[k])
  }

  /** The kept indices are increasing and are exactly the rows from `i` on
      that pass the filter. */
  lemma KeptIndicesShape(d: TessData, i: nat)
    requires i <= |d.text| && ConfFrom(d, i)
    ensures KeptRowsFrom(d, i, KeptIndices(d, i))
    ensures Increasing(KeptIndices(d, i))
    ensures forall j | i <= j < |d.text| && Kept(d, j) :: j in KeptIndices(d, i)
  {
    KeptIndicesSound(d, i);
    KeptIndicesComplete(d, i);
  }

  lemma {:induction false} KeptIndicesSound(d: TessData, i: nat)
    requires i <= |d.text| && ConfFrom(d, i)
    ensures KeptRowsFrom(d, i, KeptIndices(d, i))
    ensures Increasing(KeptIndices(d, i))
    decreases |d.text| - i
  {
    if i < |d.text| {
      KeptIndicesSound(d, i + 1);
      var rest := KeptIndices(d, i + 1);
      if Kept(d, i) {
        var idx := [i] + rest;
        assert KeptIndices(d, i) == idx;
        forall k | 1 <= k < |idx|
          ensures idx[k] == rest[k - 1]
        {
        }
      }
    }
  }

  lemma {:induction false} KeptIndicesComplete(d: TessData, i: nat)
    requires i <= |d.text| && ConfFrom(d, i)
    ensures forall j | i <= j < |d.text| && Kept(d, j) :: j in KeptIndices(d, i)
    decreases |d.text| - i
  {
    if i < |d.text| {
      KeptIndicesComplete(d, i + 1);
    }
  }

  /** The loop of `extract_text_tesseract` from row `i` on; `None` when a
      column access raises. */
  function TessScan(d: TessData, i: nat): (r: Option<seq<Detection>>)
    requires i <= |d.text|
    ensures r.Some? <==> WellFormedFrom(d, i)
    decreases |d.text| - i
  {
    if i == |d.text| then Some([])
    else if i >= |d.conf| then None
    else if !Kept(d, i) then TessScan(d, i + 1)
    else if !BoxAt(d, i) then None
    else match TessScan(d, i + 1)
      case None => None
      case Some(rest) => Some([RowDetection(d, i)] + rest)
  }

  /** `ds` holds, in order, the tuples built from the rows listed in `idx`. */
  predicate RowsFrom(d: TessData, idx: seq<nat>, ds: seq<Detection>) {
    && |ds| == |idx|
    && forall k | 0 <= k < |idx| ::
         idx[k] < |d.text| && idx[k] < |d.conf| && BoxAt(d, idx[k]) && ds[k] == RowDetection(d, idx[k])
  }

  lemma ConsRow(d: TessData, i: nat, idx: seq<nat>, ds: seq<Detection>)
    requires i < |d.text| && i < |d.conf| && BoxAt(d, i) && RowsFrom(d, idx, ds)
    ensures RowsFrom(d, [i] + idx, [RowDetection(d, i)] + ds)
  {
    var idx', ds' := [i] + idx, [RowDetection(d, i)] + ds;
    forall k | 1 <= k < |idx'|
      ensures idx'[k] == idx[k - 1] && ds'[k] == ds[k - 1]
    {
    }
  }

  /** What the loop appends: one tuple per kept row, in row order, each built
      from its own row. */
  lemma {:induction false} TessScanRows(d: TessData, i: nat)
    requires i <= |d.text| && WellFormedFrom(d, i)
    ensures RowsFrom(d, KeptIndices(d, i), TessScan(d, i).value)
    decreases |d.text| - i
  {
    if i < |d.text| {
      assert WellFormedFrom(d, i + 1);
      TessScanRows(d, i + 1);
      if Kept(d, i) {
        ConsRow(d, i, KeptIndices(d, i + 1), TessScan(d, i + 1).value);
      }
    }
  }

  /** `extract_text_tesseract`: the kept rows in input order, each with the
      box of its own row; `[]` when the engine or the loop raised. */
  function ExtractTextTesseract(out: Option<TessData>): (ds: seq<Detection>)
    ensures out.None? || !WellFormedFrom(out.value, 0) ==> ds == []
  {
    match out
    case None => []
    case Some(d) => TessScan(d, 0).GetOr([])
  }

  /** Tesseract's detections are the kept rows, in row order, each with the
      text, confidence and box of its own row; so each has non-empty
      stripped text and a positive confidence, and there are at most as many
      as rows. */
  lemma TesseractKeptRows(d: TessData)
    requires WellFormedFrom(d, 0)
    ensures var ds := ExtractTextTesseract(Some(d)); var idx := KeptIndices(d, 0);
      && RowsFrom(d, idx, ds)
      && |ds| <= |d.text|
      && KeptRowsFrom(d, 0, idx)
      && Increasing(idx)
      && (forall j | 0 <= j < |d.text| && Kept(d, j) :: j in idx)
      && (forall k | 0 <= k < |ds| ::
            && ds[k].text == Strip(d.text[idx[k]]) && |ds[k].text| > 0
            && ds[k].conf == d.conf[idx[k]] > 0
            && ds[k].box == Box(d.left[idx[k]], d.top[idx[k]], d.width[idx[k]], d.height[idx[k]]))
  {
    TessScanRows(d, 0);
    KeptIndicesShape(d, 0);
  }

  // ---------------------------------------------------------------------
  // EasyOCR

  datatype Point = Point(x: int, y: int)

  /** One `(bbox, text, confidence)` triple of EasyOCR's `readtext`, with
      `conf` the integer `int(confidence * 100)`. */
  datatype EasyDetection = EasyDetection(polygon: seq<Point>, text: string, conf: int)

  function MinOf(xs: seq<int>): (m: int)
    requires |xs| > 0
    ensures forall k | 0 <= k < |xs| :: m <= xs[k]
    ensures exists k | 0 <= k < |xs| :: m == xs[k]
  {
    if |xs| == 1 then xs[0]
    else
      var rest := MinOf(xs[1..]);
      assert forall k | 1 <= k < |xs| :: xs[k] == xs[1..][k - 1];
      if xs[0] <= rest then xs[0] else rest
  }

  function MaxOf(xs: seq<int>): (m: int)
    requires |xs| > 0
    ensures forall k | 0 <= k < |xs| :: xs[k] <= m
    ensures exists k | 0 <= k < |xs| :: m == xs[k]
  {
    if |xs| == 1 then xs[0]
    else
      var rest := MaxOf(xs[1..]);
      assert forall k | 1 <= k < |xs| :: xs[k] == xs[1..][k - 1];
      if xs[0] >= rest then xs[0] else rest
  }

  function Xs(poly: seq<Point>): seq<int> {
    seq(|poly|, k requires 0 <= k < |poly| => poly[k].x)
  }

  function Ys(poly: seq<Point>): seq<int> {
    seq(|poly|, k requires 0 <= k < |poly| => poly[k].y)
  }

  /** `p` lies inside or on the border of `b`. */
  predicate Inside(p: Point, b: Box) {
    b.x <= p.x <= b.x + b.w && b.y <= p.y <= b.y + b.h
  }

  /** The axis-aligned box around a polygon; `None` for a polygon without
      vertices, where `min([])` raises. */
  function BoundingBox(poly: seq<Point>): (b: Option<Box>)
    ensures b.None? <==> |poly| == 0
    ensures b.Some? ==> b.value.w >= 0 && b.value.h >= 0
    ensures b.Some? ==> forall k | 0 <= k < |poly| :: Inside(poly[k], b.value)
  {
    if |poly| == 0 then None
    else
      assert forall k | 0 <= k < |poly| :: Xs(poly)[k] == poly[k].x && Ys(poly)[k] == poly[k].y;
      var x := MinOf(Xs(poly));
      var y := MinOf(Ys(poly));
      Some(Box(x, y, MaxOf(Xs(poly)) - x, MaxOf(Ys(poly)) - y))
  }

  /** The box is the smallest one around the polygon: each of its four
      sides touches a vertex. */
  lemma BoundingBoxTight(poly: seq<Point>)
    requires |poly| > 0
    ensures var b := BoundingBox(poly).value;
      && (exists k | 0 <= k < |poly| :: poly[k].x == b.x)
      && (exists k | 0 <= k < |poly| :: poly[k].x == b.x + b.w)
      && (exists k | 0 <= k < |poly| :: poly[k].y == b.y)
      && (exists k | 0 <= k < |poly| :: poly[k].y == b.y + b.h)
  {
    var b := BoundingBox(poly).value;
    var k1 :| 0 <= k1 < |poly| && MinOf(Xs(poly)) == Xs(poly)[k1];
    var k2 :| 0 <= k2 < |poly| && MaxOf(Xs(poly)) == Xs(poly)[k2];
    var k3 :| 0 <= k3 < |poly| && MinOf(Ys(poly)) == Ys(poly)[k3];
    var k4 :| 0 <= k4 < |poly| && MaxOf(Ys(poly)) == Ys(poly)[k4];
    assert poly[k1].x == b.x && poly[k2].x == b.x + b.w;
    assert poly[k3].y == b.y && poly[k4].y == b.y + b.h;
  }

  /** Every polygon has a vertex. */
  predicate AllPolygons(rs: seq<EasyDetection>) {
    forall k | 0 <= k < |rs| :: |rs[k].polygon| > 0
  }

  /** The loop of `extract_text_easyocr` when every polygon has a vertex. */
  function EasyDetections(rs: seq<EasyDetection>): (ds: seq<Detection>)
    requires AllPolygons(rs)
    ensures |ds| == |rs|
  {
    seq(|rs|, k requires 0 <= k < |rs| =>
      Detection(Strip(rs[k].text), rs[k].conf, BoundingBox(rs[k].polygon).value))
  }

  /** `extract_text_easyocr`: one detection per EasyOCR result, in order,
      with stripped text and the polygon's box; `[]` when the engine raised
      or a polygon had no vertex, where `min([])` raises. */
  function ExtractTextEasyocr(out: Option<seq<EasyDetection>>): (ds: seq<Detection>)
    ensures out.None? || !AllPolygons(out.value) ==> ds == []
  {
    if out.Some? && AllPolygons(out.value) then EasyDetections(out.value) else []
  }

  /** Each EasyOCR detection keeps its result's position, stripped text and
      confidence, and its box is the bounding box of its own polygon: of
      non-negative size, holding every vertex, and tight by
      `BoundingBoxTight`. */
  lemma EasyocrRows(rs: seq<EasyDetection>)
    requires AllPolygons(rs)
    ensures var ds := ExtractTextEasyocr(Some(rs));
      && |ds| == |rs|
      && forall k | 0 <= k < |rs| ::
           && ds[k].text == Strip(rs[k].text) && ds[k].conf == rs[k].conf
           && ds[k].box.w >= 0 && ds[k].box.h >= 0
           && |rs[k].polygon| > 0 && ds[k].box == BoundingBox(rs[k].polygon).value
           && forall p | p in rs[k].polygon :: Inside(p, ds[k].box)
  {
    var ds := ExtractTextEasyocr(Some(rs));
    forall k | 0 <= k < |rs|
      ensures |rs[k].polygon| > 0 && ds[k].box == BoundingBox(rs[k].polygon).value
      ensures forall p | p in rs[k].polygon :: Inside(p, ds[k].box)
    {
      var poly := rs[k].polygon;
      assert ds[k].box == BoundingBox(poly).value;
      forall p | p in poly
        ensures Inside(p, ds[k].box)
      {
        var j :| 0 <= j < |poly| && poly[j] == p;
      }
    }
  }

  // ---------------------------------------------------------------------
  // Fan-out over the engines

  const TesseractKey: string := "tesseract"
  const EasyocrKey: string := "easyocr"

  /** `extract_text_combined`: the result dictionary, in insertion order. */
  function ExtractTextCombined(tess: Option<TessData>, easy: Option<seq<EasyDetection>>,
                               useEasyocr: bool, useTesseract: bool): (rs: seq<EngineResult>)
    ensures |rs| == (if useTesseract then 1 else 0) + (if useEasyocr then 1 else 0)
  {
    (if useTesseract then [EngineResult(TesseractKey, ExtractTextTesseract(tess))] else [])
    + (if useEasyocr then [EngineResult(EasyocrKey, ExtractTextEasyocr(easy))] else [])
  }

  /** The position of key `name` in an engine dictionary. */
  function KeyIndex(rs: seq<EngineResult>, name: string): (k: Option<nat>)
    ensures k.Some? ==> k.value < |rs| && rs[k.value].name == name
    ensures k.None? <==> forall j | 0 <= j < |rs| :: rs[j].name != name
  {
    if |rs| == 0 then None
    else if rs[0].name == name then Some(0)
    else match KeyIndex(rs[1..], name)
      case None => (assert forall j | 1 <= j < |rs| :: rs[j] == rs[1..][j - 1]; None)
      case Some(k) => Some(k + 1)
  }

  /** The dictionary holds a key exactly for each enabled engine, `tesseract`
      before `easyocr`, and each key maps to what its engine wrapper
      returns. */
  lemma CombinedKeys(tess: Option<TessData>, easy: Option<seq<EasyDetection>>,
                     useEasyocr: bool, useTesseract: bool)
    ensures var rs := ExtractTextCombined(tess, easy, useEasyocr, useTesseract);
      && (KeyIndex(rs, TesseractKey).Some? <==> useTesseract)
      && (KeyIndex(rs, EasyocrKey).Some? <==> useEasyocr)
      && (useTesseract ==> rs[KeyIndex(rs, TesseractKey).value].detections == ExtractTextTesseract(tess))
      && (useEasyocr ==> rs[KeyIndex(rs, EasyocrKey).value].detections == ExtractTextEasyocr(easy))
      && (useTesseract && useEasyocr ==> KeyIndex(rs, TesseractKey).value < KeyIndex(rs, EasyocrKey).value)
  {
    var rs := ExtractTextCombined(tess, easy, useEasyocr, useTesseract);
    assert TesseractKey != EasyocrKey by { assert TesseractKey[0] != EasyocrKey[0]; }
    if useTesseract && useEasyocr {
      assert rs[1..] == [EngineResult(EasyocrKey, ExtractTextEasyocr(easy))];
    }
  }

  /** The texts under key `name`, or none when the key is absent. */
  function EngineTexts(rs: seq<EngineResult>, name: string): (ts: seq<string>)
    ensures KeyIndex(rs, name).None? ==> ts == []
    ensures KeyIndex(rs, name).Some? ==> ts == Texts(rs[KeyIndex(rs, name).value].detections)
  {
    match KeyIndex(rs, name)
    case None => []
    case Some(k) => Texts(rs[k].detections)
  }

  // ---------------------------------------------------------------------
  // De-duplication

  /** Some entry of `u` equals `t` after lower-casing; the source's `seen`
      set holds exactly the lower-cased entries kept so far. */
  predicate Seen(u: seq<string>, t: string) {
    exists j | 0 <= j < |u| :: Lower(u[j]) == Lower(t)
  }

  /** `texts[i]` is the first text of its lower-cased form. */
  predicate FirstOccurrence(texts: seq<string>, i: nat)
    requires i < |texts|
  {
    forall j | 0 <= j < i :: Lower(texts[j]) != Lower(texts[i])
  }

  /** The de-duplicating loop of `extract_all_text`, as a fold over the
      texts seen so far. */
  function Dedup(texts: seq<string>): (u: seq<string>)
    ensures |u| <= |texts|
    ensures forall k | 0 <= k < |u| :: u[k] in texts
    decreases |texts|
  {
    if |texts| == 0 then []
    else
      var prev := Dedup(texts[..|texts| - 1]);
      var t := texts[|texts| - 1];
      if Seen(prev, t) then prev else prev + [t]
  }

  /** No two entries of `u` agree after lower-casing. */
  predicate DistinctLower(u: seq<string>) {
    forall a, b | 0 <= a < b < |u| :: Lower(u[a]) != Lower(u[b])
  }

  /** No two entries of the result agree after lower-casing. */
  lemma {:induction false} DedupDistinct(texts: seq<string>)
    ensures DistinctLower(Dedup(texts))
    decreases |texts|
  {
    if |texts| > 0 {
      var front := texts[..|texts| - 1];
      var prev := Dedup(front);
      var t := texts[|texts| - 1];
      DedupDistinct(front);
      if Seen(prev, t) {
        assert Dedup(texts) == prev;
      } else {
        assert Dedup(texts) == prev + [t];
        var u := prev + [t];
        forall a, b | 0 <= a < b < |u|
          ensures Lower(u[a]) != Lower(u[b])
        {
          if b == |prev| {
            assert u[b] == t && u[a] == prev[a];
            assert Lower(prev[a]) != Lower(t);
          } else {
            assert u[a] == prev[a] && u[b] == prev[b];
            assert Lower(prev[a]) != Lower(prev[b]);
          }
        }
      }
    }
  }

  /** Every input text is represented, ignoring case, in the result. */
  lemma {:induction false} DedupCovers(texts: seq<string>)
    ensures forall i | 0 <= i < |texts| :: Seen(Dedup(texts), texts[i])
    decreases |texts|
  {
    if |texts| > 0 {
      var front := texts[..|texts| - 1];
      var prev := Dedup(front);
      var u := Dedup(texts);
      DedupCovers(front);
      assert forall j | 0 <= j < |prev| :: u[j] == prev[j];
      forall i | 0 <= i < |texts|
        ensures Seen(u, texts[i])
      {
        if i < |front| {
          assert texts[i] == front[i];
          var j :| 0 <= j < |prev| && Lower(prev[j]) == Lower(front[i]);
          assert Lower(u[j]) == Lower(texts[i]);
        } else if !Seen(prev, texts[i]) {
          assert u[|prev|] == texts[i];
        }
      }
    }
  }

  /** Entry `k` of `u` is the first occurrence of its lower-cased form in
      `texts`. */
  predicate KeptFirst(texts: seq<string>, u: seq<string>, k: nat)
    requires k < |u|
  {
    exists i | 0 <= i < |texts| :: u[k] == texts[i] && FirstOccurrence(texts, i)
  }

  /** Every entry is kept at the first occurrence of its lower-cased form. */
  lemma {:induction false} DedupFirstOccurrences(texts: seq<string>)
    ensures forall k | 0 <= k < |Dedup(texts)| :: KeptFirst(texts, Dedup(texts), k)
    decreases |texts|
  {
    if |texts| > 0 {
      var front := texts[..|texts| - 1];
      var prev := Dedup(front);
      var u := Dedup(texts);
      var t := texts[|texts| - 1];
      DedupFirstOccurrences(front);
      forall k | 0 <= k < |u|
        ensures KeptFirst(texts, u, k)
      {
        if k < |prev| {
          assert KeptFirst(front, prev, k);
          var i :| 0 <= i < |front| && prev[k] == front[i] && FirstOccurrence(front, i);
          assert u[k] == prev[k];
          assert texts[i] == front[i];
          assert forall j | 0 <= j < i :: texts[j] == front[j];
          assert FirstOccurrence(texts, i);
        } else {
          assert !Seen(prev, t) && u[k] == t;
          DedupCovers(front);
          forall j | 0 <= j < |texts| - 1
            ensures Lower(texts[j]) != Lower(t)
          {
            assert texts[j] == front[j];
          }
          assert FirstOccurrence(texts, |texts| - 1);
        }
      }
    }
  }

  /** The indices of the first occurrences of each lower-cased form, in
      increasing order: a reference for `Dedup` stated without the `seen`
      set. */
  function FirstIndices(texts: seq<string>): (idx: seq<nat>)
    ensures forall k | 0 <= k < |idx| :: idx[k] < |texts|
    decreases |texts|
  {
    if |texts| == 0 then []
    else
      var n := |texts| - 1;
      FirstIndices(texts[..n]) + (if FirstOccurrence(texts, n) then [n] else [])
  }

  /** A prefix has the same first occurrences as the whole list, below its
      length. */
  lemma FirstOccurrencePrefix(texts: seq<string>, n: nat, i: nat)
    requires i < n <= |texts|
    ensures FirstOccurrence(texts[..n], i) <==> FirstOccurrence(texts, i)
  {
    assert forall j | 0 <= j <= i :: texts[..n][j] == texts[j];
  }

  /** `FirstIndices` lists every first occurrence and nothing else, in
      increasing order. */
  lemma {:induction false} FirstIndicesShape(texts: seq<string>)
    ensures Increasing(FirstIndices(texts))
    ensures forall i | 0 <= i < |texts| :: i in FirstIndices(texts) <==> FirstOccurrence(texts, i)
    decreases |texts|
  {
    if |texts| > 0 {
      var n := |texts| - 1;
      var front := texts[..n];
      FirstIndicesShape(front);
      forall i | 0 <= i < n
        ensures FirstOccurrence(front, i) <==> FirstOccurrence(texts, i)
      {
        FirstOccurrencePrefix(texts, n, i);
      }
    }
  }

  /** `Dedup` keeps, in input order, exactly the first occurrence of each
      lower-cased form: entry `k` is the text at the `k`-th first-occurrence
      index. */
  lemma {:induction false} DedupInOrder(texts: seq<string>)
    ensures var u := Dedup(texts); var idx := FirstIndices(texts);
      && |u| == |idx|
      && forall k | 0 <= k < |idx| :: u[k] == texts[idx[k]]
    decreases |texts|
  {
    if |texts| > 0 {
      var n := |texts| - 1;
      var front := texts[..n];
      var prev := Dedup(front);
      var t := texts[n];
      DedupInOrder(front);
      var idxp := FirstIndices(front);
      assert forall k | 0 <= k < |idxp| :: prev[k] == texts[idxp[k]] by {
        forall k | 0 <= k < |idxp|
          ensures prev[k] == texts[idxp[k]]
        {
          assert front[idxp[k]] == texts[idxp[k]];
        }
      }
      SeenIffRepeat(texts);
    }
  }

  /** The last text is already seen by the de-duplication of the others
      exactly when it is not a first occurrence. */
  lemma SeenIffRepeat(texts: seq<string>)
    requires |texts| > 0
    ensures Seen(Dedup(texts[..|texts| - 1]), texts[|texts| - 1]) <==> !FirstOccurrence(texts, |texts| - 1)
  {
    var n := |texts| - 1;
    var front := texts[..n];
    var prev := Dedup(front);
    var t := texts[n];
    if Seen(prev, t) {
      var j :| 0 <= j < |prev| && Lower(prev[j]) == Lower(t);
      assert prev[j] in front;
      var i :| 0 <= i < n && front[i] == prev[j];
      assert Lower(texts[i]) == Lower(t);
    }
    if !FirstOccurrence(texts, n) {
      var i :| 0 <= i < n && Lower(texts[i]) == Lower(t);
      DedupCovers(front);
      assert front[i] == texts[i];
      assert Seen(prev, front[i]);
    }
  }

  /** De-duplicating a longer list only appends: the result for `a` is a
      prefix of the result for `a + b`, and what follows comes from `b`. */
  lemma {:induction false} DedupPrefix(a: seq<string>, b: seq<string>)
    ensures var u := Dedup(a + b);
      && Dedup(a) <= u
      && forall k | |Dedup(a)| <= k < |u| :: u[k] in b
    decreases |b|
  {
    if |b| == 0 {
      assert a + b == a;
    } else {
      var front := b[..|b| - 1];
      assert (a + b)[..|a + b| - 1] == a + front;
      DedupPrefix(a, front);
      var prev := Dedup(a + front);
      assert forall k | |Dedup(a)| <= k < |prev| :: prev[k] in b by {
        forall k | |Dedup(a)| <= k < |prev|
          ensures prev[k] in b
        {
          assert prev[k] in front;
        }
      }
      assert (a + b)[|a + b| - 1] == b[|b| - 1];
    }
  }

  /** `extract_all_text`: the plain texts of one engine, or for any other
      engine name the combined texts, Tesseract's first, de-duplicated. */
  function ExtractAllText(engine: string, tess: Option<TessData>, easy: Option<seq<EasyDetection>>)
    : (ts: seq<string>)
    ensures engine == TesseractKey ==> ts == Texts(ExtractTextTesseract(tess))
    ensures engine == EasyocrKey ==> ts == Texts(ExtractTextEasyocr(easy))
  {
    if engine == TesseractKey then Texts(ExtractTextTesseract(tess))
    else if engine == EasyocrKey then Texts(ExtractTextEasyocr(easy))
    else
      var rs := ExtractTextCombined(tess, easy, true, true);
      Dedup(EngineTexts(rs, TesseractKey) + EngineTexts(rs, EasyocrKey))
  }

  /** The combined branch: its entries are pairwise distinct ignoring case,
      cover every text either engine reported, and start with the
      de-duplicated Tesseract texts. */
  lemma ExtractAllTextCombined(engine: string, tess: Option<TessData>, easy: Option<seq<EasyDetection>>)
    requires engine != TesseractKey && engine != EasyocrKey
    ensures var ts := ExtractAllText(engine, tess, easy);
      var tt := Texts(ExtractTextTesseract(tess));
      var et := Texts(ExtractTextEasyocr(easy));
      && ts == Dedup(tt + et)
      && |ts| <= |tt| + |et|
      && DistinctLower(ts)
      && (forall i | 0 <= i < |tt + et| :: Seen(ts, (tt + et)[i]))
      && Dedup(tt) <= ts
  {
    var tt := Texts(ExtractTextTesseract(tess));
    var et := Texts(ExtractTextEasyocr(easy));
    CombinedKeys(tess, easy, true, true);
    DedupDistinct(tt + et);
    DedupCovers(tt + et);
    DedupPrefix(tt, et);
  }
}
