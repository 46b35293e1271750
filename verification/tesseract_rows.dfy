/** The row loop of the second-generation engine wrapper
    (src/ocr_engine.py): `OcrEngine.run` over the dictionary Tesseract's
    `image_to_data` returns, and the default configuration.

    The Tesseract call is not modelled; its dictionary is the input. An
    exception the loop raises is a `Failure` naming the row and the reason,
    since `run` does not catch it. */
module TesseractRows {
  import opened Wrappers
  import opened PyStr
  import opened RowIndices

  /** `OcrConfig`; `tessCmd` is the optional path to the Tesseract binary. */
  datatype OcrConfig = OcrConfig(lang: string, psm: int, oem: int, tessCmd: Option<string>)

  /** The configuration `OcrEngine()` uses when none is given. */
  const DefaultConfig: OcrConfig := OcrConfig("eng", 6, 3, None)

  /** A cell of the `conf` column. Tesseract hands back either text or a
      number; for text other than `""` and `"-1"`, `parsed` is what
      `float()` makes of it, `None` when it raises. */
  datatype ConfCell =
    | Blank
    | MinusOneText
    | OtherText(parsed: Option<real>)
    | Number(v: real)

  /** The parts of the dictionary the loop reads; a missing `line_num` or
      `block_num` key is `None`. */
  datatype ImageData = ImageData(
    text: seq<string>,
    conf: seq<ConfCell>,
    lineNum: Option<seq<int>>,
    blockNum: Option<seq<int>>)

  /** One line dictionary of the result. `conf` is optional because the
      confidence matcher also accepts dictionaries without the key. */
  datatype OcrLine = OcrLine(text: string, conf: Option<real>, lineNum: Option<int>, blockNum: Option<int>)

  datatype RunError =
    | ConfIndexError(row: nat)
    | ConfValueError(row: nat)
    | ColumnIndexError(row: nat)

  /** `float(c) if c not in ("", "-1") else 0.0`; `None` when `float()`
      raises. A number cell is never equal to a string, so a numeric `-1`
      stays `-1.0`. */
  function CoerceConf(c: ConfCell): (r: Option<real>)
    ensures c.Blank? || c.MinusOneText? ==> r == Some(0.0)
    ensures c.Number? ==> r == Some(c.v)
    ensures c.OtherText? ==> r == c.parsed
  {
    match c
    case Blank => Some(0.0)
    case MinusOneText => Some(0.0)
    case OtherText(parsed) => parsed
    case Number(v) => Some(v)
  }

  /** How the loop reads `line_num` and `block_num`: as written,
      `data.get(key, [None])[i]`, which raises for any row but the first
      when the key is missing; or as evidently intended, `None` for every
      row. */
  datatype LookupMode = AsWritten | Intended

  /** The value of an optional column at row `i`; `None` when the lookup
      raises. */
  function Lookup(col: Option<seq<int>>, i: nat, mode: LookupMode): (r: Option<Option<int>>)
    ensures col.Some? ==> (r.Some? <==> i < |col.value|)
    ensures col.Some? && i < |col.value| ==> r == Some(Some(col.value[i]))
    ensures col.None? ==> (r.Some? <==> mode == Intended || i == 0)
    ensures col.None? && r.Some? ==> r.value.None?
  {
    match col
    case Some(c) => if i < |c| then Some(Some(c[i])) else None
    case None =>
      match mode
      case AsWritten => if i == 0 then Some(None) else None
      case Intended => Some(None)
  }

  /** Row `i` yields a line: its stripped text is non-empty. */
  predicate HasText(d: ImageData, i: nat)
    requires i < |d.text|
  {
    |Strip(d.text[i])| > 0
  }

  /** Row `i` raises: its confidence cell is missing or not numeric, or it
      has text and a column lookup raises. */
  predicate RowFails(d: ImageData, i: nat, mode: LookupMode)
    requires i < |d.text|
  {
    || i >= |d.conf|
    || CoerceConf(d.conf[i]).None?
    || (HasText(d, i) && (Lookup(d.lineNum, i, mode).None? || Lookup(d.blockNum, i, mode).None?))
  }

  /** The error row `i` raises. */
  function RowError(d: ImageData, i: nat, mode: LookupMode): RunError
    requires i < |d.text|
  {
    if i >= |d.conf| then ConfIndexError(i)
    else if CoerceConf(d.conf[i]).None? then ConfValueError(i)
    else ColumnIndexError(i)
  }

  /** The line row `i` yields. */
  function RowLine(d: ImageData, i: nat, mode: LookupMode): (l: OcrLine)
    requires i < |d.text| && HasText(d, i) && !RowFails(d, i, mode)
    ensures l.text == Strip(d.text[i]) && l.conf == CoerceConf(d.conf[i])
    ensures d.lineNum.Some? ==> l.lineNum == Some(d.lineNum.value[i])
    ensures d.blockNum.Some? ==> l.blockNum == Some(d.blockNum.value[i])
    ensures d.lineNum.None? ==> l.lineNum.None?
    ensures d.blockNum.None? ==> l.blockNum.None?
  {
    OcrLine(Strip(d.text[i]), CoerceConf(d.conf[i]),
            Lookup(d.lineNum, i, mode).value, Lookup(d.blockNum, i, mode).value)
  }

  /** The loop of `OcrEngine.run` from row `i` on. */
  function RunRows(d: ImageData, i: nat, mode: LookupMode): (r: Result<seq<OcrLine>, RunError>)
    requires i <= |d.text|
    ensures r.Success? <==> forall j | i <= j < |d.text| :: !RowFails(d, j, mode)
    ensures r.Success? ==> |r.value| <= |d.text| - i
    decreases |d.text| - i
  {
    if i == |d.text| then Success([])
    else if RowFails(d, i, mode) then Failure(RowError(d, i, mode))
    else
      match RunRows(d, i + 1, mode)
      case Failure(e) => Failure(e)
      case Success(rest) => if HasText(d, i) then Success([RowLine(d, i, mode)] + rest) else Success(rest)
  }

  /** Row `j` is the first row from `i` on that raises. */
  predicate FirstFailure(d: ImageData, i: nat, j: nat, mode: LookupMode)
    requires i <= j < |d.text|
  {
    RowFails(d, j, mode) && forall j' | i <= j' < j :: !RowFails(d, j', mode)
  }

  /** A failed run reports the error of the first row that raises. */
  lemma {:induction false} RunRowsFailure(d: ImageData, i: nat, mode: LookupMode)
    requires i <= |d.text|
    ensures RunRows(d, i, mode).Failure? ==>
      exists j | i <= j < |d.text| :: FirstFailure(d, i, j, mode) && RunRows(d, i, mode).error == RowError(d, j, mode)
    decreases |d.text| - i
  {
    if i < |d.text| {
      if RowFails(d, i, mode) {
        assert FirstFailure(d, i, i, mode);
      } else if RunRows(d, i, mode).Failure? {
        RunRowsFailure(d, i + 1, mode);
        var j :| i + 1 <= j < |d.text| && FirstFailure(d, i + 1, j, mode) && RunRows(d, i + 1, mode).error == RowError(d, j, mode);
        assert FirstFailure(d, i, j, mode);
      }
    }
  }

  /** `OcrEngine.run`, reading the optional columns in `mode`
      (`AsWritten` is the code as it stands): it succeeds exactly when no
      row raises, and a failure is the error of the first row that does. */
  function Run(d: ImageData, mode: LookupMode): (r: Result<seq<OcrLine>, RunError>)
    ensures r.Success? <==> forall j | 0 <= j < |d.text| :: !RowFails(d, j, mode)
    ensures r.Failure? ==> exists j | 0 <= j < |d.text| :: FirstFailure(d, 0, j, mode) && r.error == RowError(d, j, mode)
  {
    RunRowsFailure(d, 0, mode);
    RunRows(d, 0, mode)
  }

  /** The conversion `float(...)` raises only on a text cell it cannot
      parse: a run that fails with a `ValueError` names such a row. */
  lemma RunConfError(d: ImageData, mode: LookupMode)
    ensures Run(d, mode).Failure? && Run(d, mode).error.ConfValueError? ==>
      var j := Run(d, mode).error.row;
      j < |d.text| && j < |d.conf| && d.conf[j].OtherText? && d.conf[j].parsed.None?
  {
    RunRowsFailure(d, 0, mode);
  }

  /** As written, a dictionary without `line_num` makes `run` raise as soon
      as some row after the first has text and a parseable confidence. */
  lemma AsWrittenMissingColumnRaises(d: ImageData, j: nat)
    requires d.lineNum.None? && 1 <= j < |d.text| && HasText(d, j)
    ensures Run(d, AsWritten).Failure?
  {
    assert RowFails(d, j, AsWritten);
  }

  /** The rows from `i` on that yield a line, in increasing order. */
  function TextRows(d: ImageData, i: nat): (idx: seq<nat>)
    requires i <= |d.text|
    ensures |idx| <= |d.text| - i
    decreases |d.text| - i
  {
    if i == |d.text| then []
    else if HasText(d, i) then [i] + TextRows(d, i + 1)
    else TextRows(d, i + 1)
  }

  /** Every index of `idx` is a row from `i` on with text. */
  predicate TextRowsFrom(d: ImageData, i: nat, idx: seq<nat>) {
    forall k | 0 <= k < |idx| :: i <= idx[k] < |d.text| && HasText(d, idx[k])
  }

  /** The rows with text are listed in increasing order, and all of them. */
  lemma TextRowsShape(d: ImageData, i: nat)
    requires i <= |d.text|
    ensures TextRowsFrom(d, i, TextRows(d, i))
    ensures Increasing(TextRows(d, i))
    ensures forall j | i <= j < |d.text| && HasText(d, j) :: j in TextRows(d, i)
  {
    TextRowsSound(d, i);
    TextRowsComplete(d, i);
  }

  lemma {:induction false} TextRowsSound(d: ImageData, i: nat)
    requires i <= |d.text|
    ensures TextRowsFrom(d, i, TextRows(d, i))
    ensures Increasing(TextRows(d, i))
    decreases |d.text| - i
  {
    if i < |d.text| {
      TextRowsSound(d, i + 1);
      var rest := TextRows(d, i + 1);
      if HasText(d, i) {
        var idx := [i] + rest;
        assert TextRows(d, i) == idx;
        forall k | 1 <= k < |idx|
          ensures idx[k] == rest[k - 1]
        {
        }
      }
    }
  }

  lemma {:induction false} TextRowsComplete(d: ImageData, i: nat)
    requires i <= |d.text|
    ensures forall j | i <= j < |d.text| && HasText(d, j) :: j in TextRows(d, i)
    decreases |d.text| - i
  {
    if i < |d.text| {
      TextRowsComplete(d, i + 1);
    }
  }

  /** `ls` holds, in order, the lines of the rows listed in `idx`. */
  predicate LinesFrom(d: ImageData, mode: LookupMode, idx: seq<nat>, ls: seq<OcrLine>) {
    && |ls| == |idx|
    && forall k | 0 <= k < |idx| ::
         idx[k] < |d.text| && HasText(d, idx[k]) && !RowFails(d, idx[k], mode)
         && ls[k] == RowLine(d, idx[k], mode)
  }

  lemma ConsLine(d: ImageData, mode: LookupMode, i: nat, idx: seq<nat>, ls: seq<OcrLine>)
    requires i < |d.text| && HasText(d, i) && !RowFails(d, i, mode) && LinesFrom(d, mode, idx, ls)
    ensures LinesFrom(d, mode, [i] + idx, [RowLine(d, i, mode)] + ls)
  {
    var idx', ls' := [i] + idx, [RowLine(d, i, mode)] + ls;
    forall k | 1 <= k < |idx'|
      ensures idx'[k] == idx[k - 1] && ls'[k] == ls[k - 1]
    {
    }
  }

  /** On success the loop returns one line per row with text, in row order,
      each holding the stripped text, coerced confidence and column values
      of its own row. */
  lemma {:induction false} RunRowsLines(d: ImageData, i: nat, mode: LookupMode)
    requires i <= |d.text| && RunRows(d, i, mode).Success?
    ensures LinesFrom(d, mode, TextRows(d, i), RunRows(d, i, mode).value)
    decreases |d.text| - i
  {
    if i < |d.text| {
      RunRowsLines(d, i + 1, mode);
      if HasText(d, i) {
        ConsLine(d, mode, i, TextRows(d, i + 1), RunRows(d, i + 1, mode).value);
      }
    }
  }

  /** The lines of a successful run: rows without text are skipped, the
      others kept in order with their own row's values, so every line has
      non-empty text and a confidence. */
  lemma RunLines(d: ImageData, mode: LookupMode)
    requires Run(d, mode).Success?
    ensures var ls := Run(d, mode).value; var idx := TextRows(d, 0);
      && LinesFrom(d, mode, idx, ls)
      && TextRowsFrom(d, 0, idx) && Increasing(idx)
      && (forall j | 0 <= j < |d.text| && HasText(d, j) :: j in idx)
      && (forall k | 0 <= k < |ls| :: |ls[k].text| > 0 && ls[k].conf.Some?)
  {
    RunRowsLines(d, 0, mode);
    TextRowsShape(d, 0);
  }

  /** With both optional columns present the two readings agree. */
  lemma {:induction false} AsWrittenAgreesWithColumns(d: ImageData, i: nat)
    requires i <= |d.text| && d.lineNum.Some? && d.blockNum.Some?
    ensures RunRows(d, i, AsWritten) == RunRows(d, i, Intended)
    decreases |d.text| - i
  {
    if i < |d.text| {
      AsWrittenAgreesWithColumns(d, i + 1);
    }
  }

  /** With the columns missing, the intended reading never fails on a row
      lookup: only the confidence column can make the run raise, and every
      line has no line or block number. */
  lemma IntendedWithoutColumns(d: ImageData)
    requires d.lineNum.None? && d.blockNum.None?
    requires |d.conf| >= |d.text|
    requires forall j | 0 <= j < |d.text| :: CoerceConf(d.conf[j]).Some?
    ensures Run(d, Intended).Success?
    ensures forall k | 0 <= k < |Run(d, Intended).value| :: Run(d, Intended).value[k].lineNum.None? && Run(d, Intended).value[k].blockNum.None?
  {
    RunLines(d, Intended);
  }

  /** As written, a dictionary without `line_num` makes `run` raise at the
      second row with text, where the intended reading returns both lines. */
  lemma MissingLineNumCounterexample()
    ensures var d := ImageData(["a", "b"], [Number(90.0), Number(80.0)], None, None);
      && Run(d, AsWritten) == Failure(ColumnIndexError(1))
      && Run(d, Intended) == Success([OcrLine("a", Some(90.0), None, None), OcrLine("b", Some(80.0), None, None)])
  {
    var d := ImageData(["a", "b"], [Number(90.0), Number(80.0)], None, None);
    StripOfTrimmed("a");
    StripOfTrimmed("b");
    assert HasText(d, 0) && HasText(d, 1);
    assert RunRows(d, 2, AsWritten) == Success([]);
    assert RunRows(d, 1, AsWritten) == Failure(ColumnIndexError(1));
    assert RunRows(d, 2, Intended) == Success([]);
    assert RowLine(d, 1, Intended) == OcrLine("b", Some(80.0), None, None);
    assert RowLine(d, 0, Intended) == OcrLine("a", Some(90.0), None, None);
    assert [RowLine(d, 1, Intended)] + [] == [OcrLine("b", Some(80.0), None, None)];
    assert RunRows(d, 1, Intended) == Success([OcrLine("b", Some(80.0), None, None)]);
    assert [OcrLine("a", Some(90.0), None, None)] + [OcrLine("b", Some(80.0), None, None)]
      == [OcrLine("a", Some(90.0), None, None), OcrLine("b", Some(80.0), None, None)];
    assert !RowFails(d, 0, Intended);
    assert RunRows(d, 0, Intended) == Success([RowLine(d, 0, Intended)] + RunRows(d, 1, Intended).value);
  }
}
