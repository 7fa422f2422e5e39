/**
 * `load_data`: read an uploaded table with an encoding fallback, find the
 * row holding the column names, and read the file again with that row as
 * the header.
 *
 * The parsers themselves (pandas `read_csv` and `read_excel`) are not part
 * of the model. What they would do with the uploaded file is given as an
 * `Upload` value, and the model says which of those outcomes `load_data`
 * asks for, in which order, and what it returns.
 */
module Loader {
  import opened CellText

  datatype Option<T> = None | Some(value: T)

  /** Data rows of a DataFrame, every cell already turned into text. */
  type Row = seq<string>
  type Table = seq<Row>

  /**
   * The encodings `load_data` knows: `utf-8`, `ISO-8859-1` and `cp1252`,
   * listed in the order it tries them.
   */
  datatype Encoding = Utf8 | Latin1 | Cp1252

  const Encodings: seq<Encoding> := [Utf8, Latin1, Cp1252]

  /** What one first-pass `read_csv(file, encoding=e)` call does. */
  datatype CsvAttempt =
    | Parsed(rows: Table)  // a table whose column names are file line 0
    | Rejected             // UnicodeDecodeError or ParserError: caught, next encoding
    | Raised               // any other exception: not caught, leaves load_data

  /**
   * How the parsers would respond to the uploaded file: the first-pass CSV
   * read per encoding, the Excel read, and the second CSV read per encoding
   * and header line (`None` when it raises).
   */
  datatype Upload = Upload(
    csv: Encoding -> CsvAttempt,
    excel: Option<Table>,
    reread: (Encoding, nat) -> Option<Table>)

  /** Where the first-pass table came from. */
  datatype Source = Csv(enc: Encoding) | Excel

  /** The state after step 1: `df_raw`, or how the function already ended. */
  datatype FirstRead =
    | Read(source: Source, rows: Table)
    | Unreadable           // every read failed: error shown, `None` returned
    | Escaped(enc: Encoding) // read_csv raised an exception it does not catch

  /** What `load_data` ends with. */
  datatype Loaded =
    | WithHeader(enc: Encoding, headerLine: nat, table: Table) // re-read with header=headerLine
    | Unchanged(source: Source, table: Table)                  // no header row: df_raw itself
    | NotRead                                                  // `None` after the Excel fallback failed
    | ReparseFailed                                            // `None` after the re-read raised
    | Uncaught(enc: Encoding)                                  // exception out of the first read_csv

  // ---------------------------------------------------------------------------
  // Step 1: encoding fallback

  predicate RejectedAt(f: Upload, k: nat)
    requires k < |Encodings|
  {
    f.csv(Encodings[k]).Rejected?
  }

  /** Every first-pass CSV read fails with a caught error. */
  predicate AllCsvRejected(f: Upload)
  {
    forall k: nat | k < |Encodings| :: RejectedAt(f, k)
  }

  /**
   * The index, from `k` on, of the encoding the loop stops on: the first one
   * whose read is not a caught error, or the last one when all of them are.
   */
  function StopAt(f: Upload, k: nat): (r: nat)
    requires k < |Encodings|
    ensures k <= r < |Encodings|
    ensures forall j: nat | k <= j < r :: RejectedAt(f, j)
    ensures r < |Encodings| - 1 ==> !RejectedAt(f, r)
    decreases |Encodings| - k
  {
    if k == |Encodings| - 1 || !RejectedAt(f, k) then k else StopAt(f, k + 1)
  }

  /** The value `enc` holds once the loop over the encodings has ended. */
  function LastTried(f: Upload): Encoding
  {
    Encodings[StopAt(f, 0)]
  }

  /** Step 1 as a value: the first-pass table, or how `load_data` ended. */
  function FirstPass(f: Upload): FirstRead
  {
    var e := LastTried(f);
    match f.csv(e)
    case Parsed(rows) => Read(Csv(e), rows)
    case Raised => Escaped(e)
    case Rejected => if f.excel.Some? then Read(Excel, f.excel.value) else Unreadable
  }

  /**
   * The loop over `encodings` and the Excel fallback. `tried` lists the
   * encodings handed to `read_csv`, `excelTried` says whether `read_excel`
   * was called, and `enc` is the loop variable as it is left afterwards.
   */
  method TryEncodings(f: Upload)
    returns (raw: FirstRead, tried: seq<Encoding>, excelTried: bool, enc: Option<Encoding>)
    ensures raw == FirstPass(f)
    ensures tried == Encodings[..StopAt(f, 0) + 1]
    ensures excelTried <==> AllCsvRejected(f)
    ensures enc == Some(LastTried(f))
  {
    tried, excelTried, enc := [], false, None;
    var df: Option<Table> := None;
    var i := 0;
    while i < |Encodings|
      invariant 0 <= i <= |Encodings|
      invariant tried == Encodings[..i]
      invariant enc == if i == 0 then None else Some(Encodings[i - 1])
      invariant forall j: nat | j < i :: RejectedAt(f, j)
      invariant df == None
    {
      var e := Encodings[i];
      enc := Some(e);
      tried := tried + [e];
      match f.csv(e)
      case Parsed(rows) =>
        assert !RejectedAt(f, i) && StopAt(f, 0) == i;
        df := Some(rows);
        break;
      case Raised =>
        assert !RejectedAt(f, i) && StopAt(f, 0) == i;
        raw := Escaped(e);
        return;
      case Rejected =>
      i := i + 1;
    }
    if df == None {
      assert RejectedAt(f, |Encodings| - 1) && StopAt(f, 0) == |Encodings| - 1;
      excelTried := true;
      match f.excel
      case None =>
        raw := Unreadable;
      case Some(rows) =>
        raw := Read(Excel, rows);
    } else {
      raw := Read(Csv(enc.value), df.value);
    }
  }

  // ---------------------------------------------------------------------------
  // Step 2: header-row search

  /**
   * The position, from `k` on, of the first data row that mentions the
   * keyword, or -1 when there is none.
   */
  function HeaderFrom(rows: Table, k: nat): (r: int)
    requires k <= |rows|
    ensures r == -1 || k <= r < |rows|
    ensures r == -1 <==> forall j: nat | k <= j < |rows| :: !RowMentionsDate(rows[j])
    ensures r != -1 ==> RowMentionsDate(rows[r])
    ensures r != -1 ==> forall j: nat | k <= j < r :: !RowMentionsDate(rows[j])
    decreases |rows| - k
  {
    if k == |rows| then -1
    else if RowMentionsDate(rows[k]) then k
    else HeaderFrom(rows, k + 1)
  }

  /** The loop over `df_raw.iterrows()`, stopping at the first qualifying row. */
  method FindHeader(rows: Table) returns (headerIdx: int)
    ensures -1 <= headerIdx < |rows|
    ensures headerIdx == -1 <==> forall j: nat | j < |rows| :: !RowMentionsDate(rows[j])
    ensures headerIdx != -1 ==> RowMentionsDate(rows[headerIdx])
    ensures headerIdx != -1 ==> forall j: nat | j < headerIdx :: !RowMentionsDate(rows[j])
    ensures headerIdx == HeaderFrom(rows, 0)
  {
    headerIdx := -1;
    var i := 0;
    while i < |rows|
      invariant 0 <= i <= |rows|
      invariant headerIdx == -1
      invariant forall j: nat | j < i :: !RowMentionsDate(rows[j])
    {
      if RowMentionsDate(rows[i]) {
        headerIdx := i;
        break;
      }
      i := i + 1;
    }
  }

  // ---------------------------------------------------------------------------
  // Step 3: re-read with the header, or fall back to the first-pass table

  /** `load_data` as a value. */
  function Load(f: Upload): Loaded
  {
    match FirstPass(f)
    case Unreadable => NotRead
    case Escaped(e) => Uncaught(e)
    case Read(source, rows) =>
      var h := HeaderFrom(rows, 0);
      if h == -1 then Unchanged(source, rows)
      else
        var e := LastTried(f);
        match f.reread(e, h + 1)
        case None => ReparseFailed
        case Some(t) => WithHeader(e, h + 1, t)
  }

  /** The whole of `load_data`. */
  method LoadData(f: Upload) returns (r: Loaded)
    ensures r == Load(f)
  {
    var raw, tried, excelTried, enc := TryEncodings(f);
    match raw
    case Unreadable =>
      r := NotRead;
    case Escaped(e) =>
      r := Uncaught(e);
    case Read(source, rows) =>
      var headerIdx := FindHeader(rows);
      var usedEncoding := if enc.Some? then enc.value else Utf8;
      if headerIdx != -1 {
        match f.reread(usedEncoding, headerIdx + 1)
        case None =>
          r := ReparseFailed;
        case Some(t) =>
          r := WithHeader(usedEncoding, headerIdx + 1, t);
      } else {
        r := Unchanged(source, rows);
      }
  }
}
